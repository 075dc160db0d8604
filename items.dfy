// Marketplace items (App/Models/Item.php): validation of a listing, and the
// insert, update and delete statements on the items table, plus the two
// queries that read it back.

module Items {
  import opened Wrappers
  import opened Storage
  import Php

  /** The messages `validate` can append, in the order its rules run. */
  datatype ItemMessage = TitleRequired | DescriptionRequired | CategoryRequired
  {
    function Text(): string
    {
      match this
      case TitleRequired => "Title is required"
      case DescriptionRequired => "Description is required"
      case CategoryRequired => "Category is required"
    }

    /** Position of the rule that appends this message. */
    function Rank(): nat
    {
      match this
      case TitleRequired => 0
      case DescriptionRequired => 1
      case CategoryRequired => 2
    }
  }

  /**
   * The messages `validate` appends. The category test pairs "not set"
   * with "not among the categories"; an unset category is null, which no
   * category record equals, so the test comes down to "not set".
   */
  function ItemValidationErrors(title: string, description: string, category: Option<string>): seq<ItemMessage>
  {
    (if title == "" then [TitleRequired] else [])
    + (if description == "" then [DescriptionRequired] else [])
    + (if category.None? then [CategoryRequired] else [])
  }

  /** Each message is there exactly when its rule is broken, at most once, and validation passes iff no rule is broken. */
  lemma ItemValidationRules(title: string, description: string, category: Option<string>)
    ensures var errs := ItemValidationErrors(title, description, category);
      && (TitleRequired in errs <==> title == "")
      && (DescriptionRequired in errs <==> description == "")
      && (CategoryRequired in errs <==> category.None?)
      && |errs| <= 3
      && (errs == [] <==> title != "" && description != "" && category.Some?)
  {
  }

  /** A category that is set is never checked: any value, even one naming no category, passes that rule. */
  lemma SetCategoryNeverChecked(title: string, description: string, category: string)
    ensures ItemValidationErrors(title, description, Some(category)) == ItemValidationErrors(title, description, Some(""))
    ensures CategoryRequired !in ItemValidationErrors(title, description, Some(category))
  {
  }

  /** The messages keep the order in which the rules run: title, then description, then category. */
  lemma ItemValidationOrder(title: string, description: string, category: Option<string>, i: int, j: int)
    requires var errs := ItemValidationErrors(title, description, category); 0 <= i < j < |errs|
    ensures var errs := ItemValidationErrors(title, description, category); errs[i].Rank() < errs[j].Rank()
  {
  }

  // ---------------------------------------------------------------------
  // Queries

  /** `getById`: the row with this id, if any. */
  function GetById(items: seq<ItemRow>, itemId: int): (r: Option<ItemRow>)
    ensures r.Some? ==> r.value in items && r.value.id == itemId
    ensures r.None? <==> forall i :: 0 <= i < |items| ==> items[i].id != itemId
  {
    if items == [] then None
    else if items[0].id == itemId then Some(items[0])
    else GetById(items[1..], itemId)
  }

  /** With ids unique, `getById` finds the one row carrying the id. */
  lemma {:induction false} GetByIdUnique(items: seq<ItemRow>, i: int)
    requires UniqueItemIds(items) && 0 <= i < |items|
    ensures GetById(items, items[i].id) == Some(items[i])
  {
    if i > 0 {
      assert items[0].id != items[i].id;
      GetByIdUnique(items[1..], i - 1);
    }
  }

  /** `getAllByUserId`: the user's items, in the order of the modelled table. */
  function GetAllByUserId(items: seq<ItemRow>, userId: int): (r: seq<ItemRow>)
    ensures |r| <= |items|
    ensures forall row :: row in r <==> row in items && row.usersId == userId
  {
    if items == [] then []
    else (if items[0].usersId == userId then [items[0]] else []) + GetAllByUserId(items[1..], userId)
  }

  /** Filtering a table that is split in two filters each part and keeps the parts in the modelled table's order. */
  lemma {:induction false} GetAllByUserIdAppend(a: seq<ItemRow>, b: seq<ItemRow>, userId: int)
    ensures GetAllByUserId(a + b, userId) == GetAllByUserId(a, userId) + GetAllByUserId(b, userId)
  {
    if a == [] {
      assert a + b == b;
    } else {
      assert (a + b)[1..] == a[1..] + b;
      GetAllByUserIdAppend(a[1..], b, userId);
    }
  }

  // ---------------------------------------------------------------------
  // The UPDATE and DELETE statements

  /** Every row with id `itemId` takes the new title, description and category; no other row changes. */
  function UpdateItemRows(items: seq<ItemRow>, itemId: int, title: string, description: string,
                          categoriesId: int): (r: seq<ItemRow>)
    ensures |r| == |items|
    ensures forall i :: 0 <= i < |items| && items[i].id != itemId ==> r[i] == items[i]
    ensures forall i :: 0 <= i < |items| && items[i].id == itemId ==>
      r[i] == ItemRow(itemId, items[i].usersId, categoriesId, title, description)
  {
    if items == [] then []
    else
      var row := items[0];
      var row' := if row.id == itemId then ItemRow(itemId, row.usersId, categoriesId, title, description) else row;
      [row'] + UpdateItemRows(items[1..], itemId, title, description, categoriesId)
  }

  /** Every row whose id is not `itemId`, in table order. */
  function RemoveItem(items: seq<ItemRow>, itemId: int): (r: seq<ItemRow>)
    ensures |r| <= |items|
    ensures forall row :: row in r <==> row in items && row.id != itemId
  {
    if items == [] then []
    else (if items[0].id != itemId then [items[0]] else []) + RemoveItem(items[1..], itemId)
  }

  /** A row whose id differs from every id in a table with unique ids can go in front. */
  lemma UniqueItemIdsCons(row: ItemRow, rest: seq<ItemRow>)
    requires UniqueItemIds(rest)
    requires forall other :: other in rest ==> other.id != row.id
    ensures UniqueItemIds([row] + rest)
  {
    var all := [row] + rest;
    forall i, j | 0 <= i < j < |all| ensures all[i].id != all[j].id {
      assert all[j] == rest[j - 1];
      if i > 0 {
        assert all[i] == rest[i - 1];
      }
    }
  }

  /** Removing rows keeps ids unique. */
  lemma {:induction false} RemoveItemKeepsKeys(items: seq<ItemRow>, itemId: int)
    requires UniqueItemIds(items)
    ensures UniqueItemIds(RemoveItem(items, itemId))
  {
    if items != [] {
      var tail := items[1..];
      assert UniqueItemIds(tail) by {
        forall i, j | 0 <= i < j < |tail| ensures tail[i].id != tail[j].id {
          assert tail[i] == items[i + 1] && tail[j] == items[j + 1];
        }
      }
      RemoveItemKeepsKeys(tail, itemId);
      var rest := RemoveItem(tail, itemId);
      if items[0].id != itemId {
        forall other | other in rest ensures other.id != items[0].id {
          var k :| 0 <= k < |tail| && tail[k] == other;
          assert items[k + 1] == other;
        }
        UniqueItemIdsCons(items[0], rest);
      }
    }
  }

  /** After a delete, `getById` finds nothing for the deleted id and what it found before for every other id. */
  lemma {:induction false} DeleteThenGetById(items: seq<ItemRow>, itemId: int, other: int)
    ensures GetById(RemoveItem(items, itemId), itemId) == None
    ensures other != itemId ==> GetById(RemoveItem(items, itemId), other) == GetById(items, other)
  {
    if items != [] {
      DeleteThenGetById(items[1..], itemId, other);
      var rest := RemoveItem(items[1..], itemId);
      if items[0].id != itemId {
        assert RemoveItem(items, itemId) == [items[0]] + rest;
        assert ([items[0]] + rest)[1..] == rest;
      } else {
        assert RemoveItem(items, itemId) == rest;
      }
    }
  }

  /** An update keeps every row's id, so ids stay unique. */
  lemma UpdateKeepsKeys(items: seq<ItemRow>, itemId: int, title: string, description: string, categoriesId: int)
    requires UniqueItemIds(items)
    ensures var r := UpdateItemRows(items, itemId, title, description, categoriesId);
      UniqueItemIds(r) && forall i :: 0 <= i < |r| ==> r[i].id == items[i].id
  {
    var r := UpdateItemRows(items, itemId, title, description, categoriesId);
    forall i, j | 0 <= i < j < |r| ensures r[i].id != r[j].id {
      assert r[i].id == items[i].id && r[j].id == items[j].id;
    }
  }

  /** After an update, the row with that id carries the new columns and keeps its owner; a missing id stays missing. */
  lemma UpdateThenGetById(items: seq<ItemRow>, itemId: int, title: string, description: string, categoriesId: int)
    requires UniqueItemIds(items)
    ensures var r := UpdateItemRows(items, itemId, title, description, categoriesId);
      && (GetById(items, itemId).Some? ==>
            GetById(r, itemId) == Some(ItemRow(itemId, GetById(items, itemId).value.usersId, categoriesId, title, description)))
      && (GetById(items, itemId).None? ==> GetById(r, itemId).None?)
  {
    var r := UpdateItemRows(items, itemId, title, description, categoriesId);
    UpdateKeepsKeys(items, itemId, title, description, categoriesId);
    if GetById(items, itemId).Some? {
      var i :| 0 <= i < |items| && items[i] == GetById(items, itemId).value;
      GetByIdUnique(items, i);
      GetByIdUnique(r, i);
    }
  }

  /** An update leaves what `getById` finds for every other id as it was. */
  lemma UpdateLeavesOthers(items: seq<ItemRow>, itemId: int, title: string, description: string,
                           categoriesId: int, other: int)
    requires UniqueItemIds(items) && other != itemId
    ensures GetById(UpdateItemRows(items, itemId, title, description, categoriesId), other) == GetById(items, other)
  {
    var r := UpdateItemRows(items, itemId, title, description, categoriesId);
    UpdateKeepsKeys(items, itemId, title, description, categoriesId);
    if GetById(items, other).Some? {
      var i :| 0 <= i < |items| && items[i] == GetById(items, other).value;
      GetByIdUnique(items, i);
      GetByIdUnique(r, i);
    }
  }

  /** The form `update` receives: title, description, category and the item's id. */
  datatype ItemForm = ItemForm(title: string, description: string, categoriesId: Option<string>, id: int)

  class Item {
    var title: string
    var description: string
    /** The category id as submitted; None when the field was not set. */
    var category: Option<string>
    var id: Option<int>
    /** Validation messages; only ever appended to. */
    var errors: seq<ItemMessage>

    constructor (title: string, description: string, category: Option<string>)
      ensures this.title == title && this.description == description && this.category == category
      ensures id == None && errors == []
    {
      this.title := title;
      this.description := description;
      this.category := category;
      id := None;
      errors := [];
    }

    /** `validate`: appends the message of every rule the current values break. */
    method Validate()
      modifies this`errors
      ensures errors == old(errors) + ItemValidationErrors(title, description, category)
    {
      if title == "" {
        errors := errors + [TitleRequired];
      }
      if description == "" {
        errors := errors + [DescriptionRequired];
      }
      if category.None? {
        errors := errors + [CategoryRequired];
      }
    }

    /**
     * `save`: validate, and with no messages insert one row owned by the
     * signed-in user, whose category is the integer value of the submitted one.
     */
    method Save(db: Database, currentUserId: int) returns (ok: bool)
      requires db.Valid()
      modifies this`errors, db`items, db`nextItemId
      ensures db.Valid()
      ensures errors == old(errors) + ItemValidationErrors(title, description, category)
      ensures ok <==> errors == []
      ensures ok ==> category.Some?
      ensures ok ==>
        && db.items == old(db.items) + [ItemRow(old(db.nextItemId), currentUserId, Php.IntCast(category.value), title, description)]
        && db.nextItemId == old(db.nextItemId) + 1
      ensures !ok ==> db.items == old(db.items) && db.nextItemId == old(db.nextItemId)
    {
      Validate();
      if errors == [] {
        ItemValidationRules(title, description, category);
        db.items := db.items + [ItemRow(db.nextItemId, currentUserId, Php.IntCast(category.value), title, description)];
        db.nextItemId := db.nextItemId + 1;
        ok := true;
      } else {
        ok := false;
      }
    }

    /**
     * `update`: copy the form onto the object, validate, and with no
     * messages rewrite the row with the form's id.
     */
    method Update(db: Database, data: ItemForm) returns (ok: bool)
      requires db.Valid()
      modifies this, db`items
      ensures db.Valid()
      ensures title == data.title && description == data.description
      ensures category == data.categoriesId && id == Some(data.id)
      ensures errors == old(errors) + ItemValidationErrors(title, description, category)
      ensures ok <==> errors == []
      ensures ok ==> category.Some?
      ensures ok ==> db.items == UpdateItemRows(old(db.items), data.id, title, description, Php.IntCast(category.value))
      ensures !ok ==> db.items == old(db.items)
    {
      title := data.title;
      description := data.description;
      category := data.categoriesId;
      id := Some(data.id);
      Validate();
      ItemValidationRules(title, description, category);
      ok := StoreIfValid(db);
    }

    /**
     * The UPDATE statement of `update`, run only when validation left no
     * message; split out of `update` only to keep verification fast.
     */
    method StoreIfValid(db: Database) returns (ok: bool)
      requires db.Valid() && id.Some?
      requires errors == [] ==> category.Some?
      modifies db`items
      ensures db.Valid()
      ensures ok <==> errors == []
      ensures ok ==> category.Some?
      ensures ok ==> db.items == UpdateItemRows(old(db.items), id.value, title, description, Php.IntCast(category.value))
      ensures !ok ==> db.items == old(db.items)
    {
      if errors == [] {
        UpdateKeepsKeys(db.items, id.value, title, description, Php.IntCast(category.value));
        db.items := UpdateItemRows(db.items, id.value, title, description, Php.IntCast(category.value));
        ok := true;
      } else {
        ok := false;
      }
    }

    /** `delete`: remove the row with this id; the statement always succeeds. */
    method Delete(db: Database, itemId: int) returns (ok: bool)
      requires db.Valid()
      modifies db`items
      ensures db.Valid()
      ensures ok
      ensures db.items == RemoveItem(old(db.items), itemId)
    {
      RemoveItemKeepsKeys(db.items, itemId);
      db.items := RemoveItem(db.items, itemId);
      forall k | 0 <= k < |db.items| ensures 0 < db.items[k].id < db.nextItemId {
        assert db.items[k] in old(db.items);
      }
      ok := true;
    }
  }

  /** A saved item shows up last in its owner's list, after everything they listed before. */
  lemma SaveThenGetAll(items: seq<ItemRow>, row: ItemRow)
    ensures GetAllByUserId(items + [row], row.usersId) == GetAllByUserId(items, row.usersId) + [row]
  {
    GetAllByUserIdAppend(items, [row], row.usersId);
    assert GetAllByUserId([row], row.usersId) == [row] by {
      assert [row][1..] == [];
    }
  }
}
