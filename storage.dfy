/**
 * The three database tables the core reads and writes, held in memory.
 *
 * `users` and `items` are in primary-key order, the model's choice: the
 * SELECTs have no ORDER BY; `remembered_logins` is keyed by its
 * primary key, `token_hash`. Besides the primary keys, the users table
 * carries a unique constraint on `email`. A statement that would break a
 * key makes `execute()` return false and changes nothing; every other
 * statement succeeds.
 */
module Storage {

  datatype UserRow = UserRow(
    id: int,
    name: string,
    surname: string,
    phone: string,
    city: string,
    email: string,
    passwordHash: string)

  datatype LoginRow = LoginRow(tokenHash: string, userId: int, expiresAt: int)

  datatype ItemRow = ItemRow(
    id: int,
    usersId: int,
    categoriesId: int,
    title: string,
    description: string)

  predicate UniqueUserIds(users: seq<UserRow>)
  {
    forall i, j :: 0 <= i < j < |users| ==> users[i].id != users[j].id
  }

  predicate UniqueEmails(users: seq<UserRow>)
  {
    forall i, j :: 0 <= i < j < |users| ==> users[i].email != users[j].email
  }

  /** Some row other than the one with id `id` holds `email`. */
  predicate EmailHeldByOther(users: seq<UserRow>, email: string, id: int)
  {
    exists i :: 0 <= i < |users| && users[i].email == email && users[i].id != id
  }

  predicate HasEmail(users: seq<UserRow>, email: string)
  {
    exists i :: 0 <= i < |users| && users[i].email == email
  }

  predicate HasUserId(users: seq<UserRow>, id: int)
  {
    exists i :: 0 <= i < |users| && users[i].id == id
  }

  predicate KeyedByHash(logins: map<string, LoginRow>)
  {
    forall h :: h in logins ==> logins[h].tokenHash == h
  }

  predicate UniqueItemIds(items: seq<ItemRow>)
  {
    forall i, j :: 0 <= i < j < |items| ==> items[i].id != items[j].id
  }

  class Database {
    var users: seq<UserRow>
    var nextUserId: int
    var logins: map<string, LoginRow>
    var items: seq<ItemRow>
    var nextItemId: int

    /** The keys and the auto-increment counters: ids start at 1 and stay below the next id to be handed out. */
    ghost predicate Valid()
      reads this
    {
      && 0 < nextUserId
      && 0 < nextItemId
      && UniqueUserIds(users)
      && UniqueEmails(users)
      && (forall i :: 0 <= i < |users| ==> 0 < users[i].id < nextUserId)
      && KeyedByHash(logins)
      && UniqueItemIds(items)
      && (forall i :: 0 <= i < |items| ==> 0 < items[i].id < nextItemId)
    }

    constructor ()
      ensures Valid()
      ensures users == [] && logins == map[] && items == []
    {
      users := [];
      nextUserId := 1;
      logins := map[];
      items := [];
      nextItemId := 1;
    }
  }
}
