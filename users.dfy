/**
 * The user model (App/Models/User.php): validation of a sign-up or profile
 * form into an ordered list of messages, lookups over the users table,
 * authentication, insertion, profile update and the "remember me" record.
 *
 * The primitives the model calls are parameters: `isEmail` stands for
 * `filter_var(..., FILTER_VALIDATE_EMAIL) !== false`, `bcrypt(plain, salt)`
 * for `password_hash` with the random salt it draws, `verify` for
 * `password_verify`, `hmac` and `key` for the token hash and the secret key,
 * `random` for the 16 bytes of `random_bytes(16)` and `now` for `time()`.
 */
module Users {
  import opened Wrappers
  import opened Storage
  import opened Tokens
  import Php

  /** The messages `validate` records; `Text` is the wording shown to the user. */
  datatype Message =
    | NameRequired | SurnameRequired | PhoneRequired | CityRequired
    | InvalidEmail | EmailTaken
    | PasswordTooShort | PasswordNeedsLetter | PasswordNeedsNumber
  {
    function Text(): string
    {
      match this
      case NameRequired => "Name is required"
      case SurnameRequired => "Surname is required"
      case PhoneRequired => "Phone is required"
      case CityRequired => "City is required"
      case InvalidEmail => "Invalid email"
      case EmailTaken => "email already taken"
      case PasswordTooShort => "Please enter at least 6 characters for the password"
      case PasswordNeedsLetter => "Password needs at least one letter"
      case PasswordNeedsNumber => "Password needs at least one number"
    }

    /** Position among the required-field rules, in the order they run; 4 for every other message. */
    function RequiredRank(): nat
    {
      match this
      case NameRequired => 0
      case SurnameRequired => 1
      case PhoneRequired => 2
      case CityRequired => 3
      case _ => 4
    }

    predicate IsEmailMessage()
    {
      InvalidEmail? || EmailTaken?
    }

    predicate IsPasswordMessage()
    {
      PasswordTooShort? || PasswordNeedsLetter? || PasswordNeedsNumber?
    }
  }

  /** No two messages share a wording, so a list of messages and the list of their texts say the same. */
  lemma TextInjective(m1: Message, m2: Message)
    requires m1.Text() == m2.Text()
    ensures m1 == m2
  {
    var t1, t2 := m1.Text(), m2.Text();
    assert |t1| == |t2| && t1[0] == t2[0] && t1[|t1| - 1] == t2[|t2| - 1];
  }

  const MinPasswordLength: nat := 6

  /** Lifetime of a remembered login: 30 days, in seconds. */
  const RememberSeconds: int := 60 * 60 * 24 * 30

  // ---------------------------------------------------------------------
  // Lookups over the users table

  /** `findByEmail`: the first row with this email, if any. */
  function FindByEmail(users: seq<UserRow>, email: string): (r: Option<UserRow>)
    ensures r.Some? ==> r.value in users && r.value.email == email
    ensures r.None? <==> !HasEmail(users, email)
  {
    if users == [] then None
    else if users[0].email == email then Some(users[0])
    else FindByEmail(users[1..], email)
  }

  /** `findByID`: the first row with this id, if any. */
  function FindById(users: seq<UserRow>, id: int): (r: Option<UserRow>)
    ensures r.Some? ==> r.value in users && r.value.id == id
    ensures r.None? <==> !HasUserId(users, id)
  {
    if users == [] then None
    else if users[0].id == id then Some(users[0])
    else FindById(users[1..], id)
  }

  /** With emails unique, the row found by email is the one row holding it. */
  lemma FindByEmailUnique(users: seq<UserRow>, i: int)
    requires UniqueEmails(users) && 0 <= i < |users|
    ensures FindByEmail(users, users[i].email) == Some(users[i])
  {
    var r := FindByEmail(users, users[i].email);
    var j :| 0 <= j < |users| && users[j] == r.value;
    assert !(i < j) && !(j < i);
  }

  /** With ids unique, the row found by id is the one row holding it. */
  lemma FindByIdUnique(users: seq<UserRow>, i: int)
    requires UniqueUserIds(users) && 0 <= i < |users|
    ensures FindById(users, users[i].id) == Some(users[i])
  {
    var r := FindById(users, users[i].id);
    var j :| 0 <= j < |users| && users[j] == r.value;
    assert !(i < j) && !(j < i);
  }

  /**
   * `$user->id != $ignore_id`. With no id to ignore the comparison is
   * against null, which PHP's loose comparison takes as equal to 0.
   */
  predicate IdDiffers(id: int, ignoreId: Option<int>)
  {
    match ignoreId
    case None => id != 0
    case Some(k) => id != k
  }

  /** `emailExists`: the row found by email is not the one whose id is ignored. */
  function EmailExists(users: seq<UserRow>, email: string, ignoreId: Option<int>): (r: bool)
    ensures r ==> HasEmail(users, email)
    ensures ignoreId.None? && HasEmail(users, email) && FindByEmail(users, email).value.id != 0 ==> r
  {
    match FindByEmail(users, email)
    case None => false
    case Some(u) => IdDiffers(u.id, ignoreId)
  }

  /** Over a table with unique emails, `emailExists` holds iff some row has the email and an id other than the ignored one. */
  lemma EmailExistsIff(users: seq<UserRow>, email: string, ignoreId: Option<int>)
    requires UniqueEmails(users)
    ensures EmailExists(users, email, ignoreId) <==>
      exists i :: 0 <= i < |users| && users[i].email == email && IdDiffers(users[i].id, ignoreId)
  {
    if exists i :: 0 <= i < |users| && users[i].email == email && IdDiffers(users[i].id, ignoreId) {
      var i :| 0 <= i < |users| && users[i].email == email && IdDiffers(users[i].id, ignoreId);
      FindByEmailUnique(users, i);
    }
  }

  /** Re-validating a stored user under its own id never reports its own email as taken. */
  lemma OwnEmailNotTaken(users: seq<UserRow>, i: int)
    requires UniqueEmails(users) && 0 <= i < |users|
    ensures !EmailExists(users, users[i].email, Some(users[i].id))
  {
    FindByEmailUnique(users, i);
  }

  // ---------------------------------------------------------------------
  // Validation rules

  /** The required-field rules, in the order `validate` runs them. */
  function RequiredFieldErrors(name: string, surname: string, phone: string, city: string): seq<Message>
  {
    (if name == "" then [NameRequired] else [])
    + (if surname == "" then [SurnameRequired] else [])
    + (if phone == "" then [PhoneRequired] else [])
    + (if city == "" then [CityRequired] else [])
  }

  /** One message per empty field and none for a filled one, each a required-field message. */
  lemma RequiredFieldRules(name: string, surname: string, phone: string, city: string)
    ensures var errs := RequiredFieldErrors(name, surname, phone, city);
      && (NameRequired in errs <==> name == "")
      && (SurnameRequired in errs <==> surname == "")
      && (PhoneRequired in errs <==> phone == "")
      && (CityRequired in errs <==> city == "")
      && (forall k :: 0 <= k < |errs| ==> errs[k].RequiredRank() < 4)
  {
    var a := if name == "" then [NameRequired] else [];
    var b := if surname == "" then [SurnameRequired] else [];
    var c := if phone == "" then [PhoneRequired] else [];
    var d := if city == "" then [CityRequired] else [];
    assert RequiredFieldErrors(name, surname, phone, city) == a + b + c + d;
    RequiredPieces(a, b, c, d);
  }

  /** Each piece can hold only its own field's message, so each message is in the whole exactly when it is in its piece. */
  lemma RequiredPieces(a: seq<Message>, b: seq<Message>, c: seq<Message>, d: seq<Message>)
    requires forall m :: m in a ==> m == NameRequired
    requires forall m :: m in b ==> m == SurnameRequired
    requires forall m :: m in c ==> m == PhoneRequired
    requires forall m :: m in d ==> m == CityRequired
    ensures var errs := a + b + c + d;
      && (NameRequired in errs <==> NameRequired in a)
      && (SurnameRequired in errs <==> SurnameRequired in b)
      && (PhoneRequired in errs <==> PhoneRequired in c)
      && (CityRequired in errs <==> CityRequired in d)
      && (forall k :: 0 <= k < |errs| ==> errs[k].RequiredRank() < 4)
  {
    var errs := a + b + c + d;
    forall k | 0 <= k < |errs|
      ensures errs[k].RequiredRank() < 4
    {
      assert errs[k] in errs;
    }
  }


  /** The required-field messages come in field order, name, surname, phone, city, so none repeats. */
  lemma RequiredFieldOrder(name: string, surname: string, phone: string, city: string)
    ensures var errs := RequiredFieldErrors(name, surname, phone, city);
      forall k, l :: 0 <= k < l < |errs| ==> errs[k].RequiredRank() < errs[l].RequiredRank()
  {
  }

  /** The email rules: syntax first, then uniqueness among the other users. */
  function EmailErrors(email: string, ignoreId: Option<int>, users: seq<UserRow>, isEmail: string -> bool): seq<Message>
  {
    (if !isEmail(email) then [InvalidEmail] else [])
    + (if EmailExists(users, email, ignoreId) then [EmailTaken] else [])
  }

  lemma EmailRules(email: string, ignoreId: Option<int>, users: seq<UserRow>, isEmail: string -> bool)
    ensures var errs := EmailErrors(email, ignoreId, users, isEmail);
      && (InvalidEmail in errs <==> !isEmail(email))
      && (EmailTaken in errs <==> EmailExists(users, email, ignoreId))
      && (forall k :: 0 <= k < |errs| ==> errs[k].IsEmailMessage())
  {
  }

  predicate IsAsciiLetter(c: char)
  {
    'a' <= c <= 'z' || 'A' <= c <= 'Z'
  }

  // The letter pattern of `validate` matches: some ASCII letter, in either case.
  predicate HasLetter(p: string)
  {
    exists i :: 0 <= i < |p| && IsAsciiLetter(p[i])
  }

  // The digit pattern of `validate` matches: some ASCII decimal digit.
  predicate HasDigit(p: string)
  {
    exists i :: 0 <= i < |p| && Php.IsDigit(p[i])
  }

  /** The password rules, applied only when a password is set. */
  function PasswordErrors(password: Option<string>): seq<Message>
  {
    match password
    case None => []
    case Some(p) =>
      (if |p| < MinPasswordLength then [PasswordTooShort] else [])
      + (if !HasLetter(p) then [PasswordNeedsLetter] else [])
      + (if !HasDigit(p) then [PasswordNeedsNumber] else [])
  }

  /** With no password nothing is checked; with one, each message appears exactly when its rule is broken. */
  lemma PasswordRules(password: Option<string>)
    ensures var errs := PasswordErrors(password);
      && (password.None? ==> errs == [])
      && (password.Some? ==>
            && (PasswordTooShort in errs <==> |password.value| < MinPasswordLength)
            && (PasswordNeedsLetter in errs <==> !HasLetter(password.value))
            && (PasswordNeedsNumber in errs <==> !HasDigit(password.value)))
      && (forall k :: 0 <= k < |errs| ==> errs[k].IsPasswordMessage())
  {
  }

  /** `validate`: every message it appends, in order. */
  function ValidationErrors(
    name: string, surname: string, phone: string, city: string, email: string,
    id: Option<int>, password: Option<string>, users: seq<UserRow>, isEmail: string -> bool): seq<Message>
  {
    RequiredFieldErrors(name, surname, phone, city)
    + EmailErrors(email, id, users, isEmail)
    + PasswordErrors(password)
  }

  /**
   * The required-field messages come first, in field order; every later
   * message is an email or password message.
   */
  lemma RequiredMessagesFirst(
    name: string, surname: string, phone: string, city: string, email: string,
    id: Option<int>, password: Option<string>, users: seq<UserRow>, isEmail: string -> bool)
    ensures var errs := ValidationErrors(name, surname, phone, city, email, id, password, users, isEmail);
      var req := RequiredFieldErrors(name, surname, phone, city);
      && req <= errs
      && (forall k :: |req| <= k < |errs| ==> errs[k].RequiredRank() == 4)
  {
    var req := RequiredFieldErrors(name, surname, phone, city);
    var ee := EmailErrors(email, id, users, isEmail);
    var pe := PasswordErrors(password);
    EmailRules(email, id, users, isEmail);
    PasswordRules(password);
    ConcatAssociative(req, ee, pe);
    NotRequiredConcat(ee, pe);
    OthersAfterRequired(req, ee + pe);
  }

  /** `validate` reports "X is required" exactly for the required fields X that are empty. */
  lemma RequiredMessagesExact(
    name: string, surname: string, phone: string, city: string, email: string,
    id: Option<int>, password: Option<string>, users: seq<UserRow>, isEmail: string -> bool)
    ensures var errs := ValidationErrors(name, surname, phone, city, email, id, password, users, isEmail);
      && (NameRequired in errs <==> name == "")
      && (SurnameRequired in errs <==> surname == "")
      && (PhoneRequired in errs <==> phone == "")
      && (CityRequired in errs <==> city == "")
  {
    var req := RequiredFieldErrors(name, surname, phone, city);
    var ee := EmailErrors(email, id, users, isEmail);
    var pe := PasswordErrors(password);
    RequiredFieldRules(name, surname, phone, city);
    EmailRules(email, id, users, isEmail);
    PasswordRules(password);
    ConcatAssociative(req, ee, pe);
    NotRequiredConcat(ee, pe);
    var errs := req + (ee + pe);
    assert ValidationErrors(name, surname, phone, city, email, id, password, users, isEmail) == errs;
    OnlyPrefixRequired(req, ee + pe, NameRequired);
    OnlyPrefixRequired(req, ee + pe, SurnameRequired);
    OnlyPrefixRequired(req, ee + pe, PhoneRequired);
    OnlyPrefixRequired(req, ee + pe, CityRequired);
  }

  /** A required-field message is in `req + rest` only through `req` when `rest` holds none. */
  lemma OnlyPrefixRequired(req: seq<Message>, rest: seq<Message>, m: Message)
    requires forall k :: 0 <= k < |rest| ==> rest[k].RequiredRank() == 4
    requires m.RequiredRank() < 4
    ensures m in req + rest <==> m in req
  {
  }

  /** Appending messages that are not required-field messages keeps the required ones as a prefix and adds none of them. */
  lemma OthersAfterRequired(req: seq<Message>, rest: seq<Message>)
    requires forall k :: 0 <= k < |rest| ==> rest[k].RequiredRank() == 4
    ensures req <= req + rest
    ensures forall k :: |req| <= k < |req + rest| ==> (req + rest)[k].RequiredRank() == 4
    ensures forall m: Message :: m.RequiredRank() < 4 ==> (m in req + rest <==> m in req)
  {
    forall k | |req| <= k < |req + rest| ensures (req + rest)[k].RequiredRank() == 4 {
      assert (req + rest)[k] == rest[k - |req|];
    }
  }

  lemma NotRequiredConcat(a: seq<Message>, b: seq<Message>)
    requires forall k :: 0 <= k < |a| ==> a[k].IsEmailMessage()
    requires forall k :: 0 <= k < |b| ==> b[k].IsPasswordMessage()
    ensures forall k :: 0 <= k < |a + b| ==> (a + b)[k].RequiredRank() == 4
  {
    forall k | 0 <= k < |a + b| ensures (a + b)[k].RequiredRank() == 4 {
      if k < |a| {
        assert (a + b)[k] == a[k];
      } else {
        assert (a + b)[k] == b[k - |a|];
      }
    }
  }


  // Sequence concatenation is associative and Dafny knows it; naming the
  // regrouping of the three validation sections here keeps the two proofs
  // above from searching for it.
  lemma ConcatAssociative<T>(a: seq<T>, b: seq<T>, c: seq<T>)
    ensures (a + b) + c == a + (b + c)
  {
  }

  /** `validate` reports nothing iff every rule is met. */
  lemma ValidationPassesIff(
    name: string, surname: string, phone: string, city: string, email: string,
    id: Option<int>, password: Option<string>, users: seq<UserRow>, isEmail: string -> bool)
    ensures ValidationErrors(name, surname, phone, city, email, id, password, users, isEmail) == [] <==>
      && name != "" && surname != "" && phone != "" && city != ""
      && isEmail(email)
      && !EmailExists(users, email, id)
      && (password.Some? ==>
            |password.value| >= MinPasswordLength && HasLetter(password.value) && HasDigit(password.value))
  {
  }

  /**
   * Once validation for a user with an id has passed, no other row holds
   * the submitted email, so writing it cannot break users.email's uniqueness.
   */
  lemma PassedValidationFreesEmail(
    name: string, surname: string, phone: string, city: string, email: string,
    id: int, password: Option<string>, users: seq<UserRow>, isEmail: string -> bool)
    requires UniqueEmails(users)
    ensures ValidationErrors(name, surname, phone, city, email, Some(id), password, users, isEmail) == [] ==>
      !EmailHeldByOther(users, email, id)
  {
    ValidationPassesIff(name, surname, phone, city, email, Some(id), password, users, isEmail);
    EmailExistsIff(users, email, Some(id));
  }

  /** A password of six characters with a letter and a digit passes every rule. */
  lemma PasswordAcceptedExample()
    ensures PasswordErrors(Some("abc123")) == []
  {
    assert IsAsciiLetter("abc123"[0]) && Php.IsDigit("abc123"[3]);
  }

  /** Short passwords: "abc" breaks the length and the digit rules, "abc1" only the length rule. */
  lemma ShortPasswordExamples()
    ensures PasswordErrors(Some("abc")) == [PasswordTooShort, PasswordNeedsNumber]
    ensures PasswordErrors(Some("abc1")) == [PasswordTooShort]
  {
    assert IsAsciiLetter("abc"[0]);
    assert IsAsciiLetter("abc1"[0]) && Php.IsDigit("abc1"[3]);
    assert !HasDigit("abc") by {
      forall i | 0 <= i < 3 ensures !Php.IsDigit("abc"[i]) {
        assert i == 0 || i == 1 || i == 2;
      }
    }
  }

  /** Six characters of a single class: "abcdef" lacks a digit, "123456" lacks a letter. */
  lemma SingleClassPasswordExamples()
    ensures PasswordErrors(Some("abcdef")) == [PasswordNeedsNumber]
    ensures PasswordErrors(Some("123456")) == [PasswordNeedsLetter]
  {
    assert IsAsciiLetter("abcdef"[0]);
    assert Php.IsDigit("123456"[0]);
    assert !HasDigit("abcdef") by {
      forall i | 0 <= i < 6 ensures !Php.IsDigit("abcdef"[i]) {
        assert i == 0 || i == 1 || i == 2 || i == 3 || i == 4 || i == 5;
      }
    }
    assert !HasLetter("123456") by {
      forall i | 0 <= i < 6 ensures !IsAsciiLetter("123456"[i]) {
        assert i == 0 || i == 1 || i == 2 || i == 3 || i == 4 || i == 5;
      }
    }
  }

  // ---------------------------------------------------------------------
  // Authentication

  /** `authenticate`: the row found by email, when the password verifies against its hash. */
  function Authenticate(users: seq<UserRow>, email: string, password: string, verify: (string, string) -> bool): (r: Option<UserRow>)
    ensures r.Some? ==> r.value in users && r.value.email == email && verify(password, r.value.passwordHash)
  {
    match FindByEmail(users, email)
    case None => None
    case Some(u) => if verify(password, u.passwordHash) then Some(u) else None
  }

  /**
   * Over a table with unique emails, authentication succeeds iff the user
   * with that email exists and the password verifies; an unknown email and a
   * wrong password give the same answer.
   */
  lemma AuthenticateIff(users: seq<UserRow>, email: string, password: string, verify: (string, string) -> bool)
    requires UniqueEmails(users)
    ensures Authenticate(users, email, password, verify).Some? <==>
      exists i :: 0 <= i < |users| && users[i].email == email && verify(password, users[i].passwordHash)
  {
    if exists i :: 0 <= i < |users| && users[i].email == email && verify(password, users[i].passwordHash) {
      var i :| 0 <= i < |users| && users[i].email == email && verify(password, users[i].passwordHash);
      FindByEmailUnique(users, i);
    }
  }

  /** A user just inserted with a fresh email authenticates with the password whose hash was stored. */
  lemma AuthenticateNewUser(users: seq<UserRow>, row: UserRow, password: string, verify: (string, string) -> bool)
    requires !HasEmail(users, row.email)
    requires verify(password, row.passwordHash)
    ensures Authenticate(users + [row], row.email, password, verify) == Some(row)
  {
    var all := users + [row];
    assert all[|users|] == row;
  }

  // ---------------------------------------------------------------------
  // The UPDATE statement of updateProfile

  /** Every row with id `id` takes the submitted columns, and the new hash when there is one; no other row changes. */
  function SetProfile(
    users: seq<UserRow>, id: int, name: string, surname: string, phone: string, city: string,
    email: string, newHash: Option<string>): (r: seq<UserRow>)
    ensures |r| == |users|
    ensures forall i :: 0 <= i < |users| && users[i].id != id ==> r[i] == users[i]
    ensures forall i :: 0 <= i < |users| && users[i].id == id ==>
      r[i] == UserRow(id, name, surname, phone, city, email,
                      if newHash.Some? then newHash.value else users[i].passwordHash)
  {
    if users == [] then []
    else
      var u := users[0];
      var u' := if u.id == id
        then UserRow(id, name, surname, phone, city, email, if newHash.Some? then newHash.value else u.passwordHash)
        else u;
      [u'] + SetProfile(users[1..], id, name, surname, phone, city, email, newHash)
  }

  /** The update keeps ids and emails unique when no other row holds the new email. */
  lemma SetProfileKeepsKeys(
    users: seq<UserRow>, id: int, name: string, surname: string, phone: string, city: string,
    email: string, newHash: Option<string>)
    requires UniqueUserIds(users) && UniqueEmails(users)
    requires !EmailHeldByOther(users, email, id)
    ensures var r := SetProfile(users, id, name, surname, phone, city, email, newHash);
      UniqueUserIds(r) && UniqueEmails(r) && (forall i :: 0 <= i < |r| ==> r[i].id == users[i].id)
  {
    var r := SetProfile(users, id, name, surname, phone, city, email, newHash);
    forall i, j | 0 <= i < j < |r| ensures r[i].email != r[j].email {
      if users[i].id == id {
        assert users[j].id != id;
      } else if users[j].id == id {
        assert r[j].email == email;
      }
    }
  }

  /** After the update, the row with id `id` carries the submitted columns and every other id finds what it found before. */
  lemma SetProfileFound(
    users: seq<UserRow>, id: int, name: string, surname: string, phone: string, city: string,
    email: string, newHash: Option<string>, other: int)
    requires UniqueUserIds(users) && other != id
    ensures var r := SetProfile(users, id, name, surname, phone, city, email, newHash);
      && FindById(r, other) == FindById(users, other)
      && (FindById(users, id).Some? <==> FindById(r, id).Some?)
      && (FindById(users, id).Some? ==>
            FindById(r, id) == Some(UserRow(id, name, surname, phone, city, email,
              if newHash.Some? then newHash.value else FindById(users, id).value.passwordHash)))
  {
    var r := SetProfile(users, id, name, surname, phone, city, email, newHash);
    assert UniqueUserIds(r) by {
      forall i, j | 0 <= i < j < |r| ensures r[i].id != r[j].id {
        assert r[i].id == users[i].id && r[j].id == users[j].id;
      }
    }
    if HasUserId(users, other) {
      var i :| 0 <= i < |users| && users[i].id == other;
      FindByIdUnique(users, i);
      FindByIdUnique(r, i);
    } else {
      assert !HasUserId(r, other) by {
        forall i | 0 <= i < |r| ensures r[i].id != other {
          assert r[i].id == users[i].id;
        }
      }
    }
    if HasUserId(users, id) {
      var i :| 0 <= i < |users| && users[i].id == id;
      FindByIdUnique(users, i);
      FindByIdUnique(r, i);
    } else {
      assert !HasUserId(r, id) by {
        forall i | 0 <= i < |r| ensures r[i].id != id {
          assert r[i].id == users[i].id;
        }
      }
    }
  }

  // ---------------------------------------------------------------------
  // The user object

  /** The submitted edit-profile form. */
  datatype ProfileForm = ProfileForm(
    name: string, surname: string, phone: string, city: string, email: string,
    userId: string, password: string)

  /** `password_hash($this->password)` hashes an unset password as the empty string. */
  function PasswordText(password: Option<string>): string
  {
    if password.Some? then password.value else ""
  }

  class User {
    var name: string
    var surname: string
    var phone: string
    var city: string
    var email: string
    /** The plaintext password, set only on sign-up or when a new one is submitted. */
    var password: Option<string>
    var id: Option<int>
    /** Validation messages; only ever appended to. */
    var errors: seq<Message>
    var rememberToken: Option<string>
    var expiryTimestamp: Option<int>

    constructor (name: string, surname: string, phone: string, city: string, email: string,
                 password: Option<string>, id: Option<int>)
      ensures this.name == name && this.surname == surname && this.phone == phone
      ensures this.city == city && this.email == email
      ensures this.password == password && this.id == id
      ensures errors == [] && rememberToken == None && expiryTimestamp == None
    {
      this.name := name;
      this.surname := surname;
      this.phone := phone;
      this.city := city;
      this.email := email;
      this.password := password;
      this.id := id;
      errors := [];
      rememberToken := None;
      expiryTimestamp := None;
    }

    /** `validate`: appends the messages of every rule the current values break. */
    method Validate(db: Database, isEmail: string -> bool)
      modifies this`errors
      ensures errors == old(errors) + ValidationErrors(name, surname, phone, city, email, id, password, db.users, isEmail)
    {
      ghost var e0 := errors;
      ValidateRequiredFields();
      ValidateEmail(db, isEmail);
      ValidatePassword();
      ghost var req := RequiredFieldErrors(name, surname, phone, city);
      ghost var ee := EmailErrors(email, id, db.users, isEmail);
      ConcatAssociative(e0, req, ee);
      ConcatAssociative(e0, req + ee, PasswordErrors(password));
    }

    // `validate` is one method in PHP. It is split into its three sections
    // here only to keep each verification condition small.

    /** The name, surname, phone and city rules of `validate`. */
    method ValidateRequiredFields()
      modifies this`errors
      ensures errors == old(errors) + RequiredFieldErrors(name, surname, phone, city)
    {
      ghost var e0 := errors;
      ghost var a := if name == "" then [NameRequired] else [];
      ghost var b := if surname == "" then [SurnameRequired] else [];
      ghost var c := if phone == "" then [PhoneRequired] else [];
      if name == "" {
        errors := errors + [NameRequired];
      }
      assert errors == e0 + a;
      if surname == "" {
        errors := errors + [SurnameRequired];
      }
      ConcatAssociative(e0, a, b);
      assert errors == e0 + (a + b);
      if phone == "" {
        errors := errors + [PhoneRequired];
      }
      ConcatAssociative(e0, a + b, c);
      assert errors == e0 + (a + b + c);
      if city == "" {
        errors := errors + [CityRequired];
      }
      ConcatAssociative(e0, a + b + c, if city == "" then [CityRequired] else []);
    }

    /** The email-address rules of `validate`; the object's own id, when it has one, is ignored by the uniqueness rule. */
    method ValidateEmail(db: Database, isEmail: string -> bool)
      modifies this`errors
      ensures errors == old(errors) + EmailErrors(email, id, db.users, isEmail)
    {
      if !isEmail(email) {
        errors := errors + [InvalidEmail];
      }
      if EmailExists(db.users, email, id) {
        errors := errors + [EmailTaken];
      }
    }

    /** The password rules of `validate`, run only when a password is set. */
    method ValidatePassword()
      modifies this`errors
      ensures errors == old(errors) + PasswordErrors(password)
    {
      if password.Some? {
        if |password.value| < MinPasswordLength {
          errors := errors + [PasswordTooShort];
        }
        if !HasLetter(password.value) {
          errors := errors + [PasswordNeedsLetter];
        }
        if !HasDigit(password.value) {
          errors := errors + [PasswordNeedsNumber];
        }
      }
    }

    /**
     * `save`: validate, then insert one row only when no message has ever
     * been recorded on this object. The insert fails, changing nothing, when
     * the email is already stored (possible only if the object carries an id
     * that the uniqueness rule ignored).
     */
    method Save(db: Database, isEmail: string -> bool, bcrypt: (string, string) -> string, salt: string)
      returns (ok: bool)
      requires db.Valid()
      modifies this`errors, db
      ensures db.Valid()
      ensures errors == old(errors) + ValidationErrors(name, surname, phone, city, email, id, password, old(db.users), isEmail)
      ensures old(errors) != [] ==> !ok
      ensures ok <==> errors == [] && !HasEmail(old(db.users), email)
      ensures id.None? ==> (ok <==> errors == [])
      ensures ok ==>
        && db.users == old(db.users) + [UserRow(old(db.nextUserId), name, surname, phone, city, email, bcrypt(PasswordText(password), salt))]
        && db.nextUserId == old(db.nextUserId) + 1
      ensures !ok ==> db.users == old(db.users) && db.nextUserId == old(db.nextUserId)
      ensures db.logins == old(db.logins) && db.items == old(db.items) && db.nextItemId == old(db.nextItemId)
    {
      Validate(db, isEmail);
      if errors == [] {
        if id.None? {
          EmailExistsIff(db.users, email, id);
        }
        var passwordHash := bcrypt(PasswordText(password), salt);
        if HasEmail(db.users, email) {
          ok := false;
        } else {
          db.users := db.users + [UserRow(db.nextUserId, name, surname, phone, city, email, passwordHash)];
          db.nextUserId := db.nextUserId + 1;
          ok := true;
        }
      } else {
        ok := false;
      }
    }

    /**
     * `updateProfile`: take the form's columns and id, keep the submitted
     * password only when it is non-empty, validate, and on success update the
     * row with that id, rewriting its hash only when a password is set.
     */
    method UpdateProfile(db: Database, data: ProfileForm, isEmail: string -> bool,
                         bcrypt: (string, string) -> string, salt: string)
      returns (ok: bool)
      requires db.Valid()
      modifies this, db
      ensures db.Valid()
      ensures name == data.name && surname == data.surname && phone == data.phone
      ensures city == data.city && email == data.email && id == Some(Php.IntCast(data.userId))
      ensures password == if data.password != "" then Some(data.password) else old(password)
      ensures rememberToken == old(rememberToken) && expiryTimestamp == old(expiryTimestamp)
      ensures errors == old(errors) + ValidationErrors(name, surname, phone, city, email, id, password, old(db.users), isEmail)
      ensures ok <==> errors == []
      ensures ok ==> db.users == SetProfile(old(db.users), id.value, name, surname, phone, city, email,
                                            if password.Some? then Some(bcrypt(password.value, salt)) else None)
      ensures !ok ==> db.users == old(db.users)
      ensures db.nextUserId == old(db.nextUserId)
      ensures db.logins == old(db.logins) && db.items == old(db.items) && db.nextItemId == old(db.nextItemId)
    {
      LoadForm(data);
      Validate(db, isEmail);
      // The email rule has just excluded every other row holding this
      // email, so the unique constraint on users.email cannot fail.
      PassedValidationFreesEmail(name, surname, phone, city, email, id.value, password, db.users, isEmail);
      var newHash := if password.Some? then Some(bcrypt(password.value, salt)) else None;
      ok := StoreIfValid(db, newHash);
    }

    // `updateProfile` is one method in PHP. LoadForm and StoreIfValid are its
    // first and last steps, split out only to keep verification fast.

    /** The form values `updateProfile` copies onto the object; an empty password leaves the old one. */
    method LoadForm(data: ProfileForm)
      modifies this`name, this`surname, this`phone, this`city, this`email, this`id, this`password
      ensures name == data.name && surname == data.surname && phone == data.phone
      ensures city == data.city && email == data.email && id == Some(Php.IntCast(data.userId))
      ensures password == if data.password != "" then Some(data.password) else old(password)
    {
      name := data.name;
      surname := data.surname;
      phone := data.phone;
      city := data.city;
      email := data.email;
      id := Some(Php.IntCast(data.userId));
      if data.password != "" {
        password := Some(data.password);
      }
    }

    /** The UPDATE statement of `updateProfile`, run only when validation left no message. */
    method StoreIfValid(db: Database, newHash: Option<string>) returns (ok: bool)
      requires db.Valid() && id.Some?
      requires errors == [] ==> !EmailHeldByOther(db.users, email, id.value)
      modifies db`users
      ensures db.Valid()
      ensures ok <==> errors == []
      ensures ok ==> db.users == SetProfile(old(db.users), id.value, name, surname, phone, city, email, newHash)
      ensures !ok ==> db.users == old(db.users)
    {
      if errors == [] {
        SetProfileKeepsKeys(db.users, id.value, name, surname, phone, city, email, newHash);
        db.users := SetProfile(db.users, id.value, name, surname, phone, city, email, newHash);
        ok := true;
      } else {
        ok := false;
      }
    }

    /**
     * `rememberLogin`: mint a token, keep its raw value on the object, and
     * insert a record holding only its hash, this user's id and an expiry 30
     * days from now. The insert fails when the hash is already a key.
     */
    method RememberLogin(db: Database, random: seq<byte>, now: int, key: string, hmac: Hmac)
      returns (ok: bool)
      requires db.Valid() && id.Some? && |random| == RandomByteCount
      modifies this`rememberToken, this`expiryTimestamp, db
      ensures db.Valid()
      ensures rememberToken == Some(NewToken(None, random).GetValue())
      ensures expiryTimestamp == Some(now + RememberSeconds)
      ensures var h := NewToken(None, random).GetHash(key, hmac);
        && (ok <==> h !in old(db.logins))
        && db.logins == if ok then old(db.logins)[h := LoginRow(h, id.value, now + RememberSeconds)] else old(db.logins)
      ensures db.users == old(db.users) && db.nextUserId == old(db.nextUserId)
      ensures db.items == old(db.items) && db.nextItemId == old(db.nextItemId)
    {
      var token := NewToken(None, random);
      var hashedToken := token.GetHash(key, hmac);
      rememberToken := Some(token.GetValue());
      expiryTimestamp := Some(now + RememberSeconds);
      if hashedToken in db.logins {
        ok := false;
      } else {
        db.logins := db.logins[hashedToken := LoginRow(hashedToken, id.value, now + RememberSeconds)];
        ok := true;
      }
    }
  }
}
