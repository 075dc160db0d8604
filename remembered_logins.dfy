// The remembered_logins side of the "remember me" cookie
// (App/Models/RememberedLogin.php): a record is looked up by the hash of
// the raw token the browser presents, may have expired, names the user it
// belongs to, and can be deleted.  A record is a value here (Storage.LoginRow);
// only `delete` changes state, and it changes the table, not the record.

module RememberedLogins {
  import opened Wrappers
  import opened Storage
  import opened Tokens
  import Users

  /**
   * `findByToken`: wrap the presented string in a Token, hash it, and fetch
   * the record keyed by that hash.  A string PHP reads as false ("" or "0")
   * makes the Token constructor mint fresh random bytes instead, so `random`
   * stands for the 16 bytes it would draw.
   */
  function FindByToken(logins: map<string, LoginRow>, token: string, random: seq<byte>,
                       key: string, hmac: Hmac): (r: Option<LoginRow>)
    requires |random| == RandomByteCount
    requires KeyedByHash(logins)
    ensures r.Some? ==> r.value in logins.Values
    ensures r.Some? ==> r.value.tokenHash == NewToken(Some(token), random).GetHash(key, hmac)
    ensures r.None? <==>
      forall row :: row in logins.Values ==> row.tokenHash != NewToken(Some(token), random).GetHash(key, hmac)
  {
    var tokenHash := NewToken(Some(token), random).GetHash(key, hmac);
    if tokenHash in logins then Some(logins[tokenHash]) else None
  }

  /** `hasExpired`: the expiry instant lies strictly before the current time. */
  predicate HasExpired(login: LoginRow, now: int)
  {
    login.expiresAt < now
  }

  /** `getUser`: the user whose id the record holds (None where PHP's declared return type would throw). */
  function GetUser(users: seq<UserRow>, login: LoginRow): (r: Option<UserRow>)
    ensures r.Some? ==> r.value in users && r.value.id == login.userId
    ensures r.None? <==> !HasUserId(users, login.userId)
  {
    Users.FindById(users, login.userId)
  }

  /** `delete`: remove the record keyed by this record's hash; nothing else changes. */
  method Delete(db: Database, login: LoginRow)
    requires db.Valid()
    modifies db`logins
    ensures db.Valid()
    ensures db.logins == old(db.logins) - {login.tokenHash}
  {
    db.logins := db.logins - {login.tokenHash};
  }

  // ---------------------------------------------------------------------
  // How the pieces fit together

  /**
   * The raw token `rememberLogin` hands to the cookie finds exactly the
   * record it inserted, whatever bytes a later Token would have drawn.
   */
  lemma RememberThenFind(logins: map<string, LoginRow>, userId: int, random: seq<byte>, later: seq<byte>,
                         now: int, key: string, hmac: Hmac)
    requires |random| == RandomByteCount && |later| == RandomByteCount
    requires KeyedByHash(logins)
    ensures var token := NewToken(None, random);
      var h := token.GetHash(key, hmac);
      var row := LoginRow(h, userId, now + Users.RememberSeconds);
      && KeyedByHash(logins[h := row])
      && FindByToken(logins[h := row], token.GetValue(), later, key, hmac) == Some(row)
  {
    RewrapGenerated(random, later);
  }

  /** A record written by `rememberLogin` at `now` stays valid for thirty days and expires right after. */
  lemma RememberedExpiry(userId: int, tokenHash: string, now: int, t: int)
    ensures var row := LoginRow(tokenHash, userId, now + Users.RememberSeconds);
      HasExpired(row, t) <==> t > now + 2592000
  {
  }

  /** There is no way back from expiry: a record expired at one time is expired at every later one. */
  lemma ExpiredStaysExpired(login: LoginRow, t1: int, t2: int)
    requires HasExpired(login, t1) && t1 <= t2
    ensures HasExpired(login, t2)
  {
  }

  /** For a token PHP reads as true, the lookup never depends on the random bytes. */
  lemma TokenLookupIgnoresFreshBytes(logins: map<string, LoginRow>, token: string, r1: seq<byte>, r2: seq<byte>,
                                     key: string, hmac: Hmac)
    requires |r1| == RandomByteCount && |r2| == RandomByteCount
    requires KeyedByHash(logins)
    requires token != "" && token != "0"
    ensures FindByToken(logins, token, r1, key, hmac) == FindByToken(logins, token, r2, key, hmac)
  {
  }

  /** After `delete`, the deleted record's token finds nothing, and every other token finds what it found before. */
  lemma DeleteThenFind(logins: map<string, LoginRow>, login: LoginRow, token: string, random: seq<byte>,
                       key: string, hmac: Hmac)
    requires |random| == RandomByteCount
    requires KeyedByHash(logins)
    ensures KeyedByHash(logins - {login.tokenHash})
    ensures var h := NewToken(Some(token), random).GetHash(key, hmac);
      FindByToken(logins - {login.tokenHash}, token, random, key, hmac)
        == if h == login.tokenHash then None else FindByToken(logins, token, random, key, hmac)
  {
  }

  /** The record a user's `rememberLogin` stored leads `getUser` back to that user while the row exists. */
  lemma RememberedUserFound(users: seq<UserRow>, i: int, tokenHash: string, expiresAt: int)
    requires UniqueUserIds(users) && 0 <= i < |users|
    ensures GetUser(users, LoginRow(tokenHash, users[i].id, expiresAt)) == Some(users[i])
  {
    Users.FindByIdUnique(users, i);
  }
}
