/** The user table and the refresh-token table. Users are unique by id, by
    email and by phone number; refresh tokens are unique by their value and
    each one belongs to an existing user. */
module AuthStore {
  import opened Common

  datatype User = User(
    id: Id, email: string, password: string, firstName: string, lastName: string,
    phoneNumber: string, role: string, status: string)

  /** What is shown of a user: everything except the password hash. */
  datatype Profile = Profile(
    id: Id, email: string, firstName: string, lastName: string,
    phoneNumber: string, role: string, status: string)

  /** One stored refresh token; times are milliseconds since the epoch. */
  datatype RefreshToken = RefreshToken(userId: Id, token: string, expiresAt: int, revokedAt: Option<int>)

  /** A unique key of the user table. */
  datatype UserKey = ById(id: Id) | ByEmail(email: string) | ByPhone(phoneNumber: string)

  /** The `data` of a user update: only the supplied columns are written. */
  datatype UserUpdate = UserUpdate(
    firstName: Option<string>, lastName: Option<string>, phoneNumber: Option<string>, password: Option<string>)

  function ProfileOf(u: User): (p: Profile)
    ensures p.id == u.id && p.email == u.email && p.role == u.role && p.status == u.status
    ensures p.firstName == u.firstName && p.lastName == u.lastName && p.phoneNumber == u.phoneNumber
  {
    Profile(u.id, u.email, u.firstName, u.lastName, u.phoneNumber, u.role, u.status)
  }

  /** The profile does not depend on the password: changing the password
      alone never changes what is shown. */
  lemma ProfileHidesPassword(u: User, password: string)
    ensures ProfileOf(u.(password := password)) == ProfileOf(u)
    ensures forall v: User :: ProfileOf(v) == ProfileOf(u) ==> v == u.(password := v.password)
  {
  }

  predicate HasKey(u: User, k: UserKey)
  {
    match k
    case ById(id) => u.id == id
    case ByEmail(email) => u.email == email
    case ByPhone(phone) => u.phoneNumber == phone
  }

  /** No two users share an id, an email or a phone number. */
  ghost predicate Unique(users: seq<User>)
  {
    forall i, j :: 0 <= i < j < |users| ==>
      users[i].id != users[j].id && users[i].email != users[j].email && users[i].phoneNumber != users[j].phoneNumber
  }

  /** `findUnique` on the user table. */
  function FindUser(users: seq<User>, k: UserKey): (r: Option<User>)
    ensures r.Some? ==> r.value in users && HasKey(r.value, k)
    ensures r.None? <==> forall u :: u in users ==> !HasKey(u, k)
  {
    if users == [] then None
    else if HasKey(users[0], k) then Some(users[0])
    else FindUser(users[1..], k)
  }

  /** With unique keys, the user found under a key is the only one holding it. */
  lemma {:induction false} FindUserUnique(users: seq<User>, u: User, k: UserKey)
    requires Unique(users)
    requires u in users && HasKey(u, k)
    ensures FindUser(users, k) == Some(u)
  {
    if users[0] != u {
      var j :| 0 <= j < |users| && users[j] == u;
      assert j > 0;
      assert !HasKey(users[0], k);
      assert users[1..][j - 1] == u;
      FindUserUnique(users[1..], u, k);
    }
  }

  lemma {:induction false} FindUserGrows(users: seq<User>, u: User, k: UserKey)
    requires FindUser(users, k).Some?
    ensures FindUser(users + [u], k) == FindUser(users, k)
  {
    if !HasKey(users[0], k) {
      assert (users + [u])[1..] == users[1..] + [u];
      FindUserGrows(users[1..], u, k);
    }
  }

  function ApplyUser(u: User, upd: UserUpdate): (v: User)
    ensures v.id == u.id && v.email == u.email && v.role == u.role && v.status == u.status
    ensures v.firstName == (if upd.firstName.Some? then upd.firstName.value else u.firstName)
    ensures v.lastName == (if upd.lastName.Some? then upd.lastName.value else u.lastName)
    ensures v.phoneNumber == (if upd.phoneNumber.Some? then upd.phoneNumber.value else u.phoneNumber)
    ensures v.password == (if upd.password.Some? then upd.password.value else u.password)
  {
    u.(firstName := if upd.firstName.Some? then upd.firstName.value else u.firstName,
       lastName := if upd.lastName.Some? then upd.lastName.value else u.lastName,
       phoneNumber := if upd.phoneNumber.Some? then upd.phoneNumber.value else u.phoneNumber,
       password := if upd.password.Some? then upd.password.value else u.password)
  }

  /** The user table with the row of that id updated. */
  function UpdateUserRow(users: seq<User>, id: Id, upd: UserUpdate): (r: seq<User>)
    ensures |r| == |users|
    ensures forall i :: 0 <= i < |users| ==> r[i] == if users[i].id == id then ApplyUser(users[i], upd) else users[i]
  {
    if users == [] then []
    else [if users[0].id == id then ApplyUser(users[0], upd) else users[0]] + UpdateUserRow(users[1..], id, upd)
  }

  lemma {:induction false} FindUserKeptByUpdate(users: seq<User>, id: Id, upd: UserUpdate, k: Id)
    requires FindUser(users, ById(k)).Some?
    ensures FindUser(UpdateUserRow(users, id, upd), ById(k)).Some?
  {
    if users[0].id != k {
      FindUserKeptByUpdate(users[1..], id, upd, k);
    }
  }

  /** The supplied phone number is held by a user other than `id`. */
  predicate PhoneClash(users: seq<User>, id: Id, upd: UserUpdate)
  {
    upd.phoneNumber.Some?
    && var holder := FindUser(users, ByPhone(upd.phoneNumber.value));
    holder.Some? && holder.value.id != id
  }

  /** The token record holding that value. */
  function TokenByValue(tokens: seq<RefreshToken>, t: string): (r: Option<RefreshToken>)
    ensures r.Some? ==> r.value in tokens && r.value.token == t
    ensures r.None? <==> forall x :: x in tokens ==> x.token != t
  {
    if tokens == [] then None
    else if tokens[0].token == t then Some(tokens[0])
    else TokenByValue(tokens[1..], t)
  }

  /** A token value found before a record is appended is found as before. */
  lemma {:induction false} TokenByValueGrows(tokens: seq<RefreshToken>, x: RefreshToken, t: string)
    requires TokenByValue(tokens, t).Some?
    ensures TokenByValue(tokens + [x], t) == TokenByValue(tokens, t)
  {
    if tokens[0].token != t {
      assert (tokens + [x])[1..] == tokens[1..] + [x];
      TokenByValueGrows(tokens[1..], x, t);
    }
  }

  /** The token table with every record of that value stamped revoked at `now`. */
  function Revoke(tokens: seq<RefreshToken>, t: string, now: int): (r: seq<RefreshToken>)
    ensures |r| == |tokens|
    ensures forall i :: 0 <= i < |tokens| ==>
      r[i] == if tokens[i].token == t then tokens[i].(revokedAt := Some(now)) else tokens[i]
  {
    if tokens == [] then []
    else [if tokens[0].token == t then tokens[0].(revokedAt := Some(now)) else tokens[0]] + Revoke(tokens[1..], t, now)
  }

  /** After revoking a value, looking it up finds a revoked record (or none),
      and every other value is found exactly as before. */
  lemma {:induction false} RevokeLookup(tokens: seq<RefreshToken>, t: string, now: int, other: string)
    ensures TokenByValue(Revoke(tokens, t, now), t) ==
      (if TokenByValue(tokens, t).Some? then Some(TokenByValue(tokens, t).value.(revokedAt := Some(now))) else None)
    ensures other != t ==> TokenByValue(Revoke(tokens, t, now), other) == TokenByValue(tokens, other)
  {
    if tokens != [] {
      assert Revoke(tokens, t, now)[1..] == Revoke(tokens[1..], t, now);
      RevokeLookup(tokens[1..], t, now, other);
    }
  }

  class AuthRepository {
    /** The user rows, in insertion order. */
    var users: seq<User>
    /** The refresh-token rows, in insertion order. */
    var tokens: seq<RefreshToken>
    /** The next user id the store hands out. */
    var nextId: nat

    ghost predicate Valid()
      reads this
    {
      && (forall i :: 0 <= i < |users| ==> users[i].id < nextId)
      && Unique(users)
      && UniqueTokens(tokens)
      && OwnersExist(users, tokens)
    }

    constructor ()
      ensures Valid() && users == [] && tokens == [] && nextId == 0
    {
      users, tokens, nextId := [], [], 0;
    }

    /** `findUserByEmail`, `findUserById`, `findUserByPhone`: the one user
        holding the key, or none exactly when nobody holds it. */
    function Find(k: UserKey): (r: Option<User>)
      reads this
      requires Valid()
      ensures r.Some? ==> r.value in users && HasKey(r.value, k)
      ensures r.None? <==> forall u :: u in users ==> !HasKey(u, k)
      ensures r.Some? ==> forall u :: u in users && HasKey(u, k) ==> u == r.value
    {
      var r := FindUser(users, k);
      if r.Some? then
        assert forall u :: u in users && HasKey(u, k) ==> u == r.value by {
          forall u | u in users && HasKey(u, k) ensures u == r.value {
            FindUserUnique(users, u, k);
          }
        }
        r
      else r
    }

    /** `createUser`: adds exactly one user with a fresh id; the unique keys
        refuse a taken email or phone number. */
    method CreateUser(email: string, password: string, firstName: string, lastName: string,
                      phoneNumber: string, role: string, status: string)
      returns (r: Result<User>)
      requires Valid()
      modifies this
      ensures Valid()
      ensures FindUser(old(users), ByEmail(email)).Some? || FindUser(old(users), ByPhone(phoneNumber)).Some? ==>
        r == Failure(Persistence) && unchanged(this)
      ensures FindUser(old(users), ByEmail(email)).None? && FindUser(old(users), ByPhone(phoneNumber)).None? ==>
        && r == Success(User(old(nextId), email, password, firstName, lastName, phoneNumber, role, status))
        && users == old(users) + [r.value] && tokens == old(tokens) && nextId == old(nextId) + 1
    {
      if FindUser(users, ByEmail(email)).Some? || FindUser(users, ByPhone(phoneNumber)).Some? {
        return Failure(Persistence);
      }
      var u := User(nextId, email, password, firstName, lastName, phoneNumber, role, status);
      forall i | 0 <= i < |users| ensures users[i].email != email && users[i].phoneNumber != phoneNumber {
        assert users[i] in users && !HasKey(users[i], ByEmail(email)) && !HasKey(users[i], ByPhone(phoneNumber));
      }
      OwnersExistAfterUser(users, tokens, u);
      users := users + [u];
      nextId := nextId + 1;
      r := Success(u);
    }

    /** `createRefreshToken`: adds exactly one token record; the unique key
        refuses a value already stored and the foreign key a missing user. */
    method CreateRefreshToken(userId: Id, token: string, expiresAt: int) returns (r: Result<()>)
      requires Valid()
      modifies this
      ensures Valid()
      ensures FindUser(old(users), ById(userId)).None? || TokenByValue(old(tokens), token).Some? ==>
        r == Failure(Persistence) && unchanged(this)
      ensures FindUser(old(users), ById(userId)).Some? && TokenByValue(old(tokens), token).None? ==>
        && r == Success(())
        && tokens == old(tokens) + [RefreshToken(userId, token, expiresAt, None)]
        && users == old(users) && nextId == old(nextId)
    {
      if FindUser(users, ById(userId)).None? || TokenByValue(tokens, token).Some? {
        return Failure(Persistence);
      }
      var x := RefreshToken(userId, token, expiresAt, None);
      OwnersExistAfterToken(users, tokens, x);
      UniqueTokensAfterToken(tokens, x);
      tokens := tokens + [x];
      r := Success(());
    }

    /** `findRefreshToken`: the record with that value together with its
        owning user, or none exactly when no record holds the value. */
    function FindRefreshToken(token: string): (r: Option<(RefreshToken, User)>)
      reads this
      requires Valid()
      ensures r.None? <==> forall x :: x in tokens ==> x.token != token
      ensures r.Some? ==> r.value.0 in tokens && r.value.0.token == token
      ensures r.Some? ==> r.value.1 in users && r.value.1.id == r.value.0.userId
    {
      match TokenByValue(tokens, token)
      case None => None
      case Some(x) =>
        Some((x, FindUser(users, ById(x.userId)).value))
    }

    /** `revokeRefreshToken`: stamps every record of that value revoked at
        `now`; with no such record it changes nothing. */
    method RevokeRefreshToken(token: string, now: int)
      requires Valid()
      modifies this
      ensures Valid()
      ensures tokens == Revoke(old(tokens), token, now)
      ensures users == old(users) && nextId == old(nextId)
      ensures (forall x :: x in old(tokens) ==> x.token != token) ==> tokens == old(tokens)
    {
      RevokeKeepsTokens(users, tokens, token, now);
      tokens := Revoke(tokens, token, now);
    }

    /** `user.update` as the users service issues it: writes the supplied
        columns of that user; a missing user, or a phone number another user
        holds, makes the update fail. */
    method UpdateUserById(id: Id, upd: UserUpdate) returns (r: Result<User>)
      requires Valid()
      modifies this
      ensures Valid()
      ensures FindUser(old(users), ById(id)).None? || PhoneClash(old(users), id, upd) ==>
        r == Failure(Persistence) && unchanged(this)
      ensures FindUser(old(users), ById(id)).Some? && !PhoneClash(old(users), id, upd) ==>
        && r == Success(ApplyUser(FindUser(old(users), ById(id)).value, upd))
        && users == UpdateUserRow(old(users), id, upd)
        && tokens == old(tokens) && nextId == old(nextId)
    {
      var found := FindUser(users, ById(id));
      if found.None? || PhoneClash(users, id, upd) {
        return Failure(Persistence);
      }
      var updated := UpdateUserRow(users, id, upd);
      UpdateKeepsUnique(users, id, upd, nextId);
      OwnersExistAfterUpdate(users, tokens, id, upd);
      users := updated;
      r := Success(ApplyUser(found.value, upd));
    }
  }

  /** No two refresh-token records share a value. */
  ghost predicate UniqueTokens(tokens: seq<RefreshToken>)
  {
    forall i, j :: 0 <= i < j < |tokens| ==> tokens[i].token != tokens[j].token
  }

  /** Every refresh token belongs to an existing user (the foreign key). */
  ghost predicate OwnersExist(users: seq<User>, tokens: seq<RefreshToken>)
  {
    forall i :: 0 <= i < |tokens| ==> FindUser(users, ById(tokens[i].userId)).Some?
  }

  /** Adding a user keeps every token's owner findable. */
  lemma OwnersExistAfterUser(users: seq<User>, tokens: seq<RefreshToken>, u: User)
    requires OwnersExist(users, tokens)
    ensures OwnersExist(users + [u], tokens)
  {
    forall i | 0 <= i < |tokens| ensures FindUser(users + [u], ById(tokens[i].userId)).Some? {
      FindUserGrows(users, u, ById(tokens[i].userId));
    }
  }

  /** Adding a token of an existing user keeps the foreign key. */
  lemma OwnersExistAfterToken(users: seq<User>, tokens: seq<RefreshToken>, x: RefreshToken)
    requires OwnersExist(users, tokens) && FindUser(users, ById(x.userId)).Some?
    ensures OwnersExist(users, tokens + [x])
  {
    forall i | 0 <= i < |tokens| + 1 ensures FindUser(users, ById((tokens + [x])[i].userId)).Some? {
      if i < |tokens| {
        assert (tokens + [x])[i] == tokens[i];
      }
    }
  }

  /** Adding a token under a value no record holds keeps values unique. */
  lemma UniqueTokensAfterToken(tokens: seq<RefreshToken>, x: RefreshToken)
    requires UniqueTokens(tokens)
    requires forall y :: y in tokens ==> y.token != x.token
    ensures UniqueTokens(tokens + [x])
  {
    var tokens' := tokens + [x];
    forall i, j | 0 <= i < j < |tokens'| ensures tokens'[i].token != tokens'[j].token {
      if j == |tokens| {
        assert tokens'[i] in tokens;
      }
    }
  }

  /** Revoking changes no value and no owner, so both token invariants hold after it. */
  lemma RevokeKeepsTokens(users: seq<User>, tokens: seq<RefreshToken>, t: string, now: int)
    requires UniqueTokens(tokens) && OwnersExist(users, tokens)
    ensures UniqueTokens(Revoke(tokens, t, now)) && OwnersExist(users, Revoke(tokens, t, now))
  {
    var tokens' := Revoke(tokens, t, now);
    assert forall i :: 0 <= i < |tokens| ==> tokens'[i].token == tokens[i].token && tokens'[i].userId == tokens[i].userId;
  }

  /** Updating a user keeps every token's owner findable. */
  lemma OwnersExistAfterUpdate(users: seq<User>, tokens: seq<RefreshToken>, id: Id, upd: UserUpdate)
    requires OwnersExist(users, tokens)
    ensures OwnersExist(UpdateUserRow(users, id, upd), tokens)
  {
    forall i | 0 <= i < |tokens| ensures FindUser(UpdateUserRow(users, id, upd), ById(tokens[i].userId)).Some? {
      FindUserKeptByUpdate(users, id, upd, tokens[i].userId);
    }
  }

  /** An update that gives no user another user's phone number keeps ids,
      emails and phone numbers unique, and ids below the counter. */
  lemma UpdateKeepsUnique(users: seq<User>, id: Id, upd: UserUpdate, bound: nat)
    requires Unique(users) && forall i :: 0 <= i < |users| ==> users[i].id < bound
    requires !PhoneClash(users, id, upd)
    ensures Unique(UpdateUserRow(users, id, upd))
    ensures forall i :: 0 <= i < |users| ==> UpdateUserRow(users, id, upd)[i].id < bound
  {
    var users' := UpdateUserRow(users, id, upd);
    if upd.phoneNumber.Some? {
      forall v | v in users && v.phoneNumber == upd.phoneNumber.value ensures v.id == id {
        FindUserUnique(users, v, ByPhone(upd.phoneNumber.value));
      }
    }
    forall i, j | 0 <= i < j < |users|
      ensures users'[i].id != users'[j].id && users'[i].email != users'[j].email
      ensures users'[i].phoneNumber != users'[j].phoneNumber
    {
      assert users[i] in users && users[j] in users;
    }
  }
}
