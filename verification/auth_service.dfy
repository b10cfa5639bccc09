/** The authentication service: registration, login, refresh (a new token
    pair; the presented refresh token is not revoked) and logout. Password hashing and checking are the service's
    `hash` and `verify` functions; the JWT signer's output for a call is the
    `issued` token pair it is given; the clock is the `now` argument; the
    access-token blacklist is the `blacklist` set. */
module Auth {
  import opened Common
  import opened AuthStore
  import Notifications
  import NotificationsStore

  const UserExists: string := "User with this email or phone already exists"
  const InvalidCredentials: string := "Invalid credentials"
  const AccountNotActive: string := "Account is not active"
  const InvalidRefreshToken: string := "Invalid refresh token"

  const CustomerRole: string := "customer"
  const ActiveStatus: string := "active"

  /** How long a refresh token lives: seven days, in milliseconds. */
  const RefreshLifetime: int := 7 * 24 * 60 * 60 * 1000

  const LoginTitle: string := "Login successful"
  const LoginMessage: string := "New login to your account."

  datatype RegisterData = RegisterData(
    email: string, password: string, firstName: string, lastName: string, phoneNumber: string)

  /** The access and refresh tokens the signer produced for this call. */
  datatype TokenPair = TokenPair(accessToken: string, refreshToken: string)

  datatype AuthResponse = AuthResponse(accessToken: string, refreshToken: string, user: Profile)

  /** A refresh token is honoured when its record exists, is not revoked and
      has not expired (`now` past `expiresAt`). */
  function RefreshAccepted(tokens: seq<RefreshToken>, t: string, now: int): (ok: bool)
    ensures ok ==> exists x :: x in tokens && x.token == t && x.revokedAt.None? && now <= x.expiresAt
    ensures (forall x :: x in tokens ==> x.token != t) ==> !ok
  {
    var x := TokenByValue(tokens, t);
    x.Some? && x.value.revokedAt.None? && !(now > x.value.expiresAt)
  }

  /** After a logout revokes `t`, `t` is refused at every later time, and
      every other refresh token is honoured exactly as before. */
  lemma RevokedRefused(tokens: seq<RefreshToken>, t: string, revokedAt: int)
    ensures forall now :: !RefreshAccepted(Revoke(tokens, t, revokedAt), t, now)
    ensures forall other, now :: other != t ==>
      (RefreshAccepted(Revoke(tokens, t, revokedAt), other, now) <==> RefreshAccepted(tokens, other, now))
  {
    RevokeLookup(tokens, t, revokedAt, t);
    forall other | other != t ensures TokenByValue(Revoke(tokens, t, revokedAt), other) == TokenByValue(tokens, other) {
      RevokeLookup(tokens, t, revokedAt, other);
    }
  }

  /** The in-app notice a successful login sends. */
  function LoginNotice(userId: Id): (p: Notifications.Payload)
    ensures Notifications.Complete(p) && p.userId == Some(userId)
  {
    Notifications.Payload(Some(userId), Some(NotificationsStore.InApp), LoginTitle, LoginMessage)
  }

  class AuthService {
    const repo: AuthRepository
    const notifications: Notifications.NotificationsService
    /** The password hash. */
    const hash: string -> string
    /** Whether a password matches a stored hash. */
    const verify: (string, string) -> bool
    /** The access tokens refused from now on. */
    var blacklist: set<string>

    ghost predicate Valid()
      reads this, repo, notifications, notifications.repo
    {
      repo.Valid() && notifications.Valid() && HashSound()
    }

    /** Every password matches its own hash. */
    ghost predicate HashSound()
    {
      forall p :: verify(p, hash(p))
    }

    constructor (repo: AuthRepository, notifications: Notifications.NotificationsService,
                 hash: string -> string, verify: (string, string) -> bool)
      requires repo.Valid() && notifications.Valid()
      requires forall p :: verify(p, hash(p))
      ensures this.repo == repo && this.notifications == notifications
      ensures this.hash == hash && this.verify == verify && blacklist == {}
      ensures Valid()
    {
      this.repo := repo;
      this.notifications := notifications;
      this.hash := hash;
      this.verify := verify;
      blacklist := {};
    }

    /** The email belongs to an active user whose stored hash the password matches. */
    predicate Admits(users: seq<User>, email: string, password: string)
    {
      var u := FindUser(users, ByEmail(email));
      u.Some? && verify(password, u.value.password) && u.value.status == ActiveStatus
    }

    /** `generateTokens`: stores exactly one refresh token for the user,
        expiring seven days from now, and answers with both tokens and the
        user's profile; a refresh-token value already stored is refused. */
    method GenerateTokens(user: User, now: int, issued: TokenPair) returns (r: Result<AuthResponse>)
      requires Valid()
      requires FindUser(repo.users, ById(user.id)).Some?
      modifies repo
      ensures Valid()
      ensures TokenByValue(old(repo.tokens), issued.refreshToken).Some? ==>
        r == Failure(Persistence) && unchanged(repo)
      ensures TokenByValue(old(repo.tokens), issued.refreshToken).None? ==>
        && r == Success(AuthResponse(issued.accessToken, issued.refreshToken, ProfileOf(user)))
        && repo.tokens == old(repo.tokens) + [RefreshToken(user.id, issued.refreshToken, now + RefreshLifetime, None)]
        && repo.users == old(repo.users) && repo.nextId == old(repo.nextId)
    {
      var stored := repo.CreateRefreshToken(user.id, issued.refreshToken, now + RefreshLifetime);
      if stored.Failure? {
        return Failure(Persistence);
      }
      r := Success(AuthResponse(issued.accessToken, issued.refreshToken, ProfileOf(user)));
    }

    /** `register`: a taken email or phone number is a Conflict and creates
        nobody; otherwise one active customer is created with the hashed
        password, who the login check then admits, and tokens are issued. */
    method Register(data: RegisterData, now: int, issued: TokenPair) returns (r: Result<AuthResponse>)
      requires Valid()
      modifies repo
      ensures Valid()
      ensures FindUser(old(repo.users), ByEmail(data.email)).Some? || FindUser(old(repo.users), ByPhone(data.phoneNumber)).Some? ==>
        r == Failure(Conflict(UserExists)) && unchanged(repo)
      ensures FindUser(old(repo.users), ByEmail(data.email)).None? && FindUser(old(repo.users), ByPhone(data.phoneNumber)).None? ==>
        var u := User(old(repo.nextId), data.email, hash(data.password), data.firstName, data.lastName,
                      data.phoneNumber, CustomerRole, ActiveStatus);
        && repo.users == old(repo.users) + [u]
        && Admits(repo.users, data.email, data.password)
        && (TokenByValue(old(repo.tokens), issued.refreshToken).Some? ==>
              r == Failure(Persistence) && repo.tokens == old(repo.tokens))
        && (TokenByValue(old(repo.tokens), issued.refreshToken).None? ==>
              && r == Success(AuthResponse(issued.accessToken, issued.refreshToken, ProfileOf(u)))
              && repo.tokens == old(repo.tokens) + [RefreshToken(u.id, issued.refreshToken, now + RefreshLifetime, None)])
    {
      if FindUser(repo.users, ByEmail(data.email)).Some? || FindUser(repo.users, ByPhone(data.phoneNumber)).Some? {
        return Failure(Conflict(UserExists));
      }
      var created := repo.CreateUser(data.email, hash(data.password), data.firstName, data.lastName,
                                     data.phoneNumber, CustomerRole, ActiveStatus);
      var u := created.value;
      assert u in repo.users;
      FindUserUnique(repo.users, u, ById(u.id));
      FindUserUnique(repo.users, u, ByEmail(u.email));
      r := GenerateTokens(u, now, issued);
    }

    /** `login`: an unknown email and a wrong password give the same
        Unauthorized; an inactive account is refused only after the password
        matched; otherwise tokens are issued and then a login notice is sent,
        whose outcome does not change the answer. */
    method Login(email: string, password: string, now: int, issued: TokenPair) returns (r: Result<AuthResponse>)
      requires Valid()
      modifies repo, notifications, notifications.repo
      ensures Valid()
      ensures var u := FindUser(old(repo.users), ByEmail(email));
        u.None? || !verify(password, u.value.password) ==>
        r == Failure(Unauthorized(InvalidCredentials)) && unchanged(repo, notifications, notifications.repo)
      ensures var u := FindUser(old(repo.users), ByEmail(email));
        u.Some? && verify(password, u.value.password) && u.value.status != ActiveStatus ==>
        r == Failure(Unauthorized(AccountNotActive)) && unchanged(repo, notifications, notifications.repo)
      ensures Admits(old(repo.users), email, password) ==>
        var u := FindUser(old(repo.users), ByEmail(email)).value;
        && repo.users == old(repo.users)
        && (TokenByValue(old(repo.tokens), issued.refreshToken).Some? ==>
              r == Failure(Persistence) && unchanged(repo, notifications, notifications.repo))
        && (TokenByValue(old(repo.tokens), issued.refreshToken).None? ==>
              && r == Success(AuthResponse(issued.accessToken, issued.refreshToken, ProfileOf(u)))
              && repo.tokens == old(repo.tokens) + [RefreshToken(u.id, issued.refreshToken, now + RefreshLifetime, None)]
              && notifications.repo.rows == old(notifications.repo.rows)
                   + [NotificationsStore.Notification(old(notifications.repo.nextId), u.id, NotificationsStore.InApp,
                                                      LoginTitle, LoginMessage, false)]
              && notifications.repo.nextId == old(notifications.repo.nextId) + 1
              && notifications.outbox == old(notifications.outbox) + [LoginNotice(u.id)])
    {
      var found := FindUser(repo.users, ByEmail(email));
      if found.None? {
        return Failure(Unauthorized(InvalidCredentials));
      }
      var user := found.value;
      if !verify(password, user.password) {
        return Failure(Unauthorized(InvalidCredentials));
      }
      if user.status != ActiveStatus {
        return Failure(Unauthorized(AccountNotActive));
      }
      FindUserUnique(repo.users, user, ById(user.id));
      r := GenerateTokens(user, now, issued);
      if r.Failure? {
        return;
      }
      var _ := notifications.Notify(LoginNotice(user.id));
    }

    /** `refreshToken`: a missing, revoked or expired token is refused;
        otherwise a new pair is issued to the token's owner. */
    method Refresh(token: string, now: int, issued: TokenPair) returns (r: Result<AuthResponse>)
      requires Valid()
      modifies repo
      ensures Valid()
      ensures !RefreshAccepted(old(repo.tokens), token, now) ==>
        r == Failure(Unauthorized(InvalidRefreshToken)) && unchanged(repo)
      ensures RefreshAccepted(old(repo.tokens), token, now) ==>
        var owner := FindUser(old(repo.users), ById(TokenByValue(old(repo.tokens), token).value.userId));
        && owner.Some?
        && repo.users == old(repo.users)
        && (TokenByValue(old(repo.tokens), issued.refreshToken).Some? ==>
              r == Failure(Persistence) && unchanged(repo))
        && (TokenByValue(old(repo.tokens), issued.refreshToken).None? ==>
              && r == Success(AuthResponse(issued.accessToken, issued.refreshToken, ProfileOf(owner.value)))
              && repo.tokens == old(repo.tokens)
                   + [RefreshToken(owner.value.id, issued.refreshToken, now + RefreshLifetime, None)])
      ensures RefreshAccepted(old(repo.tokens), token, now) ==> RefreshAccepted(repo.tokens, token, now)
    {
      var record := repo.FindRefreshToken(token);
      if record.None? || record.value.0.revokedAt.Some? || now > record.value.0.expiresAt {
        return Failure(Unauthorized(InvalidRefreshToken));
      }
      var owner := record.value.1;
      FindUserUnique(repo.users, owner, ById(owner.id));
      TokenByValueGrows(repo.tokens, RefreshToken(owner.id, issued.refreshToken, now + RefreshLifetime, None), token);
      r := GenerateTokens(owner, now, issued);
    }

    /** `logout`: revokes every record of the refresh token (a silent no-op
        when there is none) and blacklists the access token; from then on
        the refresh token is refused at any time. */
    method Logout(refreshToken: string, accessToken: string, now: int)
      requires Valid()
      modifies this, repo
      ensures Valid()
      ensures repo.tokens == Revoke(old(repo.tokens), refreshToken, now)
      ensures repo.users == old(repo.users) && repo.nextId == old(repo.nextId)
      ensures blacklist == old(blacklist) + {accessToken}
      ensures forall later :: !RefreshAccepted(repo.tokens, refreshToken, later)
    {
      repo.RevokeRefreshToken(refreshToken, now);
      RevokedRefused(old(repo.tokens), refreshToken, now);
      blacklist := blacklist + {accessToken};
    }
  }
}
