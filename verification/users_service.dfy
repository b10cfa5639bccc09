/** The users service: reading a profile, updating the editable profile
    columns (first name, last name, phone number) and changing the password.
    It works on the same user table as authentication. */
module Users {
  import opened Common
  import opened AuthStore

  const UserNotFound: string := "User not found"
  const PhoneInUse: string := "Phone number is already in use"
  const WrongPassword: string := "Current password is incorrect"

  /** The body of a profile update; absent and empty values are not written. */
  datatype ProfileChanges = ProfileChanges(
    firstName: Option<string>, lastName: Option<string>, phoneNumber: Option<string>)

  /** A supplied, non-empty value. */
  predicate Given(v: Option<string>)
  {
    v.Some? && v.value != ""
  }

  /** The update `updateProfile` writes: only the non-empty values. */
  function ProfileUpdate(c: ProfileChanges): (upd: UserUpdate)
    ensures upd.password.None?
    ensures upd.firstName == (if Given(c.firstName) then c.firstName else None)
    ensures upd.lastName == (if Given(c.lastName) then c.lastName else None)
    ensures upd.phoneNumber == (if Given(c.phoneNumber) then c.phoneNumber else None)
  {
    UserUpdate(if Given(c.firstName) then c.firstName else None,
               if Given(c.lastName) then c.lastName else None,
               if Given(c.phoneNumber) then c.phoneNumber else None,
               None)
  }

  class UsersService {
    const repo: AuthRepository
    const hash: string -> string
    const verify: (string, string) -> bool

    ghost predicate Valid()
      reads this, repo
    {
      repo.Valid()
    }

    constructor (repo: AuthRepository, hash: string -> string, verify: (string, string) -> bool)
      requires repo.Valid()
      ensures this.repo == repo && this.hash == hash && this.verify == verify && Valid()
    {
      this.repo := repo;
      this.hash := hash;
      this.verify := verify;
    }

    /** `getProfile`: the user's profile (never the password), or NotFound. */
    function GetProfile(userId: Id): (r: Result<Profile>)
      reads this, repo
      requires Valid()
      ensures r.Failure? <==> forall u :: u in repo.users ==> u.id != userId
      ensures r.Failure? ==> r.error == NotFound(UserNotFound)
      ensures r.Success? ==> exists u :: u in repo.users && u.id == userId && r.value == ProfileOf(u)
    {
      match repo.Find(ById(userId))
      case None => Failure(NotFound(UserNotFound))
      case Some(u) => Success(ProfileOf(u))
    }

    /** `updateProfile`: NotFound for an unknown user; a new phone number
        that another user holds is a Conflict; otherwise only the non-empty
        first name, last name and phone number are written, and the email,
        role, status and password stay as they were. */
    method UpdateProfile(userId: Id, c: ProfileChanges) returns (r: Result<Profile>)
      requires Valid()
      modifies repo
      ensures Valid()
      ensures repo.tokens == old(repo.tokens)
      ensures FindUser(old(repo.users), ById(userId)).None? ==>
        r == Failure(NotFound(UserNotFound)) && unchanged(repo)
      ensures FindUser(old(repo.users), ById(userId)).Some? ==>
        var u := FindUser(old(repo.users), ById(userId)).value;
        && (Given(c.phoneNumber) && c.phoneNumber.value != u.phoneNumber
              && FindUser(old(repo.users), ByPhone(c.phoneNumber.value)).Some? ==>
              r == Failure(Conflict(PhoneInUse)) && unchanged(repo))
        && (!(Given(c.phoneNumber) && c.phoneNumber.value != u.phoneNumber
              && FindUser(old(repo.users), ByPhone(c.phoneNumber.value)).Some?) ==>
              && repo.users == UpdateUserRow(old(repo.users), userId, ProfileUpdate(c))
              && r == Success(ProfileOf(ApplyUser(u, ProfileUpdate(c))))
              && r.value.id == userId && r.value.email == u.email && r.value.role == u.role && r.value.status == u.status
              && r.value.firstName == (if Given(c.firstName) then c.firstName.value else u.firstName)
              && r.value.lastName == (if Given(c.lastName) then c.lastName.value else u.lastName)
              && r.value.phoneNumber == (if Given(c.phoneNumber) then c.phoneNumber.value else u.phoneNumber))
    {
      var found := FindUser(repo.users, ById(userId));
      if found.None? {
        return Failure(NotFound(UserNotFound));
      }
      var user := found.value;
      if Given(c.phoneNumber) && c.phoneNumber.value != user.phoneNumber {
        if FindUser(repo.users, ByPhone(c.phoneNumber.value)).Some? {
          return Failure(Conflict(PhoneInUse));
        }
      }
      var upd := ProfileUpdate(c);
      if upd.phoneNumber.Some? && upd.phoneNumber.value == user.phoneNumber {
        FindUserUnique(repo.users, user, ByPhone(user.phoneNumber));
      }
      var updated := repo.UpdateUserById(userId, upd);
      r := Success(ProfileOf(updated.value));
    }

    /** `changePassword`: NotFound for an unknown user; a wrong current
        password is Unauthorized and changes nothing; otherwise only the
        stored password changes, to the hash of the new one. */
    method ChangePassword(userId: Id, currentPassword: string, newPassword: string) returns (r: Result<()>)
      requires Valid()
      modifies repo
      ensures Valid()
      ensures repo.tokens == old(repo.tokens)
      ensures FindUser(old(repo.users), ById(userId)).None? ==>
        r == Failure(NotFound(UserNotFound)) && unchanged(repo)
      ensures FindUser(old(repo.users), ById(userId)).Some? ==>
        var u := FindUser(old(repo.users), ById(userId)).value;
        && (!verify(currentPassword, u.password) ==> r == Failure(Unauthorized(WrongPassword)) && unchanged(repo))
        && (verify(currentPassword, u.password) ==>
              && r == Success(())
              && repo.users == UpdateUserRow(old(repo.users), userId, UserUpdate(None, None, None, Some(hash(newPassword))))
              && FindUser(repo.users, ById(userId)) == Some(u.(password := hash(newPassword))))
    {
      var found := FindUser(repo.users, ById(userId));
      if found.None? {
        return Failure(NotFound(UserNotFound));
      }
      var user := found.value;
      if !verify(currentPassword, user.password) {
        return Failure(Unauthorized(WrongPassword));
      }
      var upd := UserUpdate(None, None, None, Some(hash(newPassword)));
      var _ := repo.UpdateUserById(userId, upd);
      UpdatedRowFound(old(repo.users), userId, upd);
      r := Success(());
    }
  }

  /** After an update, looking the user up by id finds the updated row. */
  lemma {:induction false} UpdatedRowFound(users: seq<User>, id: Id, upd: UserUpdate)
    requires FindUser(users, ById(id)).Some?
    ensures FindUser(UpdateUserRow(users, id, upd), ById(id)) == Some(ApplyUser(FindUser(users, ById(id)).value, upd))
  {
    if users[0].id != id {
      assert UpdateUserRow(users, id, upd)[1..] == UpdateUserRow(users[1..], id, upd);
      UpdatedRowFound(users[1..], id, upd);
    }
  }
}
