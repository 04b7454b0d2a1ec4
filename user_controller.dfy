/** The user handlers: registration, login, profile lookup, avatar change, profile edit
    and the author listing. */
module UserController {
  import opened Common
  import opened Text
  import opened Credentials
  import opened Store
  import opened FileNames

  /** Largest avatar accepted, in bytes. */
  const MaxAvatar := 500000
  /** Fewest characters a password may have once trimmed. */
  const MinPassword := 6

  const FillInAll := "Fill in all fields"
  const EmailExists := "Email already exists"
  const PasswordTooShort := "Password should be more than 6 characters"
  const PasswordsDiffer := "Password doesn't match"
  const FillAllLogin := "Please fill all fields"
  const InvalidCredentials := "Invalid credentials"
  const UserNotFound := "User not found"
  const ChooseImage := "Please choose image"
  const AvatarTooBig := "Profile image size is big, should be less than 500kb"
  const FillAll := "Fill all fields"
  const WrongCurrentPassword := "Invalid current password"
  const NewPasswordsDiffer := "New password do not match"

  /** True when some user below `n` holds exactly `email`. */
  predicate EmailTaken(users: map<nat, User>, email: string, n: nat) {
    FindEmail(users, email, n).Some?
  }

  /** The checks `registerUser` makes, in their order: the three required fields (422),
      the lower-cased email already stored (422), the trimmed password shorter than six
      characters (424), the confirmation differing from the password (422). */
  function RegisterGuard(users: map<nat, User>, n: nat, name: Field, email: Field,
                         password: Field, password2: Field): (r: Option<Failure>)
    requires forall id :: id in users ==> id < n
    ensures r.None? <==>
      Given(name) && Given(email) && Given(password) &&
      (forall id :: id in users ==> users[id].email != Lower(email.value)) &&
      |Trim(password.value)| >= MinPassword && password2 == Some(password.value)
    ensures !(Given(name) && Given(email) && Given(password)) ==> r == Some(Rejected(FillInAll, Some(422)))
    ensures (Given(name) && Given(email) && Given(password) &&
             exists id :: id in users && users[id].email == Lower(email.value)) ==>
      r == Some(Rejected(EmailExists, Some(422)))
    ensures (Given(name) && Given(email) && Given(password) &&
             (forall id :: id in users ==> users[id].email != Lower(email.value)) &&
             |Trim(password.value)| < MinPassword) ==>
      r == Some(Rejected(PasswordTooShort, Some(424)))
    ensures (Given(name) && Given(email) && Given(password) &&
             (forall id :: id in users ==> users[id].email != Lower(email.value)) &&
             |Trim(password.value)| >= MinPassword && password2 != Some(password.value)) ==>
      r == Some(Rejected(PasswordsDiffer, Some(422)))
    ensures r.Some? ==> r.value.Rejected? && r.value.status.Some?
  {
    if !Given(name) || !Given(email) || !Given(password) then Some(Rejected(FillInAll, Some(422)))
    else if EmailTaken(users, Lower(email.value), n) then Some(Rejected(EmailExists, Some(422)))
    else if |Trim(password.value)| < MinPassword then Some(Rejected(PasswordTooShort, Some(424)))
    else if password2 != Some(password.value) then Some(Rejected(PasswordsDiffer, Some(422)))
    else None
  }

  /** `registerUser`: on any refusal nothing changes; otherwise one user is added under a
      fresh id, with the lower-cased email, the hash of the password, no avatar and a zero
      counter. */
  method RegisterUser(db: Blog, name: Field, email: Field, password: Field, password2: Field)
    returns (r: Result<string>)
    requires db.Valid()
    modifies db
    ensures db.Valid()
    ensures RegisterGuard(old(db.users), old(db.nextUserId), name, email, password, password2).Some? ==>
      r == Err(RegisterGuard(old(db.users), old(db.nextUserId), name, email, password, password2).value) &&
      unchanged(db)
    ensures RegisterGuard(old(db.users), old(db.nextUserId), name, email, password, password2).None? ==>
      var id := old(db.nextUserId);
      id !in old(db.users) &&
      db.users == old(db.users)[id := User(name.value, Lower(email.value), Hash(password.value), None, 0)] &&
      db.nextUserId == id + 1 &&
      r == Ok("Registration is done, welcome " + name.value + "!")
    ensures db.posts == old(db.posts) && db.uploads == old(db.uploads) && db.nextPostId == old(db.nextPostId)
    ensures old(CountersAgree(db.users, db.posts)) ==> CountersAgree(db.users, db.posts)
    ensures old(EmailsUnique(db.users)) ==> EmailsUnique(db.users)
  {
    var refusal := RegisterGuard(db.users, db.nextUserId, name, email, password, password2);
    if refusal.Some? {
      return Err(refusal.value);
    }
    var user := User(name.value, Lower(email.value), Hash(password.value), None, 0);
    var id := db.CreateUser(user);
    r := Ok("Registration is done, welcome " + name.value + "!");
  }

  /** What a successful login returns: the signed token and the user's id and name. */
  datatype Session = Session(token: Token, id: nat, name: string)

  /** `loginUser`: looks the lower-cased email up and compares the password with the
      stored hash. An unknown email and a wrong password give the same error. */
  function LoginUser(db: Blog, email: Field, password: Field): (r: Result<Session>)
    reads db
    requires db.Valid()
    ensures !(Given(email) && Given(password)) ==> r == Err(Rejected(FillAllLogin, Some(422)))
    ensures (Given(email) && Given(password) && r.Err?) ==> r == Err(Rejected(InvalidCredentials, Some(422)))
    ensures r.Ok? ==>
      var id := r.value.id;
      Given(email) && Given(password) &&
      id in db.users && db.users[id].email == Lower(email.value) &&
      Verify(password.value, db.users[id].password) &&
      r.value.name == db.users[id].name && r.value.token == Signed(id, db.users[id].name)
    ensures (Given(email) && Given(password) && EmailsUnique(db.users)) ==>
      (r.Ok? <==> exists id :: id in db.users && db.users[id].email == Lower(email.value) &&
                               Verify(password.value, db.users[id].password))
  {
    if !Given(email) || !Given(password) then Err(Rejected(FillAllLogin, Some(422)))
    else
      match FindEmail(db.users, Lower(email.value), db.nextUserId)
      case None => Err(Rejected(InvalidCredentials, Some(422)))
      case Some(id) =>
        if !Verify(password.value, db.users[id].password) then Err(Rejected(InvalidCredentials, Some(422)))
        else
          var user := db.users[id];
          Ok(Session(Signed(id, user.name), id, user.name))
  }

  /** A user whose stored email has an upper-case letter (which only `editUser` can store)
      can never log in, whatever email and password are typed: login looks up the
      lower-cased form only. */
  lemma MixedCaseEmailLocksOut(db: Blog, id: nat, email: Field, password: Field)
    requires db.Valid()
    requires id in db.users && Lower(db.users[id].email) != db.users[id].email
    ensures LoginUser(db, email, password).Ok? ==> LoginUser(db, email, password).value.id != id
  {
    if LoginUser(db, email, password).Ok? && LoginUser(db, email, password).value.id == id {
      LowerIdempotent(email.value);
    }
  }

  /** `getUser`: the profile of the user with the given id, without the password, or
      "User not found" with 404. */
  function GetUser(db: Blog, id: nat): (r: Result<Profile>)
    reads db
    ensures r.Ok? <==> id in db.users
    ensures r.Ok? ==> r.value == ProfileOf(id, db.users[id])
    ensures r.Err? ==> r.failure == Rejected(UserNotFound, Some(404))
  {
    if id in db.users then Ok(ProfileOf(id, db.users[id])) else Err(Rejected(UserNotFound, Some(404)))
  }

  /** The profiles of the users below `n`, in increasing id order. */
  function Profiles(users: map<nat, User>, n: nat): (r: seq<Profile>)
    ensures forall p :: p in r <==> p.id < n && p.id in users && p == ProfileOf(p.id, users[p.id])
    ensures forall i, j :: 0 <= i < j < |r| ==> r[i].id < r[j].id
  {
    if n == 0 then []
    else
      var r := Profiles(users, n - 1);
      if n - 1 in users then r + [ProfileOf(n - 1, users[n - 1])] else r
  }

  /** `getAuthors`: one password-free profile per user. */
  function GetAuthors(db: Blog): (r: seq<Profile>)
    reads db
    requires db.Valid()
    ensures forall p :: p in r <==> p.id in db.users && p == ProfileOf(p.id, db.users[p.id])
    ensures forall i, j :: 0 <= i < j < |r| ==> r[i].id < r[j].id
  {
    Profiles(db.users, db.nextUserId)
  }

  /** `changeAvatar`. Reading the avatar off an absent `req.files` throws; a missing avatar
      is refused (422); reading the avatar of a missing user throws. The old avatar is
      unlinked before the size check, without waiting for the outcome, so an oversized
      avatar (422) leaves the record naming a file that is gone. A failed move leaves the
      record as it was. Otherwise only the caller's `avatar` changes, to the generated name,
      and the updated record is returned. */
  method ChangeAvatar(db: Blog, caller: nat, files: Files, token: string, unlinkOk: bool, moveOk: bool)
    returns (r: Result<User>)
    requires db.Valid()
    modifies db
    ensures db.Valid()
    ensures db.posts == old(db.posts) && db.nextPostId == old(db.nextPostId) && db.nextUserId == old(db.nextUserId)
    ensures files.None? ==> r == Err(Internal) && unchanged(db)
    ensures (files.Some? && "avatar" !in files.value) ==> r == Err(Rejected(ChooseImage, Some(422))) && unchanged(db)
    ensures (files.Some? && "avatar" in files.value && caller !in old(db.users)) ==> r == Err(Internal) && unchanged(db)
    ensures (files.Some? && "avatar" in files.value && caller in old(db.users)) ==>
      var user := old(db.users)[caller];
      var kept := if user.avatar.Some? && unlinkOk then old(db.uploads) - {user.avatar.value} else old(db.uploads);
      var name := UploadName(files.value["avatar"].name, token);
      (files.value["avatar"].size > MaxAvatar ==>
        r == Err(Rejected(AvatarTooBig, Some(422))) && db.users == old(db.users) && db.uploads == kept) &&
      (files.value["avatar"].size <= MaxAvatar && !moveOk ==>
        r == Err(IoFailure) && db.users == old(db.users) && db.uploads == kept) &&
      (files.value["avatar"].size <= MaxAvatar && moveOk ==>
        r == Ok(user.(avatar := Some(name))) &&
        db.users == old(db.users)[caller := user.(avatar := Some(name))] && db.uploads == kept + {name})
    ensures old(CountersAgree(db.users, db.posts)) ==> CountersAgree(db.users, db.posts)
    ensures old(EmailsUnique(db.users)) ==> EmailsUnique(db.users)
  {
    if files.None? {
      return Err(Internal);
    }
    if "avatar" !in files.value {
      return Err(Rejected(ChooseImage, Some(422)));
    }
    if caller !in db.users {
      return Err(Internal);
    }
    var user := db.users[caller];
    if user.avatar.Some? && unlinkOk {
      db.uploads := db.uploads - {user.avatar.value};
    }
    var avatar := files.value["avatar"];
    if avatar.size > MaxAvatar {
      return Err(Rejected(AvatarTooBig, Some(422)));
    }
    var name := UploadName(avatar.name, token);
    if !moveOk {
      return Err(IoFailure);
    }
    db.uploads := db.uploads + {name};
    var updated := user.(avatar := Some(name));
    if CountersAgree(db.users, db.posts) {
      UpdateUserKeepsCounters(db.users, db.posts, caller, updated);
    }
    db.users := db.users[caller := updated];
    r := Ok(updated);
  }

  /** No user other than `caller` holds exactly `email`. */
  predicate EmailFreeFor(users: map<nat, User>, email: string, caller: nat) {
    forall id :: id in users && users[id].email == email ==> id == caller
  }

  /** The checks `editUser` makes, in their order: the four required fields (422), the
      caller's record (403), the email as typed held by another user (422), the current
      password against the stored hash (422), the new password against its confirmation
      (422). */
  function EditUserGuard(users: map<nat, User>, n: nat, caller: nat, name: Field, email: Field,
                         currentPassword: Field, newPassword: Field, confirmNewPassword: Field)
    : (r: Option<Failure>)
    requires forall id :: id in users ==> id < n
    ensures r.None? ==>
      Given(name) && Given(email) && Given(currentPassword) && Given(newPassword) &&
      caller in users && Verify(currentPassword.value, users[caller].password) &&
      confirmNewPassword == Some(newPassword.value)
    ensures r.None? && EmailsUnique(users) ==> EmailFreeFor(users, email.value, caller)
    ensures (Given(name) && Given(email) && Given(currentPassword) && Given(newPassword) &&
             caller in users && EmailsUnique(users)) ==>
      ((exists id :: id in users && id != caller && users[id].email == email.value) ==>
         r == Some(Rejected(EmailExists, Some(422))))
    ensures !(Given(name) && Given(email) && Given(currentPassword) && Given(newPassword)) ==>
      r == Some(Rejected(FillAll, Some(422)))
    ensures (Given(name) && Given(email) && Given(currentPassword) && Given(newPassword) && caller !in users) ==>
      r == Some(Rejected(UserNotFound, Some(403)))
    ensures (Given(name) && Given(email) && Given(currentPassword) && Given(newPassword) &&
             caller in users && EmailFreeFor(users, email.value, caller) &&
             Verify(currentPassword.value, users[caller].password) &&
             confirmNewPassword == Some(newPassword.value)) ==>
      r.None?
    ensures EmailsUnique(users) ==>
      (r.None? <==>
         Given(name) && Given(email) && Given(currentPassword) && Given(newPassword) &&
         caller in users && EmailFreeFor(users, email.value, caller) &&
         Verify(currentPassword.value, users[caller].password) &&
         confirmNewPassword == Some(newPassword.value))
    ensures (Given(name) && Given(email) && Given(currentPassword) && Given(newPassword) &&
             caller in users && EmailFreeFor(users, email.value, caller) &&
             !Verify(currentPassword.value, users[caller].password)) ==>
      r == Some(Rejected(WrongCurrentPassword, Some(422)))
    ensures (Given(name) && Given(email) && Given(currentPassword) && Given(newPassword) &&
             caller in users && EmailFreeFor(users, email.value, caller) &&
             Verify(currentPassword.value, users[caller].password) &&
             confirmNewPassword != Some(newPassword.value)) ==>
      r == Some(Rejected(NewPasswordsDiffer, Some(422)))
    ensures r.Some? ==> r.value.Rejected? && r.value.status == Some(if r.value.message == UserNotFound then 403 else 422)
  {
    if !Given(name) || !Given(email) || !Given(currentPassword) || !Given(newPassword) then
      Some(Rejected(FillAll, Some(422)))
    else if caller !in users then
      Some(Rejected(UserNotFound, Some(403)))
    else if FindEmail(users, email.value, n).Some? && FindEmail(users, email.value, n).value != caller then
      Some(Rejected(EmailExists, Some(422)))
    else if !Verify(currentPassword.value, users[caller].password) then
      Some(Rejected(WrongCurrentPassword, Some(422)))
    else if confirmNewPassword != Some(newPassword.value) then
      Some(Rejected(NewPasswordsDiffer, Some(422)))
    else
      None
  }

  /** `editUser`: on any refusal nothing changes; otherwise the caller's name, email (as
      typed, not lower-cased) and password hash are replaced, nothing else, and the updated
      record is returned. */
  method EditUser(db: Blog, caller: nat, name: Field, email: Field, currentPassword: Field,
                  newPassword: Field, confirmNewPassword: Field) returns (r: Result<User>)
    requires db.Valid()
    modifies db
    ensures db.Valid()
    ensures EditUserGuard(old(db.users), old(db.nextUserId), caller, name, email,
                          currentPassword, newPassword, confirmNewPassword).Some? ==>
      r == Err(EditUserGuard(old(db.users), old(db.nextUserId), caller, name, email,
                             currentPassword, newPassword, confirmNewPassword).value) &&
      unchanged(db)
    ensures EditUserGuard(old(db.users), old(db.nextUserId), caller, name, email,
                          currentPassword, newPassword, confirmNewPassword).None? ==>
      var updated := old(db.users)[caller].(name := name.value, email := email.value,
                                           password := Hash(newPassword.value));
      r == Ok(updated) && db.users == old(db.users)[caller := updated]
    ensures db.posts == old(db.posts) && db.uploads == old(db.uploads)
    ensures db.nextPostId == old(db.nextPostId) && db.nextUserId == old(db.nextUserId)
    ensures old(CountersAgree(db.users, db.posts)) ==> CountersAgree(db.users, db.posts)
    ensures old(EmailsUnique(db.users)) ==> EmailsUnique(db.users)
  {
    var refusal := EditUserGuard(db.users, db.nextUserId, caller, name, email,
                                 currentPassword, newPassword, confirmNewPassword);
    if refusal.Some? {
      return Err(refusal.value);
    }
    var updated := db.users[caller].(name := name.value, email := email.value,
                                     password := Hash(newPassword.value));
    if CountersAgree(db.users, db.posts) {
      UpdateUserKeepsCounters(db.users, db.posts, caller, updated);
    }
    if EmailsUnique(db.users) {
      UpdateUserKeepsEmailsUnique(db.users, caller, updated);
    }
    db.users := db.users[caller := updated];
    r := Ok(updated);
  }
}
