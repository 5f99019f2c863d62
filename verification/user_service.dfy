/**
 `UserService`: registration, profile updates, login, photo checks, deletion
 and password changes over the user table. The password encoder is a
 parameter: `encode` hashes and `matches(raw, hash)` checks a raw password
 against a hash. The username and email columns are unique.
 */
module UserService {
  import opened Results
  import opened Users
  import opened Text
  import opened Persistence

  const DefaultPhotoPath := "http://localhost:8082/images/user-photos/default-user.webp"

  /** 500 KB. */
  const MaxPhotoBytes := 500 * 1024

  predicate EmailTaken(users: map<int, User>, email: string) {
    exists id :: id in users && users[id].email == email
  }

  predicate UsernameTaken(users: map<int, User>, username: string) {
    exists id :: id in users && users[id].username == username
  }

  /** The unique constraints of the `user` table. */
  predicate UniqueEmails(users: map<int, User>) {
    forall i, j :: i in users && j in users && users[i].email == users[j].email ==> i == j
  }

  predicate UniqueUsernames(users: map<int, User>) {
    forall i, j :: i in users && j in users && users[i].username == users[j].username ==> i == j
  }

  // ---------------------------------------------------------------------------
  // Registration

  /** The photo path a new user gets: the one given, unless it is null or empty. */
  function PhotoOrDefault(photoPath: Option<string>): (r: Option<string>)
    ensures r.Some? && r.value != ""
    ensures photoPath.None? || photoPath.value == "" ==> r == Some(DefaultPhotoPath)
    ensures photoPath.Some? && photoPath.value != "" ==> r == photoPath
  {
    if photoPath.None? || photoPath.value == "" then Some(DefaultPhotoPath) else photoPath
  }

  /** `createUser`: the email is checked before the username; the stored user
      carries the encoder's hash of the password. */
  function CreateUser(users: map<int, User>, user: User, newId: int, now: int, encode: string -> string): (r: Result<Saved<User>>)
    requires newId !in users
    ensures EmailTaken(users, user.email) ==> r == Err(EmailInUse)
    ensures !EmailTaken(users, user.email) && UsernameTaken(users, user.username) ==> r == Err(UsernameInUse)
    ensures r.Ok? <==> !EmailTaken(users, user.email) && !UsernameTaken(users, user.username)
    ensures r.Ok? ==> var saved := r.value.entity;
      && r.value.store == users[newId := saved]
      && saved.id == Some(newId)
      && saved.password == encode(user.password)
      && saved.photoPath == PhotoOrDefault(user.photoPath)
      && saved.createdAt == Some(user.createdAt.GetOr(now))
      && saved.(id := user.id, password := user.password, photoPath := user.photoPath,
                createdAt := user.createdAt) == user
  {
    if EmailTaken(users, user.email) then Err(EmailInUse)
    else if UsernameTaken(users, user.username) then Err(UsernameInUse)
    else
      var prepared := user.(id := Some(newId), photoPath := PhotoOrDefault(user.photoPath),
                            password := encode(user.password));
      var saved := OnCreate(prepared, now);
      Ok(Saved(users[newId := saved], saved))
  }

  lemma CreateKeepsUnique(users: map<int, User>, user: User, newId: int, now: int, encode: string -> string)
    requires UniqueEmails(users) && UniqueUsernames(users) && newId !in users
    requires CreateUser(users, user, newId, now, encode).Ok?
    ensures UniqueEmails(CreateUser(users, user, newId, now, encode).value.store)
    ensures UniqueUsernames(CreateUser(users, user, newId, now, encode).value.store)
  {
  }

  // ---------------------------------------------------------------------------
  // Profile updates

  /** User `id` would take a username another user already has. */
  predicate UsernameClash(users: map<int, User>, id: int, username: string)
    requires id in users
  {
    users[id].username != username && UsernameTaken(users, username)
  }

  /** User `id` would take an email another user already has. */
  predicate EmailClash(users: map<int, User>, id: int, email: string)
    requires id in users
  {
    users[id].email != email && EmailTaken(users, email)
  }

  /** `updateUser`: a changed username, then a changed email, must be free;
      then five fields are overwritten. */
  function UpdateUser(users: map<int, User>, id: int, details: User, now: int): (r: Result<Saved<User>>)
    ensures id !in users ==> r == Err(UserNotFound(id))
    ensures id in users && UsernameClash(users, id, details.username) ==> r == Err(UsernameInUse)
    ensures id in users && !UsernameClash(users, id, details.username) ==>
      (EmailClash(users, id, details.email) <==> r == Err(EmailInUse))
    ensures r.Ok? <==> id in users && !UsernameClash(users, id, details.username) && !EmailClash(users, id, details.email)
    ensures r.Ok? ==> var before, saved := users[id], r.value.entity;
      && r.value.store == users[id := saved]
      && saved.username == details.username
      && saved.email == details.email
      && saved.name == details.name
      && saved.photoPath == details.photoPath
      && saved.birthdate == details.birthdate
      && saved.id == before.id
      && saved.password == before.password
      && saved.createdAt == before.createdAt
  {
    if id !in users then Err(UserNotFound(id))
    else
      var before := users[id];
      if UsernameClash(users, id, details.username) then Err(UsernameInUse)
      else if EmailClash(users, id, details.email) then Err(EmailInUse)
      else
        var after := before.(username := details.username, email := details.email, name := details.name,
                             photoPath := details.photoPath, birthdate := details.birthdate);
        var saved := Flush(before, after, OnUpdate(after, now));
        Ok(Saved(users[id := saved], saved))
  }

  lemma UpdateKeepsUnique(users: map<int, User>, id: int, details: User, now: int)
    requires UniqueEmails(users) && UniqueUsernames(users)
    requires UpdateUser(users, id, details, now).Ok?
    ensures UniqueEmails(UpdateUser(users, id, details, now).value.store)
    ensures UniqueUsernames(UpdateUser(users, id, details, now).value.store)
  {
  }

  /** Sending the same profile update twice changes nothing the second time. */
  lemma UpdateUserIdempotent(users: map<int, User>, id: int, details: User, now: int, later: int)
    requires UpdateUser(users, id, details, now).Ok?
    ensures var once := UpdateUser(users, id, details, now).value;
      UpdateUser(once.store, id, details, later) == Ok(once)
  {
    var once := UpdateUser(users, id, details, now).value;
    var saved := once.entity;
    assert once.store[id] == saved;
    assert once.store[id := saved] == once.store;
  }

  /** `updateUserWithPhoto`: a partial update; an absent field keeps its value,
      and a changed email must be free. */
  function UpdateUserWithPhoto(users: map<int, User>, id: int, patch: UserPatch, now: int): (r: Result<Saved<User>>)
    ensures id !in users ==> r == Err(UserNotFound(id))
    ensures r.Err? && id in users ==> r.error == EmailInUse
    ensures id in users ==> (r.Err? <==> patch.email.Some? && EmailClash(users, id, patch.email.value))
    ensures r.Ok? ==> var before, saved := users[id], r.value.entity;
      && r.value.store == users[id := saved]
      && saved.name == (if patch.name.Some? then patch.name else before.name)
      && saved.email == patch.email.GetOr(before.email)
      && saved.photoPath == (if patch.photoPath.Some? then patch.photoPath else before.photoPath)
      && saved.username == before.username
      && saved.password == before.password
      && saved.birthdate == before.birthdate
      && saved.id == before.id
  {
    if id !in users then Err(UserNotFound(id))
    else
      var before := users[id];
      var named := if patch.name.Some? then before.(name := patch.name) else before;
      if patch.email.Some? && EmailClash(users, id, patch.email.value) then
        Err(EmailInUse)
      else
        var mailed := if patch.email.Some? then named.(email := patch.email.value) else named;
        var after := if patch.photoPath.Some? then mailed.(photoPath := patch.photoPath) else mailed;
        var saved := Flush(before, after, OnUpdate(after, now));
        Ok(Saved(users[id := saved], saved))
  }

  lemma UpdateWithPhotoKeepsUnique(users: map<int, User>, id: int, patch: UserPatch, now: int)
    requires UniqueEmails(users) && UniqueUsernames(users)
    requires UpdateUserWithPhoto(users, id, patch, now).Ok?
    ensures UniqueEmails(UpdateUserWithPhoto(users, id, patch, now).value.store)
    ensures UniqueUsernames(UpdateUserWithPhoto(users, id, patch, now).value.store)
  {
  }

  /** An empty patch changes nothing, not even the update time. */
  lemma EmptyPatchChangesNothing(users: map<int, User>, id: int, now: int)
    requires id in users
    ensures UpdateUserWithPhoto(users, id, UserPatch(None, None, None), now) == Ok(Saved(users, users[id]))
  {
    assert users[id := users[id]] == users;
  }

  // ---------------------------------------------------------------------------
  // Login

  /** `validateUserLogin`: it answers true or fails; it never answers false. */
  function ValidateUserLogin(users: map<int, User>, email: string, rawPassword: string,
                             matches: (string, string) -> bool): (r: Result<bool>)
    requires UniqueEmails(users)
    ensures !EmailTaken(users, email) ==> r == Err(UserEmailNotFound(email))
    ensures r.Ok? ==> r.value
    ensures r.Ok? <==> exists id :: id in users && users[id].email == email && matches(rawPassword, users[id].password)
    ensures r.Err? && EmailTaken(users, email) ==> r.error == InvalidCredentials
  {
    if !EmailTaken(users, email) then Err(UserEmailNotFound(email))
    else
      var id :| id in users && users[id].email == email;
      if !matches(rawPassword, users[id].password) then Err(InvalidCredentials) else Ok(true)
  }

  /** A user registered with a password logs in with it whenever the encoder's
      `matches` accepts the password against its own hash. */
  lemma LoginAfterCreate(users: map<int, User>, user: User, newId: int, now: int,
                         encode: string -> string, matches: (string, string) -> bool)
    requires UniqueEmails(users) && UniqueUsernames(users) && newId !in users
    requires CreateUser(users, user, newId, now, encode).Ok?
    requires matches(user.password, encode(user.password))
    ensures var store := CreateUser(users, user, newId, now, encode).value.store;
      UniqueEmails(store) && ValidateUserLogin(store, user.email, user.password, matches) == Ok(true)
  {
    CreateKeepsUnique(users, user, newId, now, encode);
    var store := CreateUser(users, user, newId, now, encode).value.store;
    assert store[newId].email == user.email;
  }

  // ---------------------------------------------------------------------------
  // Photo

  /** The four strings the pattern `image/(jpeg|png|jpg|webp)` matches whole. */
  predicate IsAcceptedImageType(mimeType: string) {
    StartsWith(mimeType, "image/") && mimeType[6..] in {"jpeg", "png", "jpg", "webp"}
  }

  /** `validatePhoto`: the size limit first, then the detected type. `detected`
      is the type Tika reports, or None when reading the upload failed. */
  function ValidatePhoto(size: int, detected: Option<string>): (r: Result<()>)
    ensures size > MaxPhotoBytes ==> r == Err(PhotoTooLarge)
    ensures size <= MaxPhotoBytes && detected.None? ==> r == Err(PhotoUnreadable)
    ensures r.Ok? <==> size <= MaxPhotoBytes && detected.Some?
                       && detected.value in {"image/jpeg", "image/png", "image/jpg", "image/webp"}
    ensures r.Err? && size <= MaxPhotoBytes && detected.Some? ==> r.error == PhotoTypeRejected
  {
    AcceptedImageTypes(detected.GetOr(""));
    if size > MaxPhotoBytes then Err(PhotoTooLarge)
    else if detected.None? then Err(PhotoUnreadable)
    else if !IsAcceptedImageType(detected.value) then Err(PhotoTypeRejected)
    else Ok(())
  }

  lemma AcceptedImageTypes(mimeType: string)
    ensures IsAcceptedImageType(mimeType) <==> mimeType in {"image/jpeg", "image/png", "image/jpg", "image/webp"}
  {
    if mimeType in {"image/jpeg", "image/png", "image/jpg", "image/webp"} {
      assert mimeType[..6] == "image/";
    }
    if IsAcceptedImageType(mimeType) {
      var subtype := mimeType[6..];
      assert mimeType == "image/" + subtype by {
        assert mimeType == mimeType[..6] + subtype;
      }
      if subtype == "jpeg" {
        assert mimeType == "image/jpeg";
      } else if subtype == "png" {
        assert mimeType == "image/png";
      } else if subtype == "jpg" {
        assert mimeType == "image/jpg";
      } else {
        assert mimeType == "image/webp";
      }
    }
  }

  // ---------------------------------------------------------------------------
  // Deletion, password, listing

  /** `deleteUser`. */
  function DeleteUser(users: map<int, User>, id: int): (r: Result<map<int, User>>)
    ensures r.Err? <==> id !in users
    ensures r.Err? ==> r.error == UserNotFound(id)
    ensures r.Ok? ==> r.value.Keys == users.Keys - {id}
    ensures r.Ok? ==> forall k :: k in r.value ==> r.value[k] == users[k]
  {
    if id !in users then Err(UserNotFound(id)) else Ok(users - {id})
  }

  /** Deleting a user frees the email and username for a new registration. */
  lemma DeleteFreesIdentity(users: map<int, User>, id: int)
    requires UniqueEmails(users) && UniqueUsernames(users) && id in users
    ensures !EmailTaken(DeleteUser(users, id).value, users[id].email)
    ensures !UsernameTaken(DeleteUser(users, id).value, users[id].username)
  {
  }

  /** `updatePassword`: store the hash of the new password; nothing else changes
      but the update time. */
  function UpdatePassword(users: map<int, User>, id: int, newPassword: string, now: int,
                          encode: string -> string): (r: Result<map<int, User>>)
    ensures r.Err? <==> id !in users
    ensures r.Err? ==> r.error == UserNotFound(id)
    ensures r.Ok? ==> r.value.Keys == users.Keys
    ensures r.Ok? ==> r.value[id].password == encode(newPassword)
    ensures r.Ok? ==> r.value[id].(password := users[id].password, updatedAt := users[id].updatedAt) == users[id]
    ensures r.Ok? ==> forall k :: k in users && k != id ==> r.value[k] == users[k]
  {
    if id !in users then Err(UserNotFound(id))
    else
      var before := users[id];
      var after := before.(password := encode(newPassword));
      Ok(users[id := Flush(before, after, OnUpdate(after, now))])
  }

  /** After a password change the new password logs in and, for an encoder
      that tells hashes apart, the old one no longer does. */
  lemma LoginAfterPasswordChange(users: map<int, User>, id: int, newPassword: string, now: int,
                                 encode: string -> string, matches: (string, string) -> bool, guess: string)
    requires UniqueEmails(users) && id in users
    requires forall raw :: matches(raw, encode(newPassword)) <==> raw == newPassword
    ensures var store := UpdatePassword(users, id, newPassword, now, encode).value;
      && UniqueEmails(store)
      && (ValidateUserLogin(store, users[id].email, guess, matches).Ok? <==> guess == newPassword)
  {
  }

  /** `getAllUserDTOs`: the views of all users, or NotFound for an empty table. */
  function GetAllUserDTOs(users: map<int, User>): (r: Result<map<int, UserView>>)
    ensures r.Err? <==> |users| == 0
    ensures r.Err? ==> r.error == NoUsers
    ensures r.Ok? ==> r.value.Keys == users.Keys
    ensures r.Ok? ==> forall k :: k in users ==> r.value[k] == ToView(users[k])
  {
    if |users| == 0 then Err(NoUsers) else Ok(map k | k in users :: ToView(users[k]))
  }
}
