/**
 The `User` entity. `password` holds whatever the service stored: after
 registration it is the encoder's hash, never the raw password.
 */
module Users {
  import opened Results

  datatype User = User(
    id: Option<int>,
    username: string,
    email: string,
    password: string,
    name: Option<string>,
    photoPath: Option<string>,
    birthdate: Option<int>,
    createdAt: Option<int>,
    updatedAt: Option<int>)

  /** The fields of a parsed profile body that `updateUserWithPhoto` reads;
      None is a JSON null or a missing property. */
  datatype UserPatch = UserPatch(name: Option<string>, email: Option<string>, photoPath: Option<string>)

  /** `UserResponseDTO`: everything but the password. */
  datatype UserView = UserView(
    id: Option<int>,
    username: string,
    email: string,
    name: Option<string>,
    photoPath: Option<string>,
    birthdate: Option<int>,
    createdAt: Option<int>,
    updatedAt: Option<int>)

  /** `@PrePersist onCreate`: keep a creation time the body carried, else stamp now. */
  function OnCreate(u: User, now: int): (r: User)
    ensures r.createdAt == Some(u.createdAt.GetOr(now))
    ensures r.(createdAt := u.createdAt) == u
  {
    if u.createdAt.None? then u.(createdAt := Some(now)) else u
  }

  /** `@PreUpdate onUpdate`. */
  function OnUpdate(u: User, now: int): User {
    u.(updatedAt := Some(now))
  }

  /** `UserService.convertToDTO`. */
  function ToView(u: User): UserView {
    UserView(u.id, u.username, u.email, u.name, u.photoPath, u.birthdate, u.createdAt, u.updatedAt)
  }

  /** The view loses the password and nothing else. */
  lemma ViewForgetsOnlyPassword(a: User, b: User)
    ensures ToView(a) == ToView(b) <==> a.(password := b.password) == b
  {
  }
}
