/** The MapStruct mapper between the `User` entity and the `UserDto` the
    DTO-returning service hands out. */
module UserMapper {
  import opened Common
  import opened UserModel

  /** `UserDto`: the public view of a user, without its password hash or
      profile fields. */
  datatype UserDto = UserDto(
    id: Option<Uuid>,
    username: Option<string>,
    email: Option<string>,
    status: Option<Status>,
    createdAt: Option<Instant>,
    updatedAt: Option<Instant>)

  /** `userToUserDto`: copies the six fields the DTO has; the password hash
      is ignored. */
  function UserToUserDto(u: User): (d: UserDto)
    ensures d.id == u.id && d.username == u.username && d.email == u.email
    ensures d.status == Some(u.status) && d.createdAt == u.createdAt && d.updatedAt == u.updatedAt
  {
    UserDto(u.id, u.username, u.email, Some(u.status), u.createdAt, u.updatedAt)
  }

  /** `userDtoToUser`: username and email from the DTO, status the constant
      `ACTIVE`, and id, timestamps and password hash ignored. The entity's
      fields the DTO does not have stay null. */
  function UserDtoToUser(d: UserDto): (u: User)
    ensures u.status == Active
  {
    Build(NewBuilder.(username := d.username, email := d.email, status := Some(Active)))
  }

  /** The DTO depends on the six copied fields only: users that differ just
      in password hash or profile fields map to the same DTO. */
  lemma UserToUserDtoCopies(u: User, v: User)
    requires u.id == v.id && u.username == v.username && u.email == v.email
    requires u.status == v.status && u.createdAt == v.createdAt && u.updatedAt == v.updatedAt
    ensures UserToUserDto(u) == UserToUserDto(v)
  {
  }

  /** `userDtoToUser` ignores the DTO's id, status and timestamps: the
      resulting user is always `ACTIVE` with no id, no timestamps and no
      password hash. */
  lemma UserDtoToUserIgnores(d: UserDto, e: UserDto)
    requires d.username == e.username && d.email == e.email
    ensures UserDtoToUser(d) == UserDtoToUser(e)
    ensures var u := UserDtoToUser(d);
      u.status == Active && u.id.None? && u.createdAt.None? && u.updatedAt.None? && u.passwordHash.None?
  {
  }

  /** Entity to DTO and back keeps username and email, and nothing else. */
  lemma EntityRoundTrip(u: User)
    ensures var w := UserDtoToUser(UserToUserDto(u));
      w.username == u.username && w.email == u.email && w.status == Active &&
      w.id.None? && w.passwordHash.None? && w.createdAt.None? && w.updatedAt.None?
  {
  }

  /** DTO to entity and back gives the DTO with its id and timestamps
      cleared and its status replaced by `ACTIVE`. */
  lemma DtoRoundTrip(d: UserDto)
    ensures UserToUserDto(UserDtoToUser(d)) ==
      d.(id := None, status := Some(Active), createdAt := None, updatedAt := None)
  {
  }
}
