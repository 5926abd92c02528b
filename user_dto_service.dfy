/** The DTO-returning `UserService`: account creation from a
    `UserCreateRequest` with the e-mail and username checks and a hashed
    password, and the e-mail lookup, both answering with `UserDto`s. */
module UserDtoService {
  import opened Common
  import opened UserModel
  import opened Table
  import opened Store
  import opened UserMapper

  /** `UserCreateRequest`. The password is hashed by the injected
      `PasswordEncoder`, which the model takes as a function. */
  datatype UserCreateRequest = UserCreateRequest(username: Option<string>, email: Option<string>, password: string)

  /** The service's own `RuntimeException`, or the database's refusal. */
  datatype DtoError = Runtime(message: string) | Database(error: StoreError)

  /** A call's result and the table afterwards. */
  datatype DtoOutcome = DtoOutcome(result: Result<UserDto, DtoError>, rows: Rows)

  const EmailTaken: string := "Email already exists"
  const UsernameTaken: string := "Username already exists"

  /** The user `createUser` saves: username and email from the request, the
      encoded password, status `ACTIVE`; no id, no timestamps, no profile. */
  function NewUser(req: UserCreateRequest, hash: string): User {
    Build(NewBuilder.(username := req.username, email := req.email, passwordHash := Some(hash), status := Some(Active)))
  }

  /** `createUser`, with `hash` the encoder's output for the password: the
      email is checked first, then the username, then the user is saved and
      mapped to its DTO. */
  function Created(rows: Rows, req: UserCreateRequest, hash: string, freshId: Uuid): DtoOutcome
    requires freshId !in rows
  {
    if ExistsByEmail(rows, req.email) then DtoOutcome(Failure(Runtime(EmailTaken)), rows)
    else if ExistsByUsername(rows, req.username) then DtoOutcome(Failure(Runtime(UsernameTaken)), rows)
    else
      var w := Inserted(rows, NewUser(req, hash), freshId);
      match w.result
      case Success(row) => DtoOutcome(Success(UserToUserDto(row)), w.rows)
      case Failure(e) => DtoOutcome(Failure(Database(e)), w.rows)
  }

  /** `createUser` succeeds exactly when neither the email nor the username
      is taken; a taken email is reported before a taken username; a
      failure changes nothing. On success it adds one `ACTIVE` row holding
      the request's username, email and hashed password under the generated
      id, and answers with that row's DTO, which has no timestamps. */
  lemma CreatedOutcome(rows: Rows, req: UserCreateRequest, hash: string, freshId: Uuid)
    requires WellFormed(rows) && freshId !in rows
    ensures var o := Created(rows, req, hash, freshId);
      && WellFormed(o.rows)
      && (o.result.Success? <==> !ExistsByEmail(rows, req.email) && !ExistsByUsername(rows, req.username))
      && (ExistsByEmail(rows, req.email) ==> o == DtoOutcome(Failure(Runtime(EmailTaken)), rows))
      && (!ExistsByEmail(rows, req.email) && ExistsByUsername(rows, req.username) ==>
            o == DtoOutcome(Failure(Runtime(UsernameTaken)), rows))
      && (o.result.Success? ==>
            && o.rows == rows[freshId := NewUser(req, hash).(id := Some(freshId))]
            && o.rows[freshId].status == Active && o.rows[freshId].passwordHash == Some(hash)
            && o.result.value == UserDto(Some(freshId), req.username, req.email, Some(Active), None, None))
  {
    InsertedKeepsWellFormed(rows, NewUser(req, hash), freshId);
  }

  /** A second request with the email of an account just created is refused
      with "Email already exists"; one with the same username is refused
      too, with "Username already exists" unless its email is also taken.
      Either way the table stays as it was. */
  lemma CreateTwiceFails(rows: Rows, req: UserCreateRequest, again: UserCreateRequest,
                         hash1: string, hash2: string, freshId1: Uuid, freshId2: Uuid)
    requires freshId1 !in rows
    requires Created(rows, req, hash1, freshId1).result.Success?
    requires freshId2 !in Created(rows, req, hash1, freshId1).rows
    requires again.email == req.email || again.username == req.username
    ensures var o1 := Created(rows, req, hash1, freshId1);
      var o2 := Created(o1.rows, again, hash2, freshId2);
      && o2.rows == o1.rows
      && (again.email == req.email ==> o2.result == Failure(Runtime(EmailTaken)))
      && (again.username == req.username ==>
            o2.result == Failure(Runtime(if ExistsByEmail(o1.rows, again.email) then EmailTaken else UsernameTaken)))
  {
    var o1 := Created(rows, req, hash1, freshId1);
    assert freshId1 in o1.rows && o1.rows[freshId1] == NewUser(req, hash1).(id := Some(freshId1));
    if again.username == req.username {
      assert o1.rows[freshId1].username == again.username;
    }
  }

  /** `findByEmail`: the single row's DTO. Empty when no row has the
      email, the DTO of that row when exactly one has it, an error when
      several do. */
  function FindByEmailDto(rows: Rows, email: Option<string>): (r: Lookup<UserDto>)
    ensures r.NotFound? <==> forall id :: id in rows ==> rows[id].email != email
    ensures r.Found? <==> |EmailMatches(rows, email)| == 1
    ensures r.Found? ==> exists id :: EmailMatches(rows, email) == {id} && r.value == UserToUserDto(rows[id])
  {
    match FindByEmail(rows, email)
    case NotFound => NotFound
    case Found(u) => Found(UserToUserDto(u))
    case NotUnique => NotUnique
  }

  /** After a successful `createUser` the account is found by its email,
      and the lookup answers with the DTO the creation returned. */
  lemma CreatedThenFound(rows: Rows, req: UserCreateRequest, hash: string, freshId: Uuid)
    requires freshId !in rows
    requires Created(rows, req, hash, freshId).result.Success?
    ensures var o := Created(rows, req, hash, freshId);
      FindByEmailDto(o.rows, req.email) == Found(o.result.value)
  {
    var o := Created(rows, req, hash, freshId);
    var ids := EmailMatches(o.rows, req.email);
    forall id ensures id in ids <==> id == freshId {
    }
    assert ids == {freshId};
  }

  class UserService {
    /** The `users` table behind the repository. */
    const repository: UsersTable
    /** The injected `PasswordEncoder.encode`. */
    const encode: string -> string

    ghost predicate Valid()
      reads this, repository
    {
      repository.Valid()
    }

    constructor(repository: UsersTable, encode: string -> string)
      requires repository.Valid()
      ensures this.repository == repository && this.encode == encode && Valid()
    {
      this.repository := repository;
      this.encode := encode;
    }

    /** `createUser`. */
    method CreateUser(req: UserCreateRequest, freshId: Uuid) returns (r: Result<UserDto, DtoError>)
      requires Valid() && freshId !in repository.rows
      modifies repository
      ensures Valid()
      ensures DtoOutcome(r, repository.rows) == Created(old(repository.rows), req, encode(req.password), freshId)
    {
      var emailTaken := ExistsByEmail(repository.rows, req.email);
      if emailTaken {
        return Failure(Runtime(EmailTaken));
      }
      var usernameTaken := ExistsByUsername(repository.rows, req.username);
      if usernameTaken {
        return Failure(Runtime(UsernameTaken));
      }
      var saved := repository.Save(NewUser(req, encode(req.password)), freshId);
      match saved
      case Success(row) => r := Success(UserToUserDto(row));
      case Failure(e) => r := Failure(Database(e));
    }

    /** `findByEmail`: the DTO of the one row with this email; no row gives
        nothing and several rows an error. */
    method FindByEmail(email: Option<string>) returns (r: Lookup<UserDto>)
      ensures r.NotFound? <==> forall id :: id in repository.rows ==> repository.rows[id].email != email
      ensures r.Found? <==> |EmailMatches(repository.rows, email)| == 1
      ensures r.Found? ==> exists u :: u in repository.rows.Values && u.email == email && r.value == UserToUserDto(u)
      ensures r == FindByEmailDto(repository.rows, email)
    {
      r := FindByEmailDto(repository.rows, email);
    }
  }
}
