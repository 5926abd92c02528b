/** The entity-returning `UserService`: account creation with the e-mail
    check, creation from a `CreateUserRequest`, the social upsert, lookups,
    the profile and status updates, the search and the availability checks,
    each over one `UsersTable`. `now` stands for the `Instant.now()` and
    `NOW()` readings of one call, and `freshId` for the id the database
    generates. */
module UserService {
  import opened Common
  import opened UserModel
  import opened Table
  import opened Store
  import CustomUserRepository
  import UserRepository

  /** `CreateUserRequest`: every field may be null. */
  datatype CreateUserRequest = CreateUserRequest(
    username: Option<string>,
    email: Option<string>,
    password: Option<string>,
    fullName: Option<string>,
    provider: Option<string>,
    providerId: Option<string>)

  /** The error a returned `Mono` ends with: the service's own
      `IllegalArgumentException`, or the database's constraint violation. */
  datatype ServiceError = IllegalArgument(message: string) | Database(error: StoreError)

  /** A service call's result and the table afterwards. */
  datatype Outcome = Outcome(result: Result<User, ServiceError>, rows: Rows)

  const EmailTaken: string := "Email already exists"

  /** A repository write seen through the service. */
  function Lift(w: Write): Outcome {
    match w.result
    case Success(u) => Outcome(Success(u), w.rows)
    case Failure(e) => Outcome(Failure(Database(e)), w.rows)
  }

  // ----- createUser -----

  /** The user `createUser` hands to `save`: the caller's user with its id
      cleared, both timestamps set to now and the status forced to
      `PENDING_VERIFICATION`. */
  function Prepared(u: User, now: Instant): User {
    u.(id := None, createdAt := Some(now), updatedAt := Some(now), status := PendingVerification)
  }

  /** `createUser`: refused when some row already has the user's email
      (a null email matches a row with a null email); otherwise saved. The
      username is not checked. */
  function Created(rows: Rows, u: User, freshId: Uuid, now: Instant): Outcome
    requires freshId !in rows
  {
    if ExistsByEmail(rows, u.email) then Outcome(Failure(IllegalArgument(EmailTaken)), rows)
    else Lift(Inserted(rows, Prepared(u, now), freshId))
  }

  /** `createUser` fails with "Email already exists" and changes nothing
      exactly when the email is taken; otherwise it inserts one row, the
      caller's user under the generated id, stamped now and pending
      verification, unless the provider key is taken, in which case the
      database refuses it. The table's constraints hold afterwards. */
  lemma CreatedOutcome(rows: Rows, u: User, freshId: Uuid, now: Instant)
    requires WellFormed(rows) && freshId !in rows
    ensures var o := Created(rows, u, freshId, now);
      && WellFormed(o.rows)
      && (o.result == Failure(IllegalArgument(EmailTaken)) <==> ExistsByEmail(rows, u.email))
      && (o.result.Failure? ==> o.rows == rows)
      && (!ExistsByEmail(rows, u.email) && ConflictOf(rows, u) != {} ==>
            o.result == Failure(Database(ProviderKeyViolation)))
      && (!ExistsByEmail(rows, u.email) && ConflictOf(rows, u) == {} ==>
            && o.result.Success?
            && o.result.value == u.(id := Some(freshId), createdAt := Some(now), updatedAt := Some(now),
                                    status := PendingVerification)
            && o.rows == rows[freshId := o.result.value])
  {
    InsertedKeepsWellFormed(rows, Prepared(u, now), freshId);
    assert ConflictOf(rows, Prepared(u, now)) == ConflictOf(rows, u);
  }

  /** Creating a second account with the email of one just created fails
      with "Email already exists" and leaves the table as it was. */
  lemma CreateTwiceFails(rows: Rows, u: User, v: User, freshId1: Uuid, freshId2: Uuid, now1: Instant, now2: Instant)
    requires freshId1 !in rows
    requires Created(rows, u, freshId1, now1).result.Success?
    requires freshId2 !in Created(rows, u, freshId1, now1).rows
    requires v.email == u.email
    ensures var o1 := Created(rows, u, freshId1, now1);
      Created(o1.rows, v, freshId2, now2) == Outcome(Failure(IllegalArgument(EmailTaken)), o1.rows)
  {
    var o1 := Created(rows, u, freshId1, now1);
    assert freshId1 in o1.rows && o1.rows[freshId1].email == v.email;
  }

  /** Two accounts may share a username: a new email with no provider key
      is saved even when the username is taken. */
  lemma CreateAllowsTakenUsername(rows: Rows, u: User, freshId: Uuid, now: Instant)
    requires WellFormed(rows) && freshId !in rows
    requires !ExistsByEmail(rows, u.email) && !HasProviderKey(u) && ExistsByUsername(rows, u.username)
    ensures var o := Created(rows, u, freshId, now);
      && o.result.Success?
      && exists id :: id in o.rows && id != freshId && o.rows[id].username == o.rows[freshId].username
  {
    CreatedOutcome(rows, u, freshId, now);
    var id :| id in rows && rows[id].username == u.username;
    assert id != freshId;
  }

  // ----- createUserFromRequest -----

  /** The user `createUserFromRequest` builds: username and provider key
      from the request, pending verification, stamped now. */
  function FromRequest(req: CreateUserRequest, now: Instant): User {
    Build(NewBuilder.(username := req.username, provider := req.provider, providerId := req.providerId,
                      status := Some(PendingVerification), createdAt := Some(now), updatedAt := Some(now)))
  }

  /** `createUserFromRequest`: saved without any check. */
  function CreatedFromRequest(rows: Rows, req: CreateUserRequest, freshId: Uuid, now: Instant): Outcome
    requires freshId !in rows
  {
    Lift(Inserted(rows, FromRequest(req, now), freshId))
  }

  /** The request's email, password and full name never reach the table;
      the save fails only when the request's provider key is taken, and
      the email is not checked. */
  lemma CreatedFromRequestDrops(rows: Rows, req: CreateUserRequest, freshId: Uuid, now: Instant)
    requires WellFormed(rows) && freshId !in rows
    ensures var o := CreatedFromRequest(rows, req, freshId, now);
      && WellFormed(o.rows)
      && (o.result.Failure? <==>
            req.provider.Some? && req.providerId.Some? &&
            exists id :: id in rows && rows[id].provider == req.provider && rows[id].providerId == req.providerId)
      && (o.result.Failure? ==> o == Outcome(Failure(Database(ProviderKeyViolation)), rows))
      && (o.result.Success? ==>
            var row := o.result.value;
            && o.rows == rows[freshId := row]
            && row.id == Some(freshId) && row.username == req.username
            && row.provider == req.provider && row.providerId == req.providerId
            && row.status == PendingVerification && row.createdAt == Some(now) && row.updatedAt == Some(now)
            && row.email.None? && row.passwordHash.None? && row.fullName.None?
            && row.headline.None? && row.profileLink.None? && row.headshot.None?)
  {
    var nu := FromRequest(req, now);
    InsertedKeepsWellFormed(rows, nu, freshId);
    if req.provider.Some? && req.providerId.Some? {
      if id :| id in rows && rows[id].provider == req.provider && rows[id].providerId == req.providerId {
        assert id in ConflictOf(rows, nu);
      }
    }
    if Inserted(rows, nu, freshId).result.Failure? {
      var c := ConflictOf(rows, nu);
      NonEmpty(c);
      var id :| id in c;
    }
  }

  // ----- updateUser -----

  /** `updateUser`: nothing when no row has the id; otherwise the caller's
      update, given the id, the row's creation time and status and a new
      modification time, goes to the repository's `updateUser`. */
  function UserUpdated(rows: Rows, id: Uuid, update: User, now: Instant): UserRepository.Update {
    if id in rows then
      UserRepository.ProfileUpdated(rows, update.(id := Some(id), createdAt := rows[id].createdAt,
                                                  updatedAt := Some(now), status := rows[id].status), now)
    else
      UserRepository.Update(None, rows)
  }

  /** The creation time and status the service copies onto the update are
      columns the repository statement does not write: the service's update
      is the repository's update of the profile under the given id, and it
      keeps the row's status, creation time and username. */
  lemma UserUpdatedIsProfileUpdate(rows: Rows, id: Uuid, update: User, now: Instant)
    ensures UserUpdated(rows, id, update, now) == UserRepository.ProfileUpdated(rows, update.(id := Some(id)), now)
    ensures var w := UserUpdated(rows, id, update, now);
      && (w.result.Some? <==> id in rows)
      && (id in rows ==>
            w.rows.Keys == rows.Keys && w.result.value == w.rows[id] &&
            w.rows[id].status == rows[id].status && w.rows[id].createdAt == rows[id].createdAt &&
            w.rows[id].username == rows[id].username && w.rows[id].email == update.email)
  {
    UserRepository.ProfileUpdatedFrame(rows, update.(id := Some(id)), now);
  }

  class UserService {
    /** The `users` table behind the repository. */
    const repository: UsersTable

    ghost predicate Valid()
      reads this, repository
    {
      repository.Valid()
    }

    constructor(repository: UsersTable)
      requires repository.Valid()
      ensures this.repository == repository && Valid()
    {
      this.repository := repository;
    }

    /** `createUser`. */
    method CreateUser(u: User, freshId: Uuid, now: Instant) returns (r: Result<User, ServiceError>)
      requires Valid() && freshId !in repository.rows
      modifies repository
      ensures Valid()
      ensures Outcome(r, repository.rows) == Created(old(repository.rows), u, freshId, now)
    {
      var taken := ExistsByEmail(repository.rows, u.email);
      if taken {
        return Failure(IllegalArgument(EmailTaken));
      }
      var saved := repository.Save(Prepared(u, now), freshId);
      match saved
      case Success(row) => r := Success(row);
      case Failure(e) => r := Failure(Database(e));
    }

    /** `createUserFromRequest`. */
    method CreateUserFromRequest(req: CreateUserRequest, freshId: Uuid, now: Instant) returns (r: Result<User, ServiceError>)
      requires Valid() && freshId !in repository.rows
      modifies repository
      ensures Valid()
      ensures Outcome(r, repository.rows) == CreatedFromRequest(old(repository.rows), req, freshId, now)
    {
      var user := FromRequest(req, now);
      var saved := repository.Save(user, freshId);
      match saved
      case Success(row) => r := Success(row);
      case Failure(e) => r := Failure(Database(e));
    }

    /** `upsertSocialUser`: the repository's upsert; logging is left out. */
    method UpsertSocialUser(u: User, freshId: Uuid, now: Instant) returns (r: Result<User, StoreError>)
      requires Valid() && freshId !in repository.rows
      modifies repository
      ensures Valid()
      ensures Write(r, repository.rows) == CustomUserRepository.Upsert(old(repository.rows), u, freshId, now)
    {
      r := repository.UpsertSocialUser(u, freshId, now);
    }

    /** `findById`: the row with that id, if any. */
    method FindById(id: Uuid) returns (r: Option<User>)
      requires Valid()
      ensures r.Some? <==> id in repository.rows
      ensures r.Some? ==> r.value == repository.rows[id] && r.value.id == Some(id)
    {
      r := Table.FindById(repository.rows, id);
    }

    /** `getUserByProviderAndProviderId`: the derived query, with a null
        component matching `IS NULL`. The one matching row is found; for a
        non-null provider key the provider index guarantees at most one. */
    method GetUserByProviderAndProviderId(provider: Option<string>, providerId: Option<string>) returns (r: Lookup<User>)
      requires Valid()
      ensures r.Found? ==> r.value in repository.rows.Values && r.value.provider == provider && r.value.providerId == providerId
      ensures r.NotFound? <==> forall id :: id in repository.rows ==>
        repository.rows[id].provider != provider || repository.rows[id].providerId != providerId
      ensures r.Found? <==> |ProviderMatches(repository.rows, provider, providerId)| == 1
      ensures provider.Some? && providerId.Some? ==> !r.NotUnique?
      ensures r == FindByProviderAndProviderId(repository.rows, provider, providerId)
    {
      r := FindByProviderAndProviderId(repository.rows, provider, providerId);
      if provider.Some? && providerId.Some? {
        ProviderLookupNeverAmbiguous(repository.rows, provider.value, providerId.value);
      }
    }

    /** `updateUser`. */
    method UpdateUser(id: Uuid, update: User, now: Instant) returns (r: Option<User>)
      requires Valid()
      modifies repository
      ensures Valid()
      ensures UserRepository.Update(r, repository.rows) == UserUpdated(old(repository.rows), id, update, now)
    {
      var existing := Table.FindById(repository.rows, id);
      if existing.None? {
        return None;
      }
      var patched := update.(id := Some(id), createdAt := existing.value.createdAt,
                             updatedAt := Some(now), status := existing.value.status);
      r := repository.UpdateUser(patched, now);
    }

    /** `searchUsers`: the repository's two-field search. */
    method SearchUsers(term: Option<string>) returns (r: seq<User>)
      requires Valid()
      ensures Lists(repository.rows, UserRepository.NameOrEmailMatches(repository.rows, term), r)
      ensures NewestFirst(r)
    {
      r := UserRepository.SearchUsers(repository.rows, term);
    }

    /** `updateUserStatus`: any status, from any status. */
    method UpdateUserStatus(id: Uuid, status: Status, now: Instant)
      requires Valid()
      modifies repository
      ensures Valid()
      ensures repository.rows == UserRepository.StatusUpdated(old(repository.rows), id, status, now)
    {
      repository.UpdateStatus(id, status, now);
    }

    /** `isEmailAvailable`: no row has this email. */
    method IsEmailAvailable(email: Option<string>) returns (b: bool)
      ensures b <==> forall id :: id in repository.rows ==> repository.rows[id].email != email
    {
      var taken := ExistsByEmail(repository.rows, email);
      b := !taken;
    }

    /** `isUsernameAvailable`: no row has this username. */
    method IsUsernameAvailable(username: Option<string>) returns (b: bool)
      ensures b <==> forall id :: id in repository.rows ==> repository.rows[id].username != username
    {
      var taken := ExistsByUsername(repository.rows, username);
      b := !taken;
    }
  }
}
