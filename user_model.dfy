/** The `User` record stored in the `users` table, its status enumeration,
    its Lombok builder with the defaulted status, and the `@Size` bounds of
    its fields. */
module UserModel {
  import opened Common

  /** A `java.util.UUID`; only equality between ids matters. */
  type Uuid = int

  /** `User.UserStatus`, in declaration order. */
  datatype Status = Active | Inactive | Suspended | Deleted | PendingVerification

  /** The enum constant's name, which is also the label of the
      `user_status` database type. */
  function Name(s: Status): string {
    match s
    case Active => "ACTIVE"
    case Inactive => "INACTIVE"
    case Suspended => "SUSPENDED"
    case Deleted => "DELETED"
    case PendingVerification => "PENDING_VERIFICATION"
  }

  /** `UserStatus.valueOf(name)` / the cast `name::user_status`: the status
      with that exact name, or none. */
  function ParseStatus(name: string): (r: Option<Status>)
    ensures r.Some? ==> Name(r.value) == name
    ensures r.None? ==> forall s :: Name(s) != name
  {
    if name == "ACTIVE" then Some(Active)
    else if name == "INACTIVE" then Some(Inactive)
    else if name == "SUSPENDED" then Some(Suspended)
    else if name == "DELETED" then Some(Deleted)
    else if name == "PENDING_VERIFICATION" then Some(PendingVerification)
    else None
  }

  /** Every status has a distinct name, and parsing it gives it back. */
  lemma ParseName(s: Status)
    ensures ParseStatus(Name(s)) == Some(s)
  {
  }

  /** `UserStatus.ordinal()`: the position in declaration order. */
  function Ordinal(s: Status): nat {
    match s
    case Active => 0
    case Inactive => 1
    case Suspended => 2
    case Deleted => 3
    case PendingVerification => 4
  }

  /** `UserStatus.values()`: exactly the five statuses, each once, each at
      its ordinal. */
  function Values(): (r: seq<Status>)
    ensures |r| == 5
    ensures forall s :: Ordinal(s) < |r| && r[Ordinal(s)] == s
    ensures forall i, j :: 0 <= i < j < |r| ==> r[i] != r[j]
  {
    [Active, Inactive, Suspended, Deleted, PendingVerification]
  }

  /** One row of the `users` table. Every Java reference field may be null.
      `guest_expiration` is never read or written by the modelled code and is
      left out. */
  datatype User = User(
    id: Option<Uuid>,
    username: Option<string>,
    email: Option<string>,
    passwordHash: Option<string>,
    fullName: Option<string>,
    headline: Option<string>,
    profileLink: Option<string>,
    headshot: Option<string>,
    status: Status,
    provider: Option<string>,
    providerId: Option<string>,
    createdAt: Option<Instant>,
    updatedAt: Option<Instant>)

  /** The state of a `User.builder()` chain: what has been set so far.
      Setting a reference field to null and not setting it are the same, so
      those fields are plain values; only the defaulted `status` records
      whether it was set. */
  datatype UserBuilder = UserBuilder(
    id: Option<Uuid>,
    username: Option<string>,
    email: Option<string>,
    passwordHash: Option<string>,
    fullName: Option<string>,
    headline: Option<string>,
    profileLink: Option<string>,
    headshot: Option<string>,
    status: Option<Status>,
    provider: Option<string>,
    providerId: Option<string>,
    createdAt: Option<Instant>,
    updatedAt: Option<Instant>)

  /** `User.builder()`: nothing set yet. */
  const NewBuilder: UserBuilder :=
    UserBuilder(None, None, None, None, None, None, None, None, None, None, None, None, None)

  /** `.build()`: every field as set, and `status` defaulting to
      `PENDING_VERIFICATION` when it was not set. */
  function Build(b: UserBuilder): (u: User)
    ensures b.status.Some? ==> u.status == b.status.value
  {
    User(b.id, b.username, b.email, b.passwordHash, b.fullName, b.headline,
         b.profileLink, b.headshot, b.status.GetOr(PendingVerification),
         b.provider, b.providerId, b.createdAt, b.updatedAt)
  }

  /** A user built without an explicit status is pending verification; the
      builder sets nothing else on its own. */
  lemma DefaultStatus(b: UserBuilder)
    requires b.status.None?
    ensures Build(b).status == PendingVerification
    ensures Build(b) == Build(b.(status := Some(PendingVerification)))
  {
  }

  /** `@Size(max = n)`: a null value passes. */
  predicate AtMost(s: Option<string>, max: nat) {
    s.None? || |s.value| <= max
  }

  /** `@Size(min = m, max = n)`: a null value passes. */
  predicate Within(s: Option<string>, min: nat, max: nat) {
    s.None? || min <= |s.value| <= max
  }

  /** The `@Size` bounds of the four profile fields. */
  predicate ProfileValid(u: User) {
    && AtMost(u.fullName, 100)
    && AtMost(u.headline, 160)
    && AtMost(u.profileLink, 255)
    && AtMost(u.headshot, 255)
  }

  /** Every `@Size` bound on `User`. The `@Email` format check is a library
      regular expression and is not part of this predicate. */
  predicate Valid(u: User) {
    Within(u.username, 3, 50) && ProfileValid(u)
  }
}
