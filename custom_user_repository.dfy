/** The queries `CustomUserRepository` writes out in SQL: the three-field
    search, the recent-registrations listing, the social-login upsert, the
    soft delete and the sweep of stale unverified accounts. Each write is
    given here as a function from the table before to the table after; the
    `UsersTable` class runs them in place. */
module CustomUserRepository {
  import opened Common
  import opened Text
  import opened UserModel
  import opened Table

  // ----- searchUsers -----

  /** `LOWER(field) LIKE LOWER(concat('%', :term, '%'))`. A null field makes
      the comparison NULL, which never selects the row; a null term gives
      the pattern `%%`. */
  predicate FieldLike(field: Option<string>, term: Option<string>) {
    field.Some? && Like(Lower(field.value), Lower(ContainsPattern(term.GetOr(""))))
  }

  /** The `WHERE` clause of `searchUsers`: full name, email or username. */
  predicate MatchesSearch(u: User, term: Option<string>) {
    FieldLike(u.fullName, term) || FieldLike(u.email, term) || FieldLike(u.username, term)
  }

  function SearchMatches(rows: Rows, term: Option<string>): set<Uuid> {
    set id | id in rows && MatchesSearch(rows[id], term)
  }

  /** `searchUsers`: exactly the rows the `WHERE` clause selects, each once,
      newest first. */
  method SearchUsers(rows: Rows, term: Option<string>) returns (r: seq<User>)
    requires KeyedById(rows)
    ensures Lists(rows, SearchMatches(rows, term), r)
    ensures NewestFirst(r)
    ensures forall u :: u in r ==> MatchesSearch(u, term)
  {
    r := OrderByCreatedAtDesc(rows, SearchMatches(rows, term));
  }

  /** Matching one field is a case-insensitive substring test whenever the
      term holds no `LIKE` meta-character. */
  lemma FieldLikeMeaning(field: Option<string>, t: string)
    requires NoLikeMeta(t)
    ensures FieldLike(field, Some(t)) <==> field.Some? && Contains(Lower(field.value), Lower(t))
  {
    LowerContainsPattern(t);
    LowerKeepsNoLikeMeta(t);
    if field.Some? {
      ContainsPatternMeaning(Lower(field.value), Lower(t));
    }
  }

  /** The search selects a user exactly when the lower-cased full name,
      email or username contains the lower-cased term; a null field never
      matches. */
  lemma SearchMeaning(u: User, t: string)
    requires NoLikeMeta(t)
    ensures MatchesSearch(u, Some(t)) <==>
      || (u.fullName.Some? && Contains(Lower(u.fullName.value), Lower(t)))
      || (u.email.Some? && Contains(Lower(u.email.value), Lower(t)))
      || (u.username.Some? && Contains(Lower(u.username.value), Lower(t)))
  {
    FieldLikeMeaning(u.fullName, t);
    FieldLikeMeaning(u.email, t);
    FieldLikeMeaning(u.username, t);
  }

  /** The search ignores the case of the term, whatever characters it holds. */
  lemma SearchIgnoresCase(rows: Rows, t: string)
    ensures SearchMatches(rows, Some(t)) == SearchMatches(rows, Some(Lower(t)))
  {
    LowerContainsPattern(t);
    LowerContainsPattern(Lower(t));
    LowerIdempotent(t);
    assert Lower(ContainsPattern(t)) == Lower(ContainsPattern(Lower(t)));
    forall f: Option<string> ensures FieldLike(f, Some(t)) == FieldLike(f, Some(Lower(t))) {
    }
    forall id ensures id in SearchMatches(rows, Some(t)) <==> id in SearchMatches(rows, Some(Lower(t))) {
    }
  }

  /** A null term (`concat` drops it) and the empty term both select every
      row with at least one non-null searched field. */
  lemma SearchWithoutTerm(u: User)
    ensures MatchesSearch(u, None) == MatchesSearch(u, Some(""))
    ensures MatchesSearch(u, None) <==> u.fullName.Some? || u.email.Some? || u.username.Some?
  {
    assert NoLikeMeta("");
    forall s: string ensures Contains(s, "") {
      assert "" <= s[0..];
    }
    FieldLikeMeaning(u.fullName, "");
    FieldLikeMeaning(u.email, "");
    FieldLikeMeaning(u.username, "");
  }

  // ----- findRecentlyRegisteredUsers -----

  /** `created_at > NOW() - INTERVAL '30 days'`. */
  predicate RegisteredRecently(u: User, now: Instant) {
    u.createdAt.Some? && u.createdAt.value > now - 30 * Day
  }

  function RecentMatches(rows: Rows, now: Instant): set<Uuid> {
    set id | id in rows && RegisteredRecently(rows[id], now)
  }

  /** `findRecentlyRegisteredUsers`: the rows created in the last 30 days,
      each once, newest first. */
  method FindRecentlyRegisteredUsers(rows: Rows, now: Instant) returns (r: seq<User>)
    requires KeyedById(rows)
    ensures Lists(rows, RecentMatches(rows, now), r)
    ensures NewestFirst(r)
    ensures forall u :: u in r ==> u.createdAt.Some? && now - 30 * Day < u.createdAt.value
  {
    r := OrderByCreatedAtDesc(rows, RecentMatches(rows, now));
    forall u | u in r
      ensures RegisteredRecently(u, now)
    {
      assert u.id.value in RecentMatches(rows, now);
    }
  }

  // ----- upsertSocialUser -----

  /** The row the `INSERT` branch writes: the given id or a generated one,
      the given creation time or `NOW()`, `updated_at = NOW()`. The column
      list has no `password_hash`, so the new row has none. */
  function InsertedRow(u: User, id: Uuid, now: Instant): User {
    u.(id := Some(id), passwordHash := None, createdAt := Some(u.createdAt.GetOr(now)), updatedAt := Some(now))
  }

  /** `upsertSocialUser`: `INSERT ... ON CONFLICT (provider, provider_id)
      WHERE provider IS NOT NULL AND provider_id IS NOT NULL DO UPDATE SET
      ... RETURNING *`. A collision on the provider index overwrites the
      existing row's profile; otherwise the row is inserted, unless its id
      is already taken. `freshId` is the value `gen_random_uuid()` yields. */
  function Upsert(rows: Rows, u: User, freshId: Uuid, now: Instant): (w: Write)
    requires WellFormed(rows) && freshId !in rows
  {
    var conflict := ConflictOf(rows, u);
    ConflictAtMostOne(rows, u);
    if conflict != {} then
      var id :| conflict == {id};
      var row := WithProfile(rows[id], u, now);
      Write(Success(row), rows[id := row])
    else if u.id.Some? && u.id.value in rows then
      Write(Failure(PrimaryKeyViolation), rows)
    else
      var id := u.id.GetOr(freshId);
      var row := InsertedRow(u, id, now);
      Write(Success(row), rows[id := row])
  }

  /** On a provider collision the upsert rewrites exactly the email, full
      name, headline, profile link and headshot, with the incoming values
      even when they are null, and sets `updated_at`; id, username, status,
      provider key, creation time and password hash stay as they were, and
      no other row changes. */
  lemma UpsertOnConflict(rows: Rows, u: User, freshId: Uuid, now: Instant, id: Uuid)
    requires WellFormed(rows) && freshId !in rows
    requires id in rows && SameProviderKey(u, rows[id])
    ensures var w := Upsert(rows, u, freshId, now); var old_ := rows[id];
      && w.result.Success?
      && w.rows == rows[id := w.result.value]
      && var row := w.result.value;
      && row.id == old_.id && row.username == old_.username && row.status == old_.status
      && row.provider == old_.provider && row.providerId == old_.providerId
      && row.createdAt == old_.createdAt && row.passwordHash == old_.passwordHash
      && row.email == u.email && row.fullName == u.fullName && row.headline == u.headline
      && row.profileLink == u.profileLink && row.headshot == u.headshot
      && row.updatedAt == Some(now)
  {
    assert id in ConflictOf(rows, u);
    ConflictAtMostOne(rows, u);
  }

  /** Without a provider collision the upsert adds exactly one row, under
      the given id or the generated one, created at the given time or now,
      updated now, with no password hash and every other column from the
      incoming user; only an id already in the table stops it. */
  lemma UpsertWithoutConflict(rows: Rows, u: User, freshId: Uuid, now: Instant)
    requires WellFormed(rows) && freshId !in rows
    requires forall id :: id in rows ==> !SameProviderKey(u, rows[id])
    ensures var w := Upsert(rows, u, freshId, now);
      if u.id.Some? && u.id.value in rows then
        w == Write(Failure(PrimaryKeyViolation), rows)
      else
        var id := if u.id.Some? then u.id.value else freshId;
        && id !in rows
        && w.result.Success?
        && w.rows == rows[id := w.result.value]
        && |w.rows| == |rows| + 1
        && w.result.value == u.(id := Some(id), passwordHash := None,
                                createdAt := Some(if u.createdAt.Some? then u.createdAt.value else now),
                                updatedAt := Some(now))
  {
    forall x ensures x !in ConflictOf(rows, u) {
    }
    assert ConflictOf(rows, u) == {};
  }

  /** The upsert keeps the table's constraints: the ids stay keys and no two
      rows share a non-null `(provider, provider_id)`. */
  lemma UpsertKeepsWellFormed(rows: Rows, u: User, freshId: Uuid, now: Instant)
    requires WellFormed(rows) && freshId !in rows
    ensures WellFormed(Upsert(rows, u, freshId, now).rows)
  {
    var w := Upsert(rows, u, freshId, now);
    var conflict := ConflictOf(rows, u);
    ConflictAtMostOne(rows, u);
    if conflict == {} && w.result.Success? {
      var row := w.result.value;
      var id := row.id.value;
      forall i, j | i in w.rows && j in w.rows && i != j
        ensures !SameProviderKey(w.rows[i], w.rows[j])
      {
        if i == id && SameProviderKey(row, w.rows[j]) {
          assert false;
        }
        if j == id && SameProviderKey(w.rows[i], row) {
          assert false;
        }
      }
    }
  }

  /** The upsert keeps every row within the entity's `@Size` bounds when the
      incoming user is within them. */
  lemma UpsertKeepsValid(rows: Rows, u: User, freshId: Uuid, now: Instant)
    requires WellFormed(rows) && freshId !in rows
    requires AllValid(rows) && UserModel.Valid(u)
    ensures AllValid(Upsert(rows, u, freshId, now).rows)
  {
    var conflict := ConflictOf(rows, u);
    ConflictAtMostOne(rows, u);
    if conflict != {} {
      var id :| conflict == {id};
      WithProfileValid(rows[id], u, now);
    }
  }

  /** Upserting the same social profile twice returns the same row: the
      second call finds the first one's row by its provider key, leaves the
      set of ids alone and only moves `updated_at`. */
  lemma {:induction false} UpsertTwice(rows: Rows, u: User, freshId1: Uuid, freshId2: Uuid, now1: Instant, now2: Instant)
    requires WellFormed(rows) && freshId1 !in rows && HasProviderKey(u)
    requires Upsert(rows, u, freshId1, now1).result.Success?
    requires freshId2 !in Upsert(rows, u, freshId1, now1).rows
    ensures var w1 := Upsert(rows, u, freshId1, now1);
      var w2 := Upsert(w1.rows, u, freshId2, now2);
      var row := w1.result.value;
      && w2.result == Success(row.(updatedAt := Some(now2)))
      && w2.rows == w1.rows[row.id.value := row.(updatedAt := Some(now2))]
      && w2.rows.Keys == w1.rows.Keys
  {
    var w1 := Upsert(rows, u, freshId1, now1);
    UpsertKeepsWellFormed(rows, u, freshId1, now1);
    var row := w1.result.value;
    var id := row.id.value;
    ConflictAtMostOne(rows, u);
    assert id in w1.rows && w1.rows[id] == row;
    assert SameProviderKey(u, row);
    UpsertOnConflict(w1.rows, u, freshId2, now2, id);
  }

  /** A user without both provider fields and without an id is always
      inserted as a new row: repeating such an upsert duplicates the user. */
  lemma UpsertWithoutProviderKeyInserts(rows: Rows, u: User, freshId: Uuid, now: Instant)
    requires WellFormed(rows) && freshId !in rows
    requires !HasProviderKey(u) && u.id.None?
    ensures var w := Upsert(rows, u, freshId, now);
      w.result.Success? && w.result.value.id == Some(freshId) && |w.rows| == |rows| + 1
  {
  }

  // ----- softDeleteUser -----

  /** `UPDATE users SET status = 'DELETED', updated_at = NOW() WHERE id = :id`. */
  function SoftDeleted(rows: Rows, id: Uuid, now: Instant): Rows {
    if id in rows then rows[id := rows[id].(status := Deleted, updatedAt := Some(now))] else rows
  }

  /** The soft delete marks that one row `DELETED` and stamps it; every other
      row, and every other column of that row, is unchanged; a missing id
      changes nothing; no row is removed. */
  lemma SoftDeleteFrame(rows: Rows, id: Uuid, now: Instant)
    ensures var r := SoftDeleted(rows, id, now);
      && r.Keys == rows.Keys
      && (forall k :: k in rows && k != id ==> r[k] == rows[k])
      && (id in rows ==> r[id].status == Deleted && r[id].updatedAt == Some(now) &&
                         r[id].(status := rows[id].status, updatedAt := rows[id].updatedAt) == rows[id])
      && (id !in rows ==> r == rows)
  {
  }

  // ----- deactivateExpiredPendingUsers -----

  /** `status = 'PENDING_VERIFICATION' AND created_at < NOW() - INTERVAL
      '24 hours'`; a null creation time never qualifies. */
  predicate ExpiredPending(u: User, now: Instant) {
    u.status == PendingVerification && u.createdAt.Some? && u.createdAt.value < now - Day
  }

  /** The sweep's change to one row. */
  function Deactivate(u: User, now: Instant): User {
    if ExpiredPending(u, now) then u.(status := Inactive, updatedAt := Some(now)) else u
  }

  /** `deactivateExpiredPendingUsers`: one bulk `UPDATE` over the table. */
  function Deactivated(rows: Rows, now: Instant): Rows {
    map id | id in rows :: Deactivate(rows[id], now)
  }

  /** The sweep changes exactly the expired pending rows, to `INACTIVE` with
      `updated_at = now`, and nothing else; afterwards no expired pending
      row is left. */
  lemma DeactivatedExactly(rows: Rows, now: Instant)
    ensures var r := Deactivated(rows, now);
      && r.Keys == rows.Keys
      && (forall id :: id in rows ==> (r[id] != rows[id] <==> ExpiredPending(rows[id], now)))
      && (forall id :: id in rows && ExpiredPending(rows[id], now) ==>
            r[id] == rows[id].(status := Inactive, updatedAt := Some(now)))
      && (forall id :: id in r ==> !ExpiredPending(r[id], now))
  {
  }

  /** A second sweep at the same instant finds nothing to do. */
  lemma DeactivatedIdempotent(rows: Rows, now: Instant)
    ensures Deactivated(Deactivated(rows, now), now) == Deactivated(rows, now)
  {
    var r := Deactivated(rows, now);
    assert forall id :: id in r ==> Deactivate(r[id], now) == r[id];
  }

  /** The sweep keeps the table's constraints and its `@Size` bounds. */
  lemma DeactivatedKeepsInvariants(rows: Rows, now: Instant)
    ensures WellFormed(rows) ==> WellFormed(Deactivated(rows, now))
    ensures AllValid(rows) ==> AllValid(Deactivated(rows, now))
  {
    var r := Deactivated(rows, now);
    assert forall id :: id in rows ==> r[id].provider == rows[id].provider && r[id].providerId == rows[id].providerId;
  }

  /** A pending account created 25 hours before the sweep is deactivated;
      one created 23 hours before is not. */
  lemma SweepAtTwentyFourHours(u: User, now: Instant)
    requires u.status == PendingVerification
    ensures Deactivate(u.(createdAt := Some(now - 25 * MicrosPerHour)), now).status == Inactive
    ensures Deactivate(u.(createdAt := Some(now - 23 * MicrosPerHour)), now).status == PendingVerification
  {
  }
}
