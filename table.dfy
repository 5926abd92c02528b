/** The `users` table as a value, its integrity constraints, and the reads
    that both repository interfaces derive from method names (`findBy...`,
    `existsBy...`, `countBy...`). */
module Table {
  import opened Common
  import opened UserModel

  /** The rows of `users`, keyed by their primary key. */
  type Rows = map<Uuid, User>

  /** Every row carries its own key as its id. */
  predicate KeyedById(rows: Rows) {
    forall id :: id in rows ==> rows[id].id == Some(id)
  }

  predicate HasProviderKey(u: User) {
    u.provider.Some? && u.providerId.Some?
  }

  /** `a` and `b` collide on the partial unique index over
      `(provider, provider_id) WHERE provider IS NOT NULL AND provider_id IS NOT NULL`. */
  predicate SameProviderKey(a: User, b: User) {
    HasProviderKey(a) && a.provider == b.provider && a.providerId == b.providerId
  }

  /** The partial unique index that the `ON CONFLICT` clause of the social
      upsert names as its arbiter. */
  predicate ProviderKeysUnique(rows: Rows) {
    forall i, j :: i in rows && j in rows && i != j ==> !SameProviderKey(rows[i], rows[j])
  }

  /** The constraints every state of the table satisfies. */
  predicate WellFormed(rows: Rows) {
    KeyedById(rows) && ProviderKeysUnique(rows)
  }

  /** The outcome of a `Mono<User>` query: no row, exactly one row, or an
      error because the query matched more than one row. */
  datatype Lookup<T> = NotFound | Found(value: T) | NotUnique

  /** The single-row result of a query that matched the rows `ids`. */
  function Single(rows: Rows, ids: set<Uuid>): (r: Lookup<User>)
    requires ids <= rows.Keys
    ensures r.NotFound? <==> ids == {}
    ensures r.Found? <==> |ids| == 1
    ensures r.Found? ==> exists id :: ids == {id} && r.value == rows[id]
  {
    if ids == {} then NotFound
    else if |ids| == 1 then
      var id := TheOnly(ids);
      Found(rows[id])
    else NotUnique
  }

  /** The element of a one-element set. */
  function TheOnly(s: set<Uuid>): (x: Uuid)
    requires |s| == 1
    ensures s == {x}
  {
    OneElement(s);
    var x :| x in s;
    x
  }

  /** A non-empty set has an element to pick. */
  lemma NonEmpty(s: set<Uuid>)
    requires s != {}
    ensures exists x :: x in s
  {
    if forall x :: x !in s {
      assert false;
    }
  }

  lemma OneElement(s: set<Uuid>)
    requires |s| == 1
    ensures exists x :: s == {x}
    ensures forall a, b :: a in s && b in s ==> a == b
  {
    assert s != {};
    NonEmpty(s);
    var x :| x in s;
    forall y | y in s
      ensures y == x
    {
      if y != x {
        assert {x, y} <= s;
        assert |{x, y}| == 2;
        SubsetCard({x, y}, s);
      }
    }
    assert s == {x};
  }

  // Spring Data turns a null argument of a derived query into `IS NULL`, so
  // the filters below compare nullable values with `==`.

  function EmailMatches(rows: Rows, email: Option<string>): set<Uuid> {
    set id | id in rows && rows[id].email == email
  }

  function UsernameMatches(rows: Rows, username: Option<string>): set<Uuid> {
    set id | id in rows && rows[id].username == username
  }

  function ProviderMatches(rows: Rows, provider: Option<string>, providerId: Option<string>): set<Uuid> {
    set id | id in rows && rows[id].provider == provider && rows[id].providerId == providerId
  }

  function StatusMatches(rows: Rows, status: Status): set<Uuid> {
    set id | id in rows && rows[id].status == status
  }

  function ProviderOnlyMatches(rows: Rows, provider: Option<string>): set<Uuid> {
    set id | id in rows && rows[id].provider == provider
  }

  /** `findById`. */
  function FindById(rows: Rows, id: Uuid): (r: Option<User>)
    requires KeyedById(rows)
    ensures r.Some? <==> id in rows
    ensures r.Some? ==> r.value == rows[id] && r.value.id == Some(id)
  {
    if id in rows then Some(rows[id]) else None
  }

  /** `existsByEmail`: some row has exactly this email. */
  function ExistsByEmail(rows: Rows, email: Option<string>): (r: bool)
    ensures r <==> EmailMatches(rows, email) != {}
  {
    var ids := EmailMatches(rows, email);
    assert (exists id :: id in rows && rows[id].email == email) <==> ids != {} by {
      if ids != {} {
        NonEmpty(ids);
        var x :| x in ids;
        assert x in rows && rows[x].email == email;
      }
      if id :| id in rows && rows[id].email == email {
        assert id in ids;
      }
    }
    exists id :: id in rows && rows[id].email == email
  }

  /** `existsByUsername`: some row has exactly this username. */
  function ExistsByUsername(rows: Rows, username: Option<string>): (r: bool)
    ensures r <==> UsernameMatches(rows, username) != {}
  {
    var ids := UsernameMatches(rows, username);
    assert (exists id :: id in rows && rows[id].username == username) <==> ids != {} by {
      if ids != {} {
        NonEmpty(ids);
        var x :| x in ids;
        assert x in rows && rows[x].username == username;
      }
      if id :| id in rows && rows[id].username == username {
        assert id in ids;
      }
    }
    exists id :: id in rows && rows[id].username == username
  }

  /** `findByEmail`. */
  function FindByEmail(rows: Rows, email: Option<string>): (r: Lookup<User>)
    ensures r.NotFound? <==> forall id :: id in rows ==> rows[id].email != email
    ensures r.Found? <==> |EmailMatches(rows, email)| == 1
    ensures r.Found? ==> r.value in rows.Values && r.value.email == email
  {
    var ids := EmailMatches(rows, email);
    assert ids == {} <==> forall id :: id in rows ==> rows[id].email != email by {
      if ids == {} {
        forall id | id in rows
          ensures rows[id].email != email
        {
          assert id !in ids;
        }
      } else {
        NonEmpty(ids);
        var x :| x in ids;
        assert x in rows;
      }
    }
    Single(rows, ids)
  }

  /** `findByUsername`. */
  function FindByUsername(rows: Rows, username: Option<string>): (r: Lookup<User>)
    ensures r.NotFound? <==> forall id :: id in rows ==> rows[id].username != username
    ensures r.Found? <==> |UsernameMatches(rows, username)| == 1
    ensures r.Found? ==> r.value in rows.Values && r.value.username == username
  {
    var ids := UsernameMatches(rows, username);
    assert ids == {} <==> forall id :: id in rows ==> rows[id].username != username by {
      if ids == {} {
        forall id | id in rows
          ensures rows[id].username != username
        {
          assert id !in ids;
        }
      } else {
        NonEmpty(ids);
        var x :| x in ids;
        assert x in rows;
      }
    }
    Single(rows, ids)
  }

  /** `findByProviderAndProviderId`. */
  function FindByProviderAndProviderId(rows: Rows, provider: Option<string>, providerId: Option<string>): (r: Lookup<User>)
    ensures r.NotFound? <==> forall id :: id in rows ==> rows[id].provider != provider || rows[id].providerId != providerId
    ensures r.Found? <==> |ProviderMatches(rows, provider, providerId)| == 1
    ensures r.Found? ==> r.value in rows.Values && r.value.provider == provider && r.value.providerId == providerId
  {
    var ids := ProviderMatches(rows, provider, providerId);
    assert ids == {} <==> forall id :: id in rows ==> rows[id].provider != provider || rows[id].providerId != providerId by {
      if ids == {} {
        forall id | id in rows
          ensures rows[id].provider != provider || rows[id].providerId != providerId
        {
          assert id !in ids;
        }
      } else {
        NonEmpty(ids);
        var x :| x in ids;
        assert x in rows;
      }
    }
    Single(rows, ids)
  }

  /** `existsByEmail` answers yes exactly when `findByEmail` does not come
      back empty (it may still fail on several rows). */
  lemma ExistsByEmailIffFound(rows: Rows, email: Option<string>)
    ensures ExistsByEmail(rows, email) <==> !FindByEmail(rows, email).NotFound?
  {
  }

  /** `existsByUsername` answers yes exactly when `findByUsername` does not
      come back empty (it may still fail on several rows). */
  lemma ExistsByUsernameIffFound(rows: Rows, username: Option<string>)
    ensures ExistsByUsername(rows, username) <==> !FindByUsername(rows, username).NotFound?
  {
  }

  /** The unique index makes `findByProviderAndProviderId` with a non-null
      pair a lookup that never fails: it finds the one row holding that
      pair, or nothing. */
  lemma {:induction false} ProviderLookupNeverAmbiguous(rows: Rows, provider: string, providerId: string)
    requires WellFormed(rows)
    ensures var r := FindByProviderAndProviderId(rows, Some(provider), Some(providerId));
      !r.NotUnique? &&
      (r.Found? <==> exists id :: id in rows && rows[id].provider == Some(provider) && rows[id].providerId == Some(providerId))
  {
    var ids := ProviderMatches(rows, Some(provider), Some(providerId));
    if ids != {} {
      NonEmpty(ids);
    }
    if id :| id in rows && rows[id].provider == Some(provider) && rows[id].providerId == Some(providerId) {
      assert id in ids;
    }
    if |ids| > 1 {
      assert ids != {};
      NonEmpty(ids);
      var a :| a in ids;
      assert |ids - {a}| == |ids| - 1;
      NonEmpty(ids - {a});
      var b :| b in ids - {a};
      assert SameProviderKey(rows[a], rows[b]);
      assert false;
    }
  }

  /** `countByStatus`. */
  function CountByStatus(rows: Rows, status: Status): (n: nat)
    ensures n <= |rows|
    ensures n == 0 <==> forall id :: id in rows ==> rows[id].status != status
  {
    var ids := StatusMatches(rows, status);
    assert ids <= rows.Keys;
    SubsetCard(ids, rows.Keys);
    assert |rows.Keys| == |rows|;
    if ids != {} then
      NonEmpty(ids);
      |ids|
    else
      assert forall id :: id in rows ==> id !in ids;
      0
  }

  lemma SubsetCard(a: set<Uuid>, b: set<Uuid>)
    requires a <= b
    ensures |a| <= |b|
  {
    assert b == a + (b - a);
  }

  /** `r` holds exactly the rows with the keys `ids`, each once. */
  predicate Lists(rows: Rows, ids: set<Uuid>, r: seq<User>)
    requires ids <= rows.Keys
  {
    && |r| == |ids|
    && (forall u :: u in r ==> u.id.Some? && u.id.value in ids && rows[u.id.value] == u)
    && (forall id :: id in ids ==> rows[id] in r)
    && (forall i, j :: 0 <= i < j < |r| ==> r[i] != r[j])
  }

  /** The rows of a query without `ORDER BY` (a `Flux<User>`): exactly the
      matching rows, each once, in an unspecified order. */
  method Collect(rows: Rows, ids: set<Uuid>) returns (r: seq<User>)
    requires KeyedById(rows) && ids <= rows.Keys
    ensures Lists(rows, ids, r)
  {
    var remaining := ids;
    ghost var done: set<Uuid> := {};
    r := [];
    while remaining != {}
      invariant remaining <= ids && done == ids - remaining
      invariant |r| == |done|
      invariant forall u :: u in r ==> u.id.Some? && u.id.value in done && rows[u.id.value] == u
      invariant forall id :: id in done ==> rows[id] in r
      invariant forall i, j :: 0 <= i < j < |r| ==> r[i] != r[j]
      decreases remaining
    {
      NonEmpty(remaining);
      var id :| id in remaining;
      assert rows[id] !in r;
      r := r + [rows[id]];
      remaining := remaining - {id};
      done := done + {id};
    }
  }

  /** `a` may come before `b` under `ORDER BY created_at DESC`, where
      PostgreSQL puts NULLs first. */
  predicate NewerOrSame(a: User, b: User) {
    a.createdAt.None? || (b.createdAt.Some? && a.createdAt.value >= b.createdAt.value)
  }

  predicate NewestFirst(r: seq<User>) {
    forall i, j :: 0 <= i < j < |r| ==> NewerOrSame(r[i], r[j])
  }

  /** Places `u` into a list ordered newest first, behind every row at
      least as new as it. */
  function InsertByCreatedAt(s: seq<User>, u: User): (r: seq<User>)
    ensures |r| == |s| + 1
    ensures forall x :: x in r <==> x in s || x == u
    ensures NewestFirst(s) ==> NewestFirst(r)
    ensures (forall i, j :: 0 <= i < j < |s| ==> s[i] != s[j]) && u !in s ==>
      forall i, j :: 0 <= i < j < |r| ==> r[i] != r[j]
  {
    if s == [] || !NewerOrSame(s[0], u) then
      [u] + s
    else
      var rest := InsertByCreatedAt(s[1..], u);
      assert forall x :: x in s[1..] ==> x in s;
      assert NewestFirst(s) ==> forall x :: x in rest ==> NewerOrSame(s[0], x);
      assert s[0] !in s[1..] && s[0] != u ==> s[0] !in rest;
      [s[0]] + rest
  }

  /** The rows of a query ending in `ORDER BY created_at DESC`: exactly the
      matching rows, each once, newest first. Rows with equal timestamps
      come in an unspecified order, as in PostgreSQL. */
  method OrderByCreatedAtDesc(rows: Rows, ids: set<Uuid>) returns (r: seq<User>)
    requires KeyedById(rows) && ids <= rows.Keys
    ensures Lists(rows, ids, r)
    ensures NewestFirst(r)
  {
    var remaining := ids;
    ghost var done: set<Uuid> := {};
    r := [];
    while remaining != {}
      invariant remaining <= ids && done == ids - remaining
      invariant |r| == |done|
      invariant forall u :: u in r ==> u.id.Some? && u.id.value in done && rows[u.id.value] == u
      invariant forall id :: id in done ==> rows[id] in r
      invariant forall i, j :: 0 <= i < j < |r| ==> r[i] != r[j]
      invariant NewestFirst(r)
      decreases remaining
    {
      NonEmpty(remaining);
      var id :| id in remaining;
      assert rows[id] !in r;
      r := InsertByCreatedAt(r, rows[id]);
      remaining := remaining - {id};
      done := done + {id};
    }
  }

  /** `findByStatus`: exactly the rows with that status; there are
      `countByStatus` of them. */
  method FindByStatus(rows: Rows, status: Status) returns (r: seq<User>)
    requires KeyedById(rows)
    ensures Lists(rows, StatusMatches(rows, status), r)
    ensures |r| == CountByStatus(rows, status)
    ensures forall i :: 0 <= i < |r| ==> r[i].status == status
  {
    r := Collect(rows, StatusMatches(rows, status));
  }

  /** `findByProvider`: exactly the rows of that provider. */
  method FindByProvider(rows: Rows, provider: Option<string>) returns (r: seq<User>)
    requires KeyedById(rows)
    ensures Lists(rows, ProviderOnlyMatches(rows, provider), r)
    ensures forall i :: 0 <= i < |r| ==> r[i].provider == provider
  {
    r := Collect(rows, ProviderOnlyMatches(rows, provider));
  }

  // ----- Writes shared by both repository interfaces -----

  /** A unique constraint the database enforces on insert: the primary key,
      or the partial unique index on `(provider, provider_id)`. */
  datatype StoreError = PrimaryKeyViolation | ProviderKeyViolation

  /** What a statement returning a row leaves behind: its result and the
      table afterwards. */
  datatype Write = Write(result: Result<User, StoreError>, rows: Rows)

  /** Every row satisfies the entity's `@Size` bounds. */
  predicate AllValid(rows: Rows) {
    forall id :: id in rows ==> UserModel.Valid(rows[id])
  }

  /** The rows that `u` would collide with on the provider index; a user
      without both provider fields collides with none. */
  function ConflictOf(rows: Rows, u: User): (ids: set<Uuid>)
    ensures forall id :: id in ids <==> id in rows && SameProviderKey(u, rows[id])
  {
    if HasProviderKey(u) then ProviderMatches(rows, u.provider, u.providerId) else {}
  }

  /** Under the provider index there is at most one such row. */
  lemma {:induction false} ConflictAtMostOne(rows: Rows, u: User)
    requires WellFormed(rows)
    ensures ConflictOf(rows, u) == {} || exists id :: ConflictOf(rows, u) == {id}
  {
    var ids := ConflictOf(rows, u);
    if ids != {} {
      NonEmpty(ids);
      var a :| a in ids;
      forall b | b in ids
        ensures b == a
      {
        if b != a {
          assert SameProviderKey(rows[a], rows[b]);
        }
      }
      assert ids == {a};
    }
  }

  /** `save` of a new entity (its id is null): an `INSERT` of the row under
      the id the database generates. It fails only when the provider index
      already holds the row's `(provider, provider_id)`; no other unique
      constraint of the table is part of this model. */
  function Inserted(rows: Rows, u: User, freshId: Uuid): (w: Write)
    requires freshId !in rows
  {
    if ConflictOf(rows, u) != {} then
      Write(Failure(ProviderKeyViolation), rows)
    else
      var row := u.(id := Some(freshId));
      Write(Success(row), rows[freshId := row])
  }

  /** `save` keeps the table's constraints, adds exactly one row on success
      and changes nothing on failure; a user without a provider binding is
      always saved. */
  lemma InsertedKeepsWellFormed(rows: Rows, u: User, freshId: Uuid)
    requires WellFormed(rows) && freshId !in rows
    ensures var w := Inserted(rows, u, freshId);
      && WellFormed(w.rows)
      && (w.result.Success? ==>
            w.result.value == u.(id := Some(freshId)) && w.rows == rows[freshId := w.result.value] &&
            |w.rows| == |rows| + 1)
      && (w.result.Failure? ==> w.rows == rows && w.result.error == ProviderKeyViolation)
      && (!HasProviderKey(u) ==> w.result.Success?)
  {
    var w := Inserted(rows, u, freshId);
    if w.result.Success? {
      var row := w.result.value;
      forall i, j | i in w.rows && j in w.rows && i != j
        ensures !SameProviderKey(w.rows[i], w.rows[j])
      {
        if i == freshId && SameProviderKey(row, w.rows[j]) {
          assert false;
        }
        if j == freshId && SameProviderKey(w.rows[i], row) {
          assert false;
        }
      }
    }
  }

  /** The five profile columns set by both the upsert's `DO UPDATE SET` and
      `updateUser`, with `updated_at = NOW()`. */
  function WithProfile(row: User, incoming: User, now: Instant): (r: User)
    ensures r.id == row.id && r.username == row.username && r.passwordHash == row.passwordHash
    ensures r.status == row.status && r.provider == row.provider && r.providerId == row.providerId
    ensures r.createdAt == row.createdAt
  {
    row.(email := incoming.email, fullName := incoming.fullName, headline := incoming.headline,
         profileLink := incoming.profileLink, headshot := incoming.headshot, updatedAt := Some(now))
  }

  /** Copying a valid profile onto a valid row gives a valid row. */
  lemma WithProfileValid(row: User, incoming: User, now: Instant)
    requires UserModel.Valid(row) && ProfileValid(incoming)
    ensures UserModel.Valid(WithProfile(row, incoming, now))
  {
  }
}
