/** The queries `UserRepository` writes out in SQL: the profile update, the
    status update and the two-field search. Its social-login upsert is the
    same statement as `CustomUserRepository.upsertSocialUser` and is
    modelled once, by `CustomUserRepository.Upsert`. */
module UserRepository {
  import opened Common
  import opened Text
  import opened UserModel
  import opened Table
  import CustomUserRepository

  // ----- updateUser -----

  /** What `updateUser` leaves behind: the returned row, if any, and the
      table afterwards. */
  datatype Update = Update(result: Option<User>, rows: Rows)

  /** `UPDATE users SET full_name, email, headline, profile_link, headshot,
      updated_at = NOW() WHERE id = :id RETURNING *`. A null id or an id with
      no row matches nothing, and the result is empty. */
  function ProfileUpdated(rows: Rows, u: User, now: Instant): Update {
    if u.id.Some? && u.id.value in rows then
      var row := WithProfile(rows[u.id.value], u, now);
      Update(Some(row), rows[u.id.value := row])
    else
      Update(None, rows)
  }

  /** `updateUser` rewrites the five profile columns of the row with the
      user's id and stamps it; the username, status, provider key, creation
      time and password hash stay, and no other row changes. An id that is
      null or not in the table returns nothing and changes nothing. */
  lemma ProfileUpdatedFrame(rows: Rows, u: User, now: Instant)
    ensures var w := ProfileUpdated(rows, u, now);
      if u.id.Some? && u.id.value in rows then
        var old_ := rows[u.id.value];
        && w.result.Some?
        && w.rows == rows[u.id.value := w.result.value]
        && var row := w.result.value;
        && row.id == old_.id && row.username == old_.username && row.status == old_.status
        && row.provider == old_.provider && row.providerId == old_.providerId
        && row.createdAt == old_.createdAt && row.passwordHash == old_.passwordHash
        && row.email == u.email && row.fullName == u.fullName && row.headline == u.headline
        && row.profileLink == u.profileLink && row.headshot == u.headshot
        && row.updatedAt == Some(now)
      else
        w == Update(None, rows)
  {
  }

  /** The profile update keeps the table's constraints (it never touches the
      key or the provider columns) and its `@Size` bounds when the incoming
      profile is within them. */
  lemma ProfileUpdatedKeepsInvariants(rows: Rows, u: User, now: Instant)
    ensures WellFormed(rows) ==> WellFormed(ProfileUpdated(rows, u, now).rows)
    ensures AllValid(rows) && ProfileValid(u) ==> AllValid(ProfileUpdated(rows, u, now).rows)
  {
    if u.id.Some? && u.id.value in rows && AllValid(rows) && ProfileValid(u) {
      var id := u.id.value;
      assert UserModel.Valid(rows[id]);
      WithProfileValid(rows[id], u, now);
    }
  }

  // ----- updateStatus -----

  /** `UPDATE users SET status = :status, updated_at = NOW() WHERE id = :id`.
      Any status is accepted, whatever the row's current one. */
  function StatusUpdated(rows: Rows, id: Uuid, status: Status, now: Instant): Rows {
    if id in rows then rows[id := rows[id].(status := status, updatedAt := Some(now))] else rows
  }

  /** The status update sets the row's status to the requested one from any
      status, `DELETED` included, stamps it and changes nothing else; a
      missing id changes nothing. */
  lemma StatusUpdatedFrame(rows: Rows, id: Uuid, status: Status, now: Instant)
    ensures var r := StatusUpdated(rows, id, status, now);
      && r.Keys == rows.Keys
      && (forall k :: k in rows && k != id ==> r[k] == rows[k])
      && (id in rows ==> r[id].status == status && r[id].updatedAt == Some(now) &&
                         r[id].(status := rows[id].status, updatedAt := rows[id].updatedAt) == rows[id])
      && (id !in rows ==> r == rows)
  {
  }

  /** The soft delete is the status update to `DELETED`. */
  lemma SoftDeleteIsStatusUpdate(rows: Rows, id: Uuid, now: Instant)
    ensures CustomUserRepository.SoftDeleted(rows, id, now) == StatusUpdated(rows, id, Deleted, now)
  {
  }

  /** Both status writes keep the table's constraints and `@Size` bounds. */
  lemma StatusUpdatedKeepsInvariants(rows: Rows, id: Uuid, status: Status, now: Instant)
    ensures WellFormed(rows) ==> WellFormed(StatusUpdated(rows, id, status, now))
    ensures AllValid(rows) ==> AllValid(StatusUpdated(rows, id, status, now))
  {
  }

  // ----- searchUsers -----

  /** The `WHERE` clause of this `searchUsers`: full name or email only. */
  predicate MatchesNameOrEmail(u: User, term: Option<string>) {
    CustomUserRepository.FieldLike(u.fullName, term) || CustomUserRepository.FieldLike(u.email, term)
  }

  function NameOrEmailMatches(rows: Rows, term: Option<string>): set<Uuid> {
    set id | id in rows && MatchesNameOrEmail(rows[id], term)
  }

  /** `searchUsers`: exactly the rows whose name or email matches, each
      once, newest first. */
  method SearchUsers(rows: Rows, term: Option<string>) returns (r: seq<User>)
    requires KeyedById(rows)
    ensures Lists(rows, NameOrEmailMatches(rows, term), r)
    ensures NewestFirst(r)
    ensures forall u :: u in r ==> MatchesNameOrEmail(u, term)
  {
    r := OrderByCreatedAtDesc(rows, NameOrEmailMatches(rows, term));
  }

  /** This search finds a subset of what the three-field search finds; the
      rows it misses are exactly those that match on the username alone. */
  lemma NameOrEmailSearchNarrower(rows: Rows, term: Option<string>)
    ensures NameOrEmailMatches(rows, term) <= CustomUserRepository.SearchMatches(rows, term)
    ensures forall id :: id in CustomUserRepository.SearchMatches(rows, term) - NameOrEmailMatches(rows, term) <==>
      id in rows && CustomUserRepository.FieldLike(rows[id].username, term) &&
      !CustomUserRepository.FieldLike(rows[id].fullName, term) && !CustomUserRepository.FieldLike(rows[id].email, term)
  {
    var wide := CustomUserRepository.SearchMatches(rows, term);
    var narrow := NameOrEmailMatches(rows, term);
    forall id | id in narrow
      ensures id in wide
    {
      assert CustomUserRepository.MatchesSearch(rows[id], term);
    }
    forall id
      ensures id in wide - narrow <==>
        id in rows && CustomUserRepository.FieldLike(rows[id].username, term) &&
        !CustomUserRepository.FieldLike(rows[id].fullName, term) && !CustomUserRepository.FieldLike(rows[id].email, term)
    {
      if id in rows {
        assert id in wide <==> CustomUserRepository.MatchesSearch(rows[id], term);
        assert id in narrow <==> MatchesNameOrEmail(rows[id], term);
      }
    }
  }

  /** For a term free of `LIKE` meta-characters, this search selects a user
      exactly when the lower-cased full name or email contains the
      lower-cased term. */
  lemma NameOrEmailSearchMeaning(u: User, t: string)
    requires NoLikeMeta(t)
    ensures MatchesNameOrEmail(u, Some(t)) <==>
      || (u.fullName.Some? && Contains(Lower(u.fullName.value), Lower(t)))
      || (u.email.Some? && Contains(Lower(u.email.value), Lower(t)))
  {
    CustomUserRepository.FieldLikeMeaning(u.fullName, t);
    CustomUserRepository.FieldLikeMeaning(u.email, t);
  }
}
