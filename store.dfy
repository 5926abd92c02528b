/** The `users` table as the services see it: one mutable store that the
    repository's writing statements change in place and its queries read.
    Each method changes the rows exactly as the statement's specification
    function says, and keeps the table's constraints. */
module Store {
  import opened Common
  import opened UserModel
  import opened Table
  import CustomUserRepository
  import UserRepository

  class UsersTable {
    /** The rows, keyed by id. */
    var rows: Rows

    /** The ids are keys and the provider index holds. */
    ghost predicate Valid()
      reads this
    {
      WellFormed(rows)
    }

    /** An empty table. */
    constructor()
      ensures Valid() && rows == map[]
    {
      rows := map[];
    }

    /** `save` of a user without an id: an `INSERT` under the id the
        database generates, `freshId`. */
    method Save(u: User, freshId: Uuid) returns (r: Result<User, StoreError>)
      requires Valid() && u.id.None? && freshId !in rows
      modifies this
      ensures Valid()
      ensures Write(r, rows) == Inserted(old(rows), u, freshId)
    {
      InsertedKeepsWellFormed(rows, u, freshId);
      var w := Inserted(rows, u, freshId);
      rows := w.rows;
      r := w.result;
    }

    /** `upsertSocialUser`, with `freshId` the value of `gen_random_uuid()`
        and `now` the value of `NOW()`. */
    method UpsertSocialUser(u: User, freshId: Uuid, now: Instant) returns (r: Result<User, StoreError>)
      requires Valid() && freshId !in rows
      modifies this
      ensures Valid()
      ensures Write(r, rows) == CustomUserRepository.Upsert(old(rows), u, freshId, now)
    {
      CustomUserRepository.UpsertKeepsWellFormed(rows, u, freshId, now);
      var w := CustomUserRepository.Upsert(rows, u, freshId, now);
      rows := w.rows;
      r := w.result;
    }

    /** `updateUser`: the row it rewrote, if the user's id names one. */
    method UpdateUser(u: User, now: Instant) returns (r: Option<User>)
      requires Valid()
      modifies this
      ensures Valid()
      ensures UserRepository.Update(r, rows) == UserRepository.ProfileUpdated(old(rows), u, now)
    {
      UserRepository.ProfileUpdatedKeepsInvariants(rows, u, now);
      var w := UserRepository.ProfileUpdated(rows, u, now);
      rows := w.rows;
      r := w.result;
    }

    /** `updateStatus`. */
    method UpdateStatus(id: Uuid, status: Status, now: Instant)
      requires Valid()
      modifies this
      ensures Valid()
      ensures rows == UserRepository.StatusUpdated(old(rows), id, status, now)
    {
      UserRepository.StatusUpdatedKeepsInvariants(rows, id, status, now);
      rows := UserRepository.StatusUpdated(rows, id, status, now);
    }

    /** `softDeleteUser`. */
    method SoftDeleteUser(id: Uuid, now: Instant)
      requires Valid()
      modifies this
      ensures Valid()
      ensures rows == CustomUserRepository.SoftDeleted(old(rows), id, now)
    {
      UserRepository.SoftDeleteIsStatusUpdate(rows, id, now);
      UserRepository.StatusUpdatedKeepsInvariants(rows, id, Deleted, now);
      rows := CustomUserRepository.SoftDeleted(rows, id, now);
    }

    /** `deactivateExpiredPendingUsers`. */
    method DeactivateExpiredPendingUsers(now: Instant)
      requires Valid()
      modifies this
      ensures Valid()
      ensures rows == CustomUserRepository.Deactivated(old(rows), now)
    {
      CustomUserRepository.DeactivatedKeepsInvariants(rows, now);
      rows := CustomUserRepository.Deactivated(rows, now);
    }
  }
}
