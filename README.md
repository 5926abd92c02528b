# EventLinkr user service — a Dafny model of the `users` table and its services

This project models the core of EventLinkr's user service: the `User` record
and its status enumeration, the `users` table and every statement the two
repository interfaces run against it, the two `UserService` variants that
create and update accounts on top of those statements, and the MapStruct
mapper between `User` and `UserDto`.

The table is a map from id to `User` (`Table.Rows`). Two constraints hold in
every state (`Table.WellFormed`): each row is stored under its own id, and no
two rows share a non-null `(provider, provider_id)` pair. The second is the
partial unique index that the upsert's `ON CONFLICT (provider, provider_id)
WHERE ...` clause names as its arbiter.

- `Mono` reads are functions over the rows: lookups by id, email, username
  and provider key, the existence checks and the count by status. A `Mono`
  query that matches several rows ends in an error, modelled as
  `Lookup.NotUnique`. `Flux` reads are methods that return a sequence: the
  two searches, the 30-day listing, `findByStatus` and `findByProvider`.
  The sequence holds exactly the selected rows, each once. Where the query
  has `ORDER BY created_at DESC` the rows come newest first, with `NULL`
  creation times first as in PostgreSQL.
- Each writing statement is a specification function from the old rows to
  the new rows and the statement's result. `Store.UsersTable` is the table
  as one mutable object. Its methods change `rows` exactly as those
  functions say, and they keep `WellFormed`.
- The services are classes holding a `UsersTable`. Each service method runs
  the source's steps in order: check, build the user, write. Its contract
  ties the result and the new table to a specification function. Lemmas
  about that function state what the service promises: when creation is
  refused, that a second creation with the same email fails, what an update
  keeps.
- `LOWER(x) LIKE LOWER(concat('%', :term, '%'))` is modelled as written.
  `Text.Like` is a `LIKE` matcher with `%`, `_` and the backslash escape.
  `Text.Lower` lower-cases ASCII letters. For a term without `LIKE`
  meta-characters, the lemmas prove this is case-insensitive substring
  containment. A null term gives the pattern `'%%'`, which matches every
  non-null field.

Time is an integer count of microseconds. Each call takes one `now` that
stands for every `NOW()` and `Instant.now()` reading it makes. The id that
`gen_random_uuid()` or the database generates is a parameter, `freshId`,
required not to be in the table.

What the code does, which a reader might not expect:
- The upsert's insert branch keeps the incoming user's status. It does not
  force `PENDING_VERIFICATION`.
- `updateStatus` and `softDeleteUser` accept any status change, including
  changes out of `DELETED`. There is no transition guard.
- The entity service's `createUser` checks only the email. Only the DTO
  service checks the username as well, and it sets `ACTIVE`, not
  `PENDING_VERIFICATION`.
- The uniqueness checks count `DELETED` rows like any other.
- The searches are not paginated.

## Model

| member | source | states |
|---|---|---|
| UserModel.ParseStatus | user-service/src/main/java/com/eventlinkr/userservice/domain/model/User.java:65-67 | a name parses to a status exactly when it is that status's label; any other name parses to none |
| UserModel.ParseName | user-service/src/main/java/com/eventlinkr/userservice/domain/model/User.java:65-67 | every status label parses back to its own status, so the five labels are distinct |
| UserModel.Values | user-service/src/main/java/com/eventlinkr/userservice/domain/model/User.java:65-67 | `values()` lists exactly five statuses, each once, each at its declaration position |
| UserModel.Build | user-service/src/main/java/com/eventlinkr/userservice/domain/model/User.java:48-49 | a status set on the builder is the built user's status |
| UserModel.DefaultStatus | user-service/src/main/java/com/eventlinkr/userservice/domain/model/User.java:48-49 | a user built without a status is `PENDING_VERIFICATION`, and the builder defaults nothing else |
| UserModel.Valid | user-service/src/main/java/com/eventlinkr/userservice/domain/model/User.java:25-46 | the `@Size` bounds: a non-null username has 3 to 50 characters, a non-null full name at most 100, headline at most 160, profile link and headshot at most 255; null fields pass. Kept by `CustomUserRepository.UpsertKeepsValid`, `Table.WithProfileValid`, `UserRepository.StatusUpdatedKeepsInvariants` and `CustomUserRepository.DeactivatedKeepsInvariants` |
| UserMapper.UserToUserDto | user-service/domain/mapper/UserMapper.java:13-14 | the DTO carries the user's id, username, email and both timestamps unchanged, and its status wrapped as always present |
| UserMapper.UserDtoToUser | user-service/domain/mapper/UserMapper.java:16-21 | the mapped user is always `ACTIVE` |
| UserMapper.UserToUserDtoCopies | user-service/domain/mapper/UserMapper.java:13-14 | users that agree on id, username, email, status and timestamps map to the same DTO: password hash and profile never reach it |
| UserMapper.UserDtoToUserIgnores | user-service/domain/mapper/UserMapper.java:16-20 | only the DTO's username and email matter; the user has no id, no timestamps, no password hash and is `ACTIVE` |
| UserMapper.EntityRoundTrip | user-service/domain/mapper/UserMapper.java:13-21 | entity to DTO and back keeps username and email and resets everything else |
| UserMapper.DtoRoundTrip | user-service/domain/mapper/UserMapper.java:13-21 | DTO to entity and back is the DTO with id and timestamps cleared and status `ACTIVE` |
| Text.Lower | user-service/src/main/java/com/eventlinkr/userservice/repository/CustomUserRepository.java:54-56 | `LOWER` keeps the length and lower-cases each character |
| Text.LowerIdempotent | user-service/src/main/java/com/eventlinkr/userservice/repository/CustomUserRepository.java:54-56 | lower-casing twice is lower-casing once |
| Text.LowerConcat | user-service/src/main/java/com/eventlinkr/userservice/repository/CustomUserRepository.java:54-56 | `LOWER` distributes over the `concat` of the pattern |
| Text.ContainsPattern | user-service/src/main/java/com/eventlinkr/userservice/repository/CustomUserRepository.java:54 | `concat('%', term, '%')` is exactly the term with one `%` before and one after it |
| Text.Like | user-service/src/main/java/com/eventlinkr/userservice/repository/CustomUserRepository.java:54-56 | SQL `LIKE`: `%` matches any run of characters, `_` any one character, a backslash makes the next character literal, anything else matches itself. Its meaning is stated by `Text.LikeTrailingPercent`, `Text.LikeLiteralPrefix`, `Text.LikeLeadingPercent` and `Text.ContainsPatternMeaning` |
| Text.LikeTrailingPercent | user-service/src/main/java/com/eventlinkr/userservice/repository/CustomUserRepository.java:54-56 | a pattern `%` matches every string |
| Text.LikeLiteralPrefix | user-service/src/main/java/com/eventlinkr/userservice/repository/CustomUserRepository.java:54-56 | a meta-free text followed by `%` matches exactly the strings it prefixes |
| Text.LikeLeadingPercent | user-service/src/main/java/com/eventlinkr/userservice/repository/CustomUserRepository.java:54-56 | a leading `%` matches exactly when the rest matches some suffix |
| Text.ContainsPatternMeaning | user-service/src/main/java/com/eventlinkr/userservice/repository/CustomUserRepository.java:54-56 | for a meta-free term, `LIKE '%term%'` holds exactly when the string contains the term |
| Text.LowerContainsPattern | user-service/src/main/java/com/eventlinkr/userservice/repository/CustomUserRepository.java:54-56 | lower-casing the pattern leaves the `%` signs and lower-cases the term |
| Text.LowerKeepsNoLikeMeta | user-service/src/main/java/com/eventlinkr/userservice/repository/CustomUserRepository.java:54-56 | lower-casing a meta-free term adds no `LIKE` meta-character |
| Table.FindById | user-service/src/main/java/com/eventlinkr/userservice/repository/UserRepository.java:16 | `findById` finds a row exactly when the id is in the table, and it is the row stored under that id |
| Table.WellFormed | user-service/src/main/java/com/eventlinkr/userservice/repository/CustomUserRepository.java:135-136 | every state of the table: each row is stored under its own id, and no two rows share a non-null `(provider, provider_id)` pair. Kept by every write: `Table.InsertedKeepsWellFormed`, `CustomUserRepository.UpsertKeepsWellFormed`, `UserRepository.ProfileUpdatedKeepsInvariants`, `UserRepository.StatusUpdatedKeepsInvariants`, `CustomUserRepository.DeactivatedKeepsInvariants` |
| Table.ExistsByEmail | user-service/src/main/java/com/eventlinkr/userservice/repository/CustomUserRepository.java:35 | `existsByEmail` is true exactly when the set of rows with that email (`IS NULL` for a null email) is non-empty |
| Table.ExistsByUsername | user-service/src/main/java/com/eventlinkr/userservice/repository/CustomUserRepository.java:42 | `existsByUsername` is true exactly when the set of rows with that username is non-empty |
| Table.FindByEmail | user-service/src/main/java/com/eventlinkr/userservice/repository/CustomUserRepository.java:21 | empty exactly when no row has the email; found exactly when one row has it, and then that row; otherwise not unique |
| Table.FindByUsername | user-service/src/main/java/com/eventlinkr/userservice/repository/CustomUserRepository.java:28 | empty exactly when no row has the username; found exactly when one row has it, and then that row; otherwise not unique |
| Table.FindByProviderAndProviderId | user-service/src/main/java/com/eventlinkr/userservice/repository/CustomUserRepository.java:67 | empty exactly when no row has the provider pair; found exactly when one row has it, and then that row; otherwise not unique |
| Table.ExistsByEmailIffFound | user-service/src/main/java/com/eventlinkr/userservice/repository/CustomUserRepository.java:21-35 | `existsByEmail` is true exactly when `findByEmail` does not come back empty |
| Table.ExistsByUsernameIffFound | user-service/src/main/java/com/eventlinkr/userservice/repository/CustomUserRepository.java:28-42 | `existsByUsername` is true exactly when `findByUsername` does not come back empty |
| Table.ProviderLookupNeverAmbiguous | user-service/src/main/java/com/eventlinkr/userservice/repository/CustomUserRepository.java:67 | under the provider index, a non-null provider key finds at most one row, so the lookup never fails on several rows |
| Table.CountByStatus | user-service/src/main/java/com/eventlinkr/userservice/repository/CustomUserRepository.java:88 | the count is at most the table size and is zero exactly when no row has the status |
| Table.OrderByCreatedAtDesc | user-service/src/main/java/com/eventlinkr/userservice/repository/CustomUserRepository.java:57 | `ORDER BY created_at DESC` lists exactly the selected rows, each once, newest first with nulls first |
| Table.FindByStatus | user-service/src/main/java/com/eventlinkr/userservice/repository/CustomUserRepository.java:81-88 | `findByStatus` lists exactly the rows with that status, and their number is `countByStatus` |
| Table.FindByProvider | user-service/src/main/java/com/eventlinkr/userservice/repository/CustomUserRepository.java:74 | `findByProvider` lists exactly the rows with that provider |
| Table.ConflictOf | user-service/src/main/java/com/eventlinkr/userservice/repository/CustomUserRepository.java:135-136 | the conflict target holds exactly the rows sharing the user's non-null provider key |
| Table.ConflictAtMostOne | user-service/src/main/java/com/eventlinkr/userservice/repository/CustomUserRepository.java:135-136 | under the provider index a user collides with at most one row |
| Table.Inserted | user-service/src/main/java/com/eventlinkr/userservice/repository/CustomUserRepository.java:15 | `save` of a user without an id: the `INSERT` under the generated id, refused with no change when the provider key is taken. Its properties are stated by `Table.InsertedKeepsWellFormed` |
| Table.InsertedKeepsWellFormed | user-service/src/main/java/com/eventlinkr/userservice/repository/CustomUserRepository.java:15 | `save` of a new user adds exactly that user under the generated id or, on a taken provider key, fails and changes nothing; the constraints hold after |
| Table.WithProfile | user-service/src/main/java/com/eventlinkr/userservice/repository/CustomUserRepository.java:137-143 | the profile overwrite never touches id, username, password hash, status, provider key or creation time |
| Table.WithProfileValid | user-service/src/main/java/com/eventlinkr/userservice/domain/model/User.java:25-46 | copying a profile within its `@Size` bounds onto a valid row keeps every bound |
| CustomUserRepository.SearchUsers | user-service/src/main/java/com/eventlinkr/userservice/repository/CustomUserRepository.java:52-59 | lists exactly the rows whose name, email or username matches the pattern, each once, newest first |
| CustomUserRepository.FieldLike | user-service/src/main/java/com/eventlinkr/userservice/repository/CustomUserRepository.java:54-56 | one disjunct of the search: `LOWER(field) LIKE LOWER(concat('%', term, '%'))`, false for a null field. Its meaning is stated by `CustomUserRepository.FieldLikeMeaning` and `CustomUserRepository.SearchWithoutTerm` |
| CustomUserRepository.MatchesSearch | user-service/src/main/java/com/eventlinkr/userservice/repository/CustomUserRepository.java:54-56 | the search's `WHERE`: full name, email or username matches. Its meaning is stated by `CustomUserRepository.SearchMeaning` and `CustomUserRepository.SearchIgnoresCase` |
| CustomUserRepository.FieldLikeMeaning | user-service/src/main/java/com/eventlinkr/userservice/repository/CustomUserRepository.java:54-56 | for a meta-free term a field matches exactly when it is non-null and its lower-cased text contains the lower-cased term |
| CustomUserRepository.SearchMeaning | user-service/src/main/java/com/eventlinkr/userservice/repository/CustomUserRepository.java:52-59 | the three-field search selects a user exactly when one of its non-null name, email or username contains the term, ignoring case |
| CustomUserRepository.SearchIgnoresCase | user-service/src/main/java/com/eventlinkr/userservice/repository/CustomUserRepository.java:54-56 | a term and its lower-cased form select the same rows |
| CustomUserRepository.SearchWithoutTerm | user-service/src/main/java/com/eventlinkr/userservice/repository/CustomUserRepository.java:54-56 | a null term selects every row with a non-null name, email or username |
| CustomUserRepository.FindRecentlyRegisteredUsers | user-service/src/main/java/com/eventlinkr/userservice/repository/CustomUserRepository.java:96-97 | lists exactly the rows created less than 30 days ago, each once, newest first |
| CustomUserRepository.InsertedRow | user-service/src/main/java/com/eventlinkr/userservice/repository/CustomUserRepository.java:116-134 | the row the upsert's `INSERT` branch writes: the given or generated id, the given creation time or now, `updated_at` now, no password hash. Stated by `CustomUserRepository.UpsertWithoutConflict` |
| CustomUserRepository.Upsert | user-service/src/main/java/com/eventlinkr/userservice/repository/CustomUserRepository.java:115-146 | the social upsert: a collision on the provider index overwrites that row's profile, otherwise the row is inserted unless its id is taken. Its properties are stated by `CustomUserRepository.UpsertOnConflict`, `UpsertWithoutConflict`, `UpsertKeepsWellFormed`, `UpsertKeepsValid`, `UpsertTwice` and `UpsertWithoutProviderKeyInserts` |
| CustomUserRepository.UpsertOnConflict | user-service/src/main/java/com/eventlinkr/userservice/repository/CustomUserRepository.java:135-143 | on a provider collision exactly the five profile fields (null included) and `updated_at` change; id, username, status, provider key, creation time and password hash stay, and no other row changes |
| CustomUserRepository.UpsertWithoutConflict | user-service/src/main/java/com/eventlinkr/userservice/repository/CustomUserRepository.java:115-134 | without a collision one row is added under the given or generated id, created at the given time or now, updated now, without password hash; a taken id fails and changes nothing |
| CustomUserRepository.UpsertKeepsWellFormed | user-service/src/main/java/com/eventlinkr/userservice/repository/CustomUserRepository.java:135-136 | after the upsert no two rows share a non-null provider key and every row is under its id |
| CustomUserRepository.UpsertKeepsValid | user-service/src/main/java/com/eventlinkr/userservice/repository/CustomUserRepository.java:115-146 | upserting a user within the `@Size` bounds keeps every row within them |
| CustomUserRepository.UpsertTwice | user-service/src/main/java/com/eventlinkr/userservice/repository/CustomUserRepository.java:115-146 | upserting the same social profile again returns the same row, adds no row and only moves `updated_at` |
| CustomUserRepository.UpsertWithoutProviderKeyInserts | user-service/src/main/java/com/eventlinkr/userservice/repository/CustomUserRepository.java:135-136 | a user with a null provider or provider id and no id always takes the insert path and adds a row |
| CustomUserRepository.SoftDeleted | user-service/src/main/java/com/eventlinkr/userservice/repository/CustomUserRepository.java:155-156 | the soft delete's `UPDATE`: the row with the id becomes `DELETED` and is stamped. Stated by `CustomUserRepository.SoftDeleteFrame` and `UserRepository.SoftDeleteIsStatusUpdate` |
| CustomUserRepository.ExpiredPending | user-service/src/main/java/com/eventlinkr/userservice/repository/CustomUserRepository.java:167-168 | the sweep's `WHERE`: pending verification and created more than 24 hours before now; a null creation time never qualifies. Stated by `CustomUserRepository.SweepAtTwentyFourHours` |
| CustomUserRepository.Deactivated | user-service/src/main/java/com/eventlinkr/userservice/repository/CustomUserRepository.java:164-170 | the sweep's bulk `UPDATE` over every row. Its properties are stated by `CustomUserRepository.DeactivatedExactly`, `DeactivatedIdempotent` and `DeactivatedKeepsInvariants` |
| CustomUserRepository.SoftDeleteFrame | user-service/src/main/java/com/eventlinkr/userservice/repository/CustomUserRepository.java:155-156 | the soft delete marks that one row `DELETED` and stamps it, changes nothing else and removes no row; a missing id changes nothing |
| CustomUserRepository.DeactivatedExactly | user-service/src/main/java/com/eventlinkr/userservice/repository/CustomUserRepository.java:164-170 | the sweep changes exactly the pending rows created more than 24 hours ago, to `INACTIVE` stamped now, and leaves none behind |
| CustomUserRepository.DeactivatedIdempotent | user-service/src/main/java/com/eventlinkr/userservice/repository/CustomUserRepository.java:164-170 | a second sweep at the same instant changes nothing |
| CustomUserRepository.DeactivatedKeepsInvariants | user-service/src/main/java/com/eventlinkr/userservice/repository/CustomUserRepository.java:164-170 | the sweep keeps the table constraints and the `@Size` bounds |
| CustomUserRepository.SweepAtTwentyFourHours | user-service/src/main/java/com/eventlinkr/userservice/repository/CustomUserRepository.java:168 | a pending account 25 hours old is deactivated and one 23 hours old is not |
| UserRepository.ProfileUpdated | user-service/src/main/java/com/eventlinkr/userservice/repository/UserRepository.java:32-43 | the profile `UPDATE ... RETURNING *` on the row with the user's id. Stated by `UserRepository.ProfileUpdatedFrame` and `UserRepository.ProfileUpdatedKeepsInvariants` |
| UserRepository.ProfileUpdatedFrame | user-service/src/main/java/com/eventlinkr/userservice/repository/UserRepository.java:32-43 | `updateUser` overwrites exactly the five profile fields and `updated_at` of the row with the user's id and returns it; a null or missing id returns nothing and changes nothing |
| UserRepository.ProfileUpdatedKeepsInvariants | user-service/src/main/java/com/eventlinkr/userservice/repository/UserRepository.java:32-43 | `updateUser` keeps the table constraints, and the `@Size` bounds when the new profile is within them |
| UserRepository.StatusUpdated | user-service/src/main/java/com/eventlinkr/userservice/repository/UserRepository.java:84-85 | the status `UPDATE` on the row with the id. Stated by `UserRepository.StatusUpdatedFrame` and `UserRepository.StatusUpdatedKeepsInvariants` |
| UserRepository.StatusUpdatedFrame | user-service/src/main/java/com/eventlinkr/userservice/repository/UserRepository.java:84-85 | `updateStatus` sets any status from any status and stamps the row, changing nothing else; a missing id changes nothing |
| UserRepository.SoftDeleteIsStatusUpdate | user-service/src/main/java/com/eventlinkr/userservice/repository/CustomUserRepository.java:155-156 | the soft delete is `updateStatus` to `DELETED` |
| UserRepository.StatusUpdatedKeepsInvariants | user-service/src/main/java/com/eventlinkr/userservice/repository/UserRepository.java:84-85 | status updates keep the table constraints and the `@Size` bounds |
| UserRepository.MatchesNameOrEmail | user-service/src/main/java/com/eventlinkr/userservice/repository/UserRepository.java:92-93 | this search's `WHERE`: full name or email matches. Stated by `UserRepository.NameOrEmailSearchMeaning` and `UserRepository.NameOrEmailSearchNarrower` |
| UserRepository.SearchUsers | user-service/src/main/java/com/eventlinkr/userservice/repository/UserRepository.java:90-96 | lists exactly the rows whose name or email matches, each once, newest first |
| UserRepository.NameOrEmailSearchNarrower | user-service/src/main/java/com/eventlinkr/userservice/repository/UserRepository.java:90-96 | the two-field search finds a subset of the three-field one, missing exactly the rows that match on username alone |
| UserRepository.NameOrEmailSearchMeaning | user-service/src/main/java/com/eventlinkr/userservice/repository/UserRepository.java:92-93 | for a meta-free term a user matches exactly when its non-null name or email contains the term, ignoring case |
| Store.UsersTable.Save | user-service/src/main/java/com/eventlinkr/userservice/repository/CustomUserRepository.java:15 | `save` of a user without id changes the table as the insert specification says and keeps its constraints |
| Store.UsersTable.UpsertSocialUser | user-service/src/main/java/com/eventlinkr/userservice/repository/UserRepository.java:48-79 | the upsert changes the table as the upsert specification says and keeps its constraints |
| Store.UsersTable.UpdateUser | user-service/src/main/java/com/eventlinkr/userservice/repository/UserRepository.java:32-43 | the profile update changes the table as its specification says and keeps its constraints |
| Store.UsersTable.UpdateStatus | user-service/src/main/java/com/eventlinkr/userservice/repository/UserRepository.java:84-85 | the status update changes the table as its specification says and keeps its constraints |
| Store.UsersTable.SoftDeleteUser | user-service/src/main/java/com/eventlinkr/userservice/repository/CustomUserRepository.java:155-156 | the soft delete changes the table as its specification says and keeps its constraints |
| Store.UsersTable.DeactivateExpiredPendingUsers | user-service/src/main/java/com/eventlinkr/userservice/repository/CustomUserRepository.java:164-170 | the sweep changes the table as its specification says and keeps its constraints |
| UserService.Created | user-service/src/main/java/com/eventlinkr/userservice/service/UserService.java:23-35 | `createUser`: refused when the email is taken, otherwise the prepared user is saved. Stated by `UserService.CreatedOutcome`, `UserService.CreateTwiceFails` and `UserService.CreateAllowsTakenUsername` |
| UserService.CreatedOutcome | user-service/src/main/java/com/eventlinkr/userservice/service/UserService.java:23-35 | creation fails with "Email already exists" and changes nothing exactly when the email is taken; otherwise the caller's user is saved under the new id, stamped now and `PENDING_VERIFICATION`, unless its provider key is taken |
| UserService.CreateTwiceFails | user-service/src/main/java/com/eventlinkr/userservice/service/UserService.java:24-27 | a second creation with the email of an account just created fails and leaves the table as it was |
| UserService.CreateAllowsTakenUsername | user-service/src/main/java/com/eventlinkr/userservice/service/UserService.java:23-33 | the username is not checked: a new email saves a second account with a taken username |
| UserService.CreatedFromRequest | user-service/src/main/java/com/eventlinkr/userservice/service/UserService.java:37-43 | `createUserFromRequest`: the built user is saved without any check. Stated by `UserService.CreatedFromRequestDrops` |
| UserService.CreatedFromRequestDrops | user-service/src/main/java/com/eventlinkr/userservice/service/UserService.java:37-43 | creation from a request fails only on a taken provider key; otherwise it stores username and provider key, `PENDING_VERIFICATION`, stamped now, and drops email, password and full name |
| UserService.UserUpdated | user-service/src/main/java/com/eventlinkr/userservice/service/UserService.java:72-81 | `updateUser`: nothing for an unknown id, otherwise the repository update with the row's creation time and status. Stated by `UserService.UserUpdatedIsProfileUpdate` |
| UserService.UserUpdatedIsProfileUpdate | user-service/src/main/java/com/eventlinkr/userservice/service/UserService.java:72-81 | the service's update is the repository's profile update under the given id: a missing id returns nothing and changes nothing, and status, creation time and username are kept |
| UserService.UserService.CreateUser | user-service/src/main/java/com/eventlinkr/userservice/service/UserService.java:23-35 | the check-then-save sequence returns and leaves behind what the creation specification says |
| UserService.UserService.CreateUserFromRequest | user-service/src/main/java/com/eventlinkr/userservice/service/UserService.java:37-43 | the build-then-save sequence returns and leaves behind what its specification says |
| UserService.UserService.UpsertSocialUser | user-service/src/main/java/com/eventlinkr/userservice/service/UserService.java:48-52 | the service's upsert is the repository's upsert |
| UserService.UserService.FindById | user-service/src/main/java/com/eventlinkr/userservice/service/UserService.java:57-60 | a user is found exactly when the id is in the table, and it is the row stored under it |
| UserService.UserService.GetUserByProviderAndProviderId | user-service/src/main/java/com/eventlinkr/userservice/service/UserService.java:65-67 | the answer is the derived query's: empty exactly when no row has that provider key (a null component matching `IS NULL`), found exactly when one row has it, and then that row; a non-null key is never ambiguous |
| UserService.UserService.UpdateUser | user-service/src/main/java/com/eventlinkr/userservice/service/UserService.java:72-81 | find-then-update returns and leaves behind what the update specification says |
| UserService.UserService.SearchUsers | user-service/src/main/java/com/eventlinkr/userservice/service/UserService.java:86-90 | lists exactly the rows whose name or email matches, each once, newest first |
| UserService.UserService.UpdateUserStatus | user-service/src/main/java/com/eventlinkr/userservice/service/UserService.java:95-99 | any status change goes through unchecked, as the status update specification says |
| UserService.UserService.IsEmailAvailable | user-service/src/main/java/com/eventlinkr/userservice/service/UserService.java:104-106 | available exactly when no row has that email |
| UserService.UserService.IsUsernameAvailable | user-service/src/main/java/com/eventlinkr/userservice/service/UserService.java:111-113 | available exactly when no row has that username |
| UserDtoService.Created | user-service/service/UserService.java:20-43 | `createUser`: email checked first, then username, then the save and the mapping. Stated by `UserDtoService.CreatedOutcome`, `UserDtoService.CreateTwiceFails` and `UserDtoService.CreatedThenFound` |
| UserDtoService.CreatedOutcome | user-service/service/UserService.java:20-43 | creation succeeds exactly when neither email nor username is taken, reports a taken email first, changes nothing on failure, and on success adds one `ACTIVE` row with the hashed password and returns its DTO |
| UserDtoService.CreateTwiceFails | user-service/service/UserService.java:21-31 | repeating a creation with the same email, or the same username, fails with the matching message and changes nothing |
| UserDtoService.CreatedThenFound | user-service/service/UserService.java:40-48 | after a successful creation, `findByEmail` finds the account and returns the DTO the creation returned |
| UserDtoService.FindByEmailDto | user-service/service/UserService.java:45-48 | empty exactly when no row has the email; found exactly when one row has it, and then it is that row's DTO; otherwise not unique |
| UserDtoService.UserService.CreateUser | user-service/service/UserService.java:20-43 | the check-check-save-map sequence returns and leaves behind what the creation specification says |
| UserDtoService.UserService.FindByEmail | user-service/service/UserService.java:45-48 | empty exactly when no row has the email; found exactly when one row has it, and then it is the DTO of a row with that email; the answer is `FindByEmailDto` of the table |

## Left out

- Reactive plumbing: `Mono`/`Flux` chaining, logging and error callbacks are left out. Each call is one sequential step returning a value or an error.
- Concurrency: the race between an existence check and the insert after it, and the atomicity of the upsert, are outside a sequential model. Every statement is atomic.
- Unique constraints on `email` and `username`: the schema is not part of this model. The table therefore has no such constraint, and `save` never fails on one.
- Column defaults the schema may apply to null timestamps on insert are not modelled. The inserted row holds exactly the values written. UserDtoService.CreatedThenFound depends on this: `save` returns the entity without reading it back, so under such a default the DTO from the creation and the DTO `findByEmail` returns would differ in their timestamps.
- A null `status` is not representable: `User.status` is a non-null `Status`. So `updateStatus` with a null status, and an upsert or `save` of a user whose status is null, are not modelled.
- A null id passed to Spring's `findById` raises `IllegalArgumentException`. That error path is not modelled: ids are plain values, so the service's `findById` and `updateUser` always have an id to look up.
- A null id passed to `updateStatus` or `softDeleteUser` is not modelled either. Their `WHERE id = NULL` matches no row and leaves the table unchanged, but the model's ids are never null.
- UserModel.Valid: lengths are counted in Unicode characters, while Java's `@Size` counts UTF-16 code units (`String.length()`). A string with characters outside the Basic Multilingual Plane, such as emoji, can fall on the other side of a bound in the model than in Java.
- CustomUserRepository.FindRecentlyRegisteredUsers: the window `NOW() - INTERVAL '30 days'` is taken as 720 hours. PostgreSQL counts 30 calendar days in the session time zone, so across a daylight-saving change its cutoff differs from the model's by an hour. The 24-hour sweep uses `INTERVAL '24 hours'` and is not affected.
- `PasswordEncoder.encode` is an opaque function parameter of the DTO service. A null password is not modelled.
- `@Email` format validation uses a library regular expression and is not modelled. Only the `@Size` bounds are (`UserModel.Valid`).
- Text.Lower: lower-cases ASCII letters only. PostgreSQL's `LOWER` follows the database collation for other characters.
- Text.Like: an escape backslash at the very end of a pattern, which PostgreSQL rejects as an error, is treated as a literal backslash. `concat('%', term, '%')` never ends in a lone backslash, so the searches never reach that case.
- Store.UsersTable.Save: models only the insert path of `save`, for a user without an id, which is how every modelled caller uses it. `save` of a user with an id (an `UPDATE`) is not modelled.
- Rows returned with equal `created_at` come in an unspecified order. The search contracts promise only the newest-first order and the exact set of rows.
- `guest_expiration` is never read or written by the modelled code and is left out of `User`.
- The services change the caller's `User` object in place before saving it (`setId`, `setCreatedAt`, `setStatus`). The model passes users as values, so this aliasing is not captured.
- Controllers, exception handlers, application wiring and the request and DTO classes' annotation-driven validation are not modelled.
- A status-transition guard and pagination do not exist in the modelled code and are not added.
