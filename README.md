# hospi-lock service core in Dafny

hospi-lock is a drawer-lock system for hospitals. Its API keeps users, locks
and admins in Redis and writes every sign-in attempt to a log. Its web
dashboard shows that log with formatted timestamps. This project models the
API's service layer and the dashboard's time formatter, and proves
properties about them:

- **Authentication** (`hospi-lock-api/src/services/auth-service.ts`):
  - the email pattern `^[a-zA-Z0-9._-]+@[a-zA-Z0-9.-]+\.[a-zA-Z]{2,3}$`, as an executable matcher proved equal to the pattern read as a specification;
  - the existence checks for users (`user:{lowercase email}` in database 0) and admins (`admin:{email}` in database 1);
  - the role dispatch, the plain-text password check, the branches of the `verifyToken` middleware, the `checkRole` gate, and the payload `generateToken` signs.
- **Older authentication** (`hospi-lock-api/src/services/authService.ts`): `Authentication`, `VerifyExistence`, and its wider email pattern (top-level domain `{2,}`).
- **Users** (`database/user-service.ts`): fetching by email, listing and registering.
- **Admins** (`database/admin-service.ts`): registering, fetching and listing.
- **Locks** (`database/lock-service.ts`): registering a lock under a fresh id taken from `lock_id_counter`, lookups by id and by owner, the lock's IP, and assigning a lock to a user.
- **Sign-in log** (`database/log-service.ts`): the sorted set `logs` in database 1, scored by the time of the attempt. Also the stripping of the `::ffff:` prefix from IPv4-mapped addresses.
- **Time formatting** (`hospi-lock-web/src/app/helper/formatTime.ts`): `formatEpochTime` and its two-digit `pad`.

## How the model is built

- **The store.** Redis is the class `Store.Redis`. Its fields are:
  - `db0`: the user and lock hashes;
  - `counter`: `lock_id_counter`;
  - `db1`: the admin hashes;
  - `logs`: the sorted set.
- **Hashes.** Each hash is a `map<string, string>`.
  - `HGETALL` of a missing key is the empty map.
  - `HSET` merges fields into the hash.
  - `KEYS prefix*` is a set comprehension.
- **Store invariant.** `Store.Redis.Valid` holds three things:
  - no stored hash is empty;
  - every `lock:{n}` key names a number the counter has already issued;
  - the log is sorted by score, then by member text, holds no member twice, and stamps each entry with its score.
- **Reads and writes.**
  - A read-only service function is a Dafny function over the database maps.
  - The listings that loop over `KEYS` results (`GetAllUsersAsync`, `GetAllAdmins`, `GetAllLocks`) are methods with `while` loops. Their `ensures` say what they return. They have no `modifies` clause, so they cannot change the store.
  - A service function that writes is a method that `modifies` the store. Its reply equals a pure response function of the old state, and its `ensures` gives the whole new state.
- **Replies.** The `{success, message, statusCode, user?/lock?}` objects are `Models.Reply`. Messages and codes are the source's own, spelling included ("registeret", "succesfully").
- **JavaScript built-ins.** `toLowerCase`, `trim`, `startsWith`, `Number.prototype.toString` and `padStart` are written out in `JsStrings`.

## Model

| member | source | states |
|---|---|---|
| AuthService.EmailValidator | hospi-lock-api/src/services/auth-service.ts:150-153 | true exactly when the email splits into local part, `@`, domain, `.`, and a top-level domain of 2 or 3 letters, over the pattern's character classes |
| EmailPattern.AcceptsIffMatches | hospi-lock-api/src/services/auth-service.ts:151 | the matcher that splits at the first `@` and the last `.` accepts exactly the strings that have some split matching the pattern |
| EmailPattern.MatchHasOneAt | hospi-lock-api/src/services/auth-service.ts:151 | an accepted email contains exactly one `@` (neither character class admits it) |
| EmailPattern.WiderBoundAcceptsMore | hospi-lock-api/src/services/authService.ts:64-67 | whatever the `{2,3}` pattern accepts, the `{2,}` pattern accepts too |
| EmailPattern.AcceptsLower | hospi-lock-api/src/services/database/admin-service.ts:25-27 | lowercasing an email before validating it never changes the verdict |
| AuthService.CheckUserExistenceAsync | hospi-lock-api/src/services/auth-service.ts:67-86 | success iff a non-empty hash is stored under `user:` + the lowercased email; otherwise 400 "No registered user with that email"; on success 200 "OK" with each User field read from its hash field |
| AuthService.CheckAdminExistenceAsync | hospi-lock-api/src/services/auth-service.ts:89-104 | success iff a non-empty hash is stored under `admin:` + the email as given (no lowercasing); otherwise 400 "No registered admin with that email"; on success 200 "OK" with the admin's email and password |
| AuthService.CheckExistenceAsync | hospi-lock-api/src/services/auth-service.ts:40-64 | empty email gives 400 "Missing required field"; an invalid one 400 "Not a valid email"; a role other than user/admin 500 "Missing role"; a valid email with no record gives 400 "No registered user with that email" or "No registered admin with that email"; success iff the email is valid and the role's lookup finds a record, and then the reply is 200 "OK" carrying the account read from `user:{lowercase}` or `admin:{email}` |
| AuthService.RejectsBeforeAnyRead | hospi-lock-api/src/services/auth-service.ts:42-48 | a missing or malformed email gets a 400 whose content does not depend on what either database holds |
| AuthService.UserLookupIgnoresCase | hospi-lock-api/src/services/auth-service.ts:69 | two emails that lowercase alike get the same user lookup reply |
| AuthService.AuthenticationAsync | hospi-lock-api/src/services/auth-service.ts:16-37 | an existence failure is passed on with its code and message; after a successful lookup, success iff the stored password equals the one given, otherwise 401 "Invalid password"; success carries 200 "OK" and the account |
| AuthService.UserSignInIff | hospi-lock-api/src/services/auth-service.ts:16-86 | a user sign-in succeeds iff the email is non-empty and valid, a record exists under its lowercase key, and its `password` field equals the password |
| AuthService.GenerateTokenPayload | hospi-lock-api/src/services/auth-service.ts:136-140 | the payload carries the given email; it has a role exactly when the role argument is an enum key ("USER" or "ADMIN"), and then the lowercase role value |
| AuthService.Request.constructor | hospi-lock-api/src/services/auth-service.ts:108 | a request starts with its cookie token and no email or role |
| AuthService.VerifyToken | hospi-lock-api/src/services/auth-service.ts:107-123 | no or empty token: 403 "No token provided" and the request is unchanged; the verifier rejects: 500 "Failed to authenticate token"; otherwise the handler continues with the request's email and role set from the decoded claims |
| AuthService.CheckRole | hospi-lock-api/src/services/auth-service.ts:126-133 | the request passes iff its role equals the required one; otherwise 403 "Access denied" |
| AuthService.GeneratedTokenFailsEveryRoleGate | hospi-lock-api/src/services/auth-service.ts:136-147 | `Role[role]` with a role value is undefined, so the signed payload carries no role and a request bearing it is refused by every `checkRole` gate |
| LegacyAuthService.EmailValidator | hospi-lock-api/src/services/authService.ts:64-67 | true exactly when the email matches the pattern with a top-level domain of 2 or more letters |
| LegacyAuthService.AcceptsStrictSuperset | hospi-lock-api/src/services/authService.ts:64-67 | every email the current validator accepts is accepted here, and `a@b.info` is accepted here only |
| LegacyAuthService.Authentication | hospi-lock-api/src/services/authService.ts:7-35 | a missing email or password gives 400 "Missing required fields"; 200 iff the email is valid, the lowercase user record exists and the password matches; 401 "Invalid password" iff the record exists with another password; an invalid email gives 400 "Not a valid email", a missing record 400 "No registered user with that email", and a success 200 "OK" |
| LegacyAuthService.AcceptsWhatCurrentServiceAccepts | hospi-lock-api/src/services/authService.ts:7-35 | with a non-empty password, every user sign-in the current service accepts is accepted here too |
| LegacyAuthService.VerifyExistence | hospi-lock-api/src/services/authService.ts:38-61 | 400 for a missing or invalid email; success (200 "OK") iff a hash exists under the bare lowercased email, without the `user:` prefix; otherwise 400 "No registered user with that email" |
| LegacyAuthService.VerifyExistenceMissesRegisteredUsers | hospi-lock-api/src/services/authService.ts:48 | a registered user is reported missing when nothing is stored under the bare email |
| UserService.GetUserByEmailAsync | hospi-lock-api/src/services/database/user-service.ts:12-30 | success iff the lowercase user record exists; otherwise 400; on success 200 "User fetched", the email is the lowercased query, the fields are read from the hash and `lockId` is the stored one or "" |
| UserService.UserRecord | hospi-lock-api/src/services/database/user-service.ts:73-80 | the stored hash holds the lowercased email, the password, both names, the registration time and the lock id text or "", and no other field |
| UserService.AddUserResponse | hospi-lock-api/src/services/database/user-service.ts:61-83 | 409 "User already exists" iff a record is stored under the lowercased email, otherwise 201 "User created" |
| UserService.AddUserAsync | hospi-lock-api/src/services/database/user-service.ts:61-83 | replies as `AddUserResponse`; on success database 0 gains exactly the new record under `user:{lowercase email}`, otherwise nothing changes; the store invariant is kept |
| UserService.RegisteredUserIsFetched | hospi-lock-api/src/services/database/user-service.ts:12-30 | after a successful registration, fetching by any casing of the email returns the lowercase email, the password and both names as given |
| UserService.SecondRegistrationConflicts | hospi-lock-api/src/services/database/user-service.ts:65-69 | registering the same email again, in any casing, gets 409 "User already exists" |
| UserService.GetAllUsersAsync | hospi-lock-api/src/services/database/user-service.ts:32-59 | the result has exactly the `user:*` keys, each mapped to the User read from its hash |
| AdminService.AdminRecord | hospi-lock-api/src/services/database/admin-service.ts:15-18 | the stored admin hash has exactly the fields `email` (lowercased) and `password` |
| AdminService.AddAdminResponse | hospi-lock-api/src/services/database/admin-service.ts:7-21 | 409 "Admin already registered" iff a record exists under the lowercased email's admin key, otherwise 201 "Admin created" |
| AdminService.AddAdminAsync | hospi-lock-api/src/services/database/admin-service.ts:7-21 | replies as `AddAdminResponse`; on success database 1 gets the record under `admin:` + the email as given; nothing else changes; the store invariant is kept |
| AdminService.GetAdminByEmailAsync | hospi-lock-api/src/services/database/admin-service.ts:24-30 | the existence check on the lowercased email with the admin role: 400 for a missing or invalid email, success iff the lowercase admin key holds a record, and then the reply is 200 "OK" with its email and password |
| AdminService.MixedCaseAdminIsNeitherDeduplicatedNorFound | hospi-lock-api/src/services/database/admin-service.ts:8-15 | an admin with a mixed-case email is stored under a key the duplicate check never reads, so registering it again succeeds and it cannot be fetched by its email |
| AdminService.LowercaseAdminRoundTrip | hospi-lock-api/src/services/database/admin-service.ts:7-30 | a lowercase, valid admin email is fetched back with its password after registration, and a second registration gets 409 |
| AdminService.GetAllAdmins | hospi-lock-api/src/services/database/admin-service.ts:33-45 | the result has exactly the `admin:*` keys of database 1, each mapped to its raw hash |
| LockService.RegisteredLock | hospi-lock-api/src/services/database/lock-service.ts:16-30 | the registered lock has the new id as decimal text, the same ip and status, and its email lowercased when one is given |
| LockService.AddLockResponseCases | hospi-lock-api/src/services/database/lock-service.ts:14-35 | the reply of `addLock` fails with 400 "No registered user with that email" iff an owner email is given and no user record exists for its lowercase form; otherwise it is 201 "Lock registered" with the lock under id counter + 1 |
| LockService.NextIdIsFresh | hospi-lock-api/src/services/database/lock-service.ts:29-32 | when every stored lock id has been issued, `lock:{counter+1}` is not yet in use, and it stays true after storing it |
| LockService.AddLockResponse | hospi-lock-api/src/services/database/lock-service.ts:14-35 | a lock without an owner email is always registered; a success is 201 "Lock registered" carrying the lock with the next id |
| LockService.AddLock | hospi-lock-api/src/services/database/lock-service.ts:14-35 | replies as `AddLockResponse` (see `AddLockResponseCases`); on failure nothing changes; on success the counter rises by one, the new key was unused, the new id exceeds every existing one, and only the lock hash is written; the store invariant is kept |
| LockService.GetLockById | hospi-lock-api/src/services/database/lock-service.ts:65-73 | success iff `lock:{id}` holds a record; otherwise 400 "No lock with that id"; on success 200 "Lock fetched" with the hash |
| LockService.GetLockByEmail | hospi-lock-api/src/services/database/lock-service.ts:76-97 | 400 when no user record exists for the lowercased email; success iff the lock named by the user's `lock_id` (or `lock:undefined`) exists, else 400 "No lock registeret with that email"; on success 200 "Lock fetched" with that lock |
| LockService.GetLockIP | hospi-lock-api/src/services/database/lock-service.ts:100-109 | when `user:{lowercase}` exists and so does the lock hash its `lock_id` names, the `ip` field of that lock; otherwise "" |
| LockService.AssignedLockIPIsFound | hospi-lock-api/src/services/database/lock-service.ts:100-146 | after a lowercase email is assigned a lock, the IP looked up by that email is the assigned lock's `ip` |
| LockService.AddLockForUserResponse | hospi-lock-api/src/services/database/lock-service.ts:112-146 | the checks in order: no user 400, no lock 400, a lock whose email is non-blank 409 "User already registered for that lock", a user whose email is white space only 409 "User already have a registered lock"; success (201) iff all pass; every failure is 400 or 409 |
| LockService.AssignedRecords | hospi-lock-api/src/services/database/lock-service.ts:137-143 | the lock's `email` becomes the email as given and the user's `lock_id` becomes the id; every other field and key keeps its value |
| LockService.AddLockForUser | hospi-lock-api/src/services/database/lock-service.ts:112-146 | replies as `AddLockForUserResponse`; on success database 0 becomes `AssignedRecords`, otherwise nothing changes; the store invariant is kept |
| LockService.AssignmentKeepsStoreValid | hospi-lock-api/src/services/database/lock-service.ts:137-143 | the two writes leave no hash empty and add no lock id the counter has not issued |
| LockService.AssignedLockIsFoundByEmail | hospi-lock-api/src/services/database/lock-service.ts:76-146 | for a lowercase email, after a successful assignment the lookup by email returns exactly the lock the lookup by id returns, and both succeed |
| LockService.MixedCaseAssignmentMissesUserRecord | hospi-lock-api/src/services/database/lock-service.ts:141-143 | with a mixed-case email, `lock_id` is written under another key and the user's own record is left as it was |
| LockService.OwningALockDoesNotPreventAnother | hospi-lock-api/src/services/database/lock-service.ts:133-135 | a user who already has a `lock_id` is still assigned a second free lock, because the check tests the user's email and not its lock |
| LockService.GetAllLocks | hospi-lock-api/src/services/database/lock-service.ts:38-62 | the result has exactly the `lock:*` keys, each mapped to its id, ip and email (status dropped) |
| LogService.ParseIPAddress | hospi-lock-api/src/services/database/log-service.ts:69-76 | the result is a suffix of the input; with a `::ffff:` prefix the prefix plus the result is the input, without one the input is returned |
| LogService.ParseIPAddressUndoesPrefix | hospi-lock-api/src/services/database/log-service.ts:71-73 | parsing `::ffff:` + s gives s back, even when s itself starts with the prefix (only one is removed) |
| LogService.LogEntry | hospi-lock-api/src/services/database/log-service.ts:18-23 | the entry holds the time as decimal text, the email, the parsed IP and the sign-in outcome |
| LogService.AddingEntryKeepsLogsValid | hospi-lock-api/src/services/database/log-service.ts:27-32 | adding an entry stamped with its score keeps the log sorted, free of duplicates and stamped |
| LogService.LogMessage | hospi-lock-api/src/services/database/log-service.ts:11-40 | success "Log added succesfully" iff no step throws, else "Failed to log message"; the entry is in the sorted set iff the `ZADD` ran; nothing else changes; the store invariant is kept |
| LogService.GetAllLogs | hospi-lock-api/src/services/database/log-service.ts:43-66 | `[]` when a step throws, otherwise the stored entries in sorted-set order |
| LogService.LogsAreChronological | hospi-lock-api/src/services/database/log-service.ts:27-47 | the log reads back with numerically non-decreasing timestamps |
| LogService.LoggedEntryIsListed | hospi-lock-api/src/services/database/log-service.ts:27-47 | an entry that was added is listed by the next read |
| Store.ZRem | hospi-lock-api/src/services/database/log-service.ts:27-32 | removing a member keeps exactly the entries of other members and leaves a set without it unchanged |
| Store.ZRemSorted | hospi-lock-api/src/services/database/log-service.ts:27-32 | removing a member keeps the set in order |
| Store.ZRemDistinct | hospi-lock-api/src/services/database/log-service.ts:27-32 | removing a member keeps members distinct and shortens the set by one exactly when the member was there |
| Store.ZAdd | hospi-lock-api/src/services/database/log-service.ts:27-32 | after `ZADD` the entry is in the set, which grows by one when the member was absent |
| Store.ZAddSpec | hospi-lock-api/src/services/database/log-service.ts:27-32 | `ZADD` keeps the set sorted and duplicate-free, holds the new entry and every other old member, and grows by one unless the member was present |
| Store.HSet | hospi-lock-api/src/services/database/lock-service.ts:137-143 | `HSET` adds the key, sets the given fields, keeps the hash's other fields and leaves every other key alone |
| Store.UserKeysAreNotLockKeys | hospi-lock-api/src/services/database/user-service.ts:73 | a `user:` key is never the key of a numbered lock |
| Store.Redis.constructor | hospi-lock-api/src/services/database/database-service.ts:9-18 | a fresh store is empty, with the counter at 0, and satisfies the invariant |
| Models.UserFromHash | hospi-lock-api/src/services/auth-service.ts:76-83 | each User field is the hash field of its snake-case name, undefined when absent |
| Models.LockHash | hospi-lock-api/src/services/database/lock-service.ts:32 | the stored lock hash holds its ip, id, status (as decimal text) and email, and no field beyond those four |
| Models.AdminFromHash | hospi-lock-api/src/services/auth-service.ts:98-101 | the admin read from a hash carries that hash's `email` and `password` fields |
| JsStrings.Lower | hospi-lock-api/src/services/database/user-service.ts:13 | lowercasing keeps the length and maps each character to its lowercase form |
| JsStrings.LowerIdempotent | hospi-lock-api/src/services/database/lock-service.ts:17-18 | lowercasing twice equals lowercasing once |
| JsStrings.TrimEmptyIffBlank | hospi-lock-api/src/services/database/lock-service.ts:129-135 | `trim()` gives "" iff every character is white space |
| JsStrings.NatToString | hospi-lock-api/src/services/database/lock-service.ts:30 | the decimal text is non-empty digits with no leading zero |
| JsStrings.ValueOfNatToString | hospi-lock-api/src/services/database/log-service.ts:19 | reading the decimal text back gives the number |
| JsStrings.NatToStringInjective | hospi-lock-api/src/services/database/lock-service.ts:29-30 | different ids have different decimal texts |
| JsStrings.PadStart | hospi-lock-web/src/app/helper/formatTime.ts:7 | the result has the target width (or the original length if longer), ends with the original and is filled before it |
| FormatTime.Pad | hospi-lock-web/src/app/helper/formatTime.ts:7 | at least two characters; longer text is kept; for a non-negative number the result is digits whose value is the number, exactly two of them below 100 |
| FormatTime.FormatEpochTime | hospi-lock-web/src/app/helper/formatTime.ts:6-20 | for two-digit fields the time is `hh:mm:ss`, eight characters with ':' at positions 2 and 5, and the date has '-' at positions 2 and 5 |
| FormatTime.FormatEpochTimeRoundTrip | hospi-lock-web/src/app/helper/formatTime.ts:6-20 | for in-range calendar fields and a year from 0, the time has 8 characters and the date 6 plus the year's digits, and both read back as (hours, minutes, seconds) and (day, month index + 1, year) |

## Left out

- Failures of the Redis client and the `try`/`catch` blocks around them are not modelled for the user, admin, lock and authentication services. Their replies (500 "Internal server error", the thrown "Failed to fetch all users") therefore do not appear. The log service's failures are modelled as a `Fault` parameter.
- The database a connection has selected is not modelled. Database 0 and database 1 are separate fields. So the model does not show that a failed `ZADD` leaves the shared connection on database 1.
- `Promise.all` and the interleaving of concurrent requests are not modelled. Each operation runs as one atomic step. Two concurrent registrations racing past the existence check are therefore not captured.
- `jwt.sign` and `jwt.verify` (signatures, expiry, the secret) are not modelled. `verifyToken` takes the verifier as a function parameter. `generateToken` is modelled by the payload it signs.
- `Date.now()`, `new Date().toISOString()` and the `Date` getters (local time zone) are parameters.
- `JSON.stringify`/`JSON.parse` are not modelled: log members are stored as `Log` values. Their JSON text, used only to order entries with equal scores, is built without escaping.
- JsStrings.Lower: lowercases ASCII letters only. `toLowerCase` also folds other Unicode letters. This carries over to EmailPattern.AcceptsLower and to the email check in AdminService.GetAdminByEmailAsync. For example, `"\u212A@b.com".toLowerCase()` is `"k@b.com"`: the source accepts that email and looks up `admin:k@b.com`, while the model answers 400 "Not a valid email".
- `database/lock-service.ts` (lines 18, 78 and 113) calls `AuthService.CheckUserExistence`, which `auth-service.ts` does not define. As written the source would throw a `TypeError` there. The model calls `CheckUserExistenceAsync`, the function the name evidently means.
- `auth-service.ts:3` and `database/admin-service.ts:1` import `RedisClientDb0`/`RedisClientDb1` from `services/database-service.ts`, which exports only `RedisClient`. The split into database 0 and database 1 follows `services/database/database-service.ts`.
- A sorted-set score is an unbounded integer. In Redis it is a double, which is exact for millisecond timestamps.
- `addLock` mutates the caller's lock object in place, and that aliasing is not modelled. The model returns the updated lock as a new value.
- Lock fields that are `undefined` are not written to the hash.
- The routes, the controllers that call the lock over HTTP (`lock-service.ts` and `lock-controller.ts` outside `database/`), the deprecated endpoints and the web components other than `formatTime.ts` are not part of this model.
