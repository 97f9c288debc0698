# Student dashboard: authentication and password-change workflow in Dafny

This project models the server core and a few client-side filters of a student/admin dashboard (an Express and Mongoose server with a React client).

The server keeps three collections: Student, User (administrators) and PasswordRequest.

- **Password changes.** A student files a password-change request holding the hash of the new password. An admin approves the request, which overwrites the student's stored hash, or rejects it, which overwrites the reason. Either way the request leaves `pending` for good.
- **Route guards.** Every password-request route runs token verification first, then a role gate, then its handler.
- **Accounts.** Registration and login live in two controllers: the current one and a legacy one. The legacy one is the one the authentication router mounts.
- **Client.** The student search and course filter, the list of distinct courses, the request status filter with its badges and labels, and the password-change form's checks.

Conventions of the model:

- **Store.** The store is one `Db.Database` object. It holds three maps keyed by document id, plus an id counter. Every controller operation that writes is a method that `modifies` it and keeps `Valid()`. The logins and listings are methods that only read it, and the current-user view is a function of the attached record. `Valid()` says:
  - each document sits under its own id, and no id appears in two collections;
  - every stored request satisfies the lifecycle invariant `WellFormed`: pending exactly while unprocessed.
- **Lookups.** It is a modelling assumption that `Model.findOne` returns the first match in insertion order. With counter ids, that is the smallest matching id (`Db.FindFirst`, a loop proved against this definition). The registrations and the profile update only test whether a match exists. The logins compare the password against the one match `findOne` returns, so with duplicate emails their result depends on that choice.
- **Passwords.** bcrypt is an arbitrary function `hash`; `compare(p, h)` is `hash(p) == h`.
- **Tokens.** jsonwebtoken is a `Codec` pair.
  - `Faithful(codec)` states what a real signer guarantees: decoding an issued token gives its claims back.
  - Tokens expire `expiresIn` seconds after issue. The clock is a parameter `now`.
- **Missing fields.** A password that a request body may lack is an `Option`: bcrypt's `hash` and `compare` throw on `undefined`, so a missing password gives 500. Any other absent string field of a JSON body or a document is `""`. Where such a field is read through `||` or a mongoose `required` check, that is exact, because both treat `undefined` and `""` alike.

Facts about the code that shape the model:

- **Principal lookup.** Token verification looks up the principal in the Student collection only (`server/middlewares/verifyToken.js`, line 16). The import of the User model at line 2 is commented out.
  - `VerifyToken.NonStudentNotFound`: a live token for an administrator's User id gets 404.
  - `PasswordRequestRoutes.AdminRoutesNeedAdminStudent`: unless some Student record has role `"admin"`, every admin route answers with an error.
  - No registration in this code sets that role on a Student record.
- **Password length.** The server has no minimum-length check on a new password (`server/controllers/passwordRequestController.js`, lines 8-21). The only check is the client's (`PasswordChangeRequest.Validate`).
- **Listing all requests.** There is no server-side status filter. Filtering happens in the client (`PasswordRequestManagement.FilteredRequests`).

## Model

| member | source | states |
|---|---|---|
| Tokens.Sign | server/controllers/authController.js:35-41 | the claims name the user and carry the given role; the token is expired at a time exactly when that time is at least issue time plus the lifetime (24 hours or 1 hour at the call sites) |
| Tokens.Verify | server/middlewares/verifyToken.js:14 | succeeds exactly for a non-empty token that decodes to unexpired claims, and then returns those claims; a decodable expired token fails as Expired |
| Tokens.VerifyIssued | server/middlewares/verifyToken.js:14 | with a faithful signer, an issued token verifies to its own claims until its expiry and fails as Expired from then on |
| PasswordRequestModel.StatusName | server/models/passwordRequestModel.js:22-26 | the stored name is one of the three enum values, and it is "pending" exactly for Pending |
| PasswordRequestModel.MissingPaths | server/models/passwordRequestModel.js:5-21 | a required path is reported exactly when it is absent (or "" for a string path), and only the four required paths are reported |
| PasswordRequestModel.Create | server/models/passwordRequestModel.js:3-52 | creation fails exactly when a required path is missing and reports those paths; otherwise the record copies its inputs and gets the defaults: pending, no admin, reason "" unless given, requestedAt now, processedAt null; the result satisfies the lifecycle invariant |
| PasswordRequestModel.SettledTransitive | server/controllers/passwordRequestController.js:62-64 | the "processed requests never change and none disappear" relation composes over consecutive steps |
| Db.FindFirst | server/controllers/authController.js:18 | returns nothing exactly when no document matches; otherwise a matching id no larger than any other matching id |
| PasswordRequestController.InsertByDateSorted | server/controllers/passwordRequestController.js:37 | inserting one request into a newest-first sequence keeps it newest first |
| PasswordRequestController.InsertByDateIds | server/controllers/passwordRequestController.js:37 | insertion adds exactly the inserted request's id to the multiset of ids |
| PasswordRequestController.Query | server/controllers/passwordRequestController.js:128-129 | the result is newest first, holds only stored, selected requests, and has every selected id exactly once |
| PasswordRequestController.ListAll | server/controllers/passwordRequestController.js:34-48 | every stored request exactly once (a permutation of the table's ids), newest first, with no status filter |
| PasswordRequestController.Hide | server/controllers/passwordRequestController.js:130 | the view copies every field of the request (id, owner, name, email, status, admin, reason and times) except the hashed password, which it does not have |
| PasswordRequestController.ListMine | server/controllers/passwordRequestController.js:124-140 | exactly the caller's requests, each once, newest first, each the stored request without its hash |
| PasswordRequestController.Processed | server/controllers/passwordRequestController.js:72-77 | the new status, the admin's id and the time are written; the admin's name is written, or null when the admin has none; identity, owner, student name and email, request time, hash and reason are kept; the lifecycle invariant is preserved |
| PasswordRequestController.RequestPasswordChange | server/controllers/passwordRequestController.js:6-31 | a request is stored exactly when a password is given and the caller has a name and an email; the stored request holds the caller, the password's hash, status pending and the reason or "Password change requested"; otherwise 500 and nothing is stored; no student changes; other requests never block a new one |
| PasswordRequestController.Approve | server/controllers/passwordRequestController.js:51-86 | 404 for an unknown id and 400 for a processed request, both changing nothing; a pending request becomes approved with the caller and time, and its student's stored hash becomes the request's hash; nothing else changes |
| PasswordRequestController.Reject | server/controllers/passwordRequestController.js:89-121 | the same 404 and 400 outcomes; a pending request becomes rejected with the caller and time, and its reason becomes the admin's or "Request rejected by admin"; no student changes |
| RoleMiddleware.EffectiveRole | server/middlewares/roleMiddleware.js:8 | the role is the record's, or "student" when the record has none |
| RoleMiddleware.RequireRole | server/middlewares/roleMiddleware.js:2-18 | passes exactly when a principal is attached and its effective role is allowed; 401 without a principal, 403 for another role |
| RoleMiddleware.RequireAdmin | server/middlewares/roleMiddleware.js:21 | passes exactly principals with role "admin" |
| RoleMiddleware.RequireStudent | server/middlewares/roleMiddleware.js:24 | passes exactly principals with role "student" or no role |
| RoleMiddleware.RequireUser | server/middlewares/roleMiddleware.js:27 | passes exactly principals with role "admin", "student" or none |
| RoleMiddleware.GatesPartitionUsers | server/middlewares/roleMiddleware.js:21-27 | no principal passes both the admin and the student gate, and the user gate passes exactly those that one of them passes |
| VerifyToken.Split | server/middlewares/verifyToken.js:13 | at least one piece and no piece holds a space; a single piece exactly when the header has no space |
| VerifyToken.JoinSplit | server/middlewares/verifyToken.js:13 | joining the pieces with spaces gives back the header |
| VerifyToken.SplitWord | server/middlewares/verifyToken.js:13 | a space-free word followed by a space splits off as the first piece |
| VerifyToken.BearerToken | server/middlewares/verifyToken.js:13 | there is a token exactly when the header has a space, and the token has no space |
| VerifyToken.BearerTokenOf | server/middlewares/verifyToken.js:13 | the header "scheme token" yields the token, whatever the scheme word |
| VerifyToken.ErrorReply | server/middlewares/verifyToken.js:8-25 | an unknown user gets status 404 and every other failure gets 401 |
| VerifyToken.Resolve | server/middlewares/verifyToken.js:8-25 | a missing or empty header gives "No token provided" exactly; a header without a token field, or whose token fails verification, is refused as a bad token; verified claims yield the stored student with that id, or "User not found" when there is none |
| VerifyToken.ForgedRefused | server/middlewares/verifyToken.js:13-14 | a "scheme token" header whose token the signer cannot decode is refused as a bad token, whatever the store holds |
| VerifyToken.ResolveIssued | server/middlewares/verifyToken.js:13-20 | a live token issued by a faithful signer and sent as "scheme token" resolves to the student it names |
| VerifyToken.ExpiredRefused | server/middlewares/verifyToken.js:21-24 | an expired token is refused with 401, whoever it names |
| VerifyToken.NonStudentNotFound | server/middlewares/verifyToken.js:16-17 | a live token naming an id outside the Student collection gets 404 |
| VerifyToken.Handle | server/middlewares/verifyToken.js:8-25 | on success the request's user becomes the resolved student and control continues; otherwise the error reply is sent and the request is unchanged |
| PasswordRequestRoutes.GateRoles | server/routes/passwordRequestRoutes.js:15-21 | the two student routes use the student gate and the three admin routes the admin gate |
| PasswordRequestRoutes.EndpointOf | server/routes/passwordRequestRoutes.js:15-21 | the two reads are GET, approve and reject are PUT, and submitting is the only POST |
| PasswordRequestRoutes.EndpointsDistinct | server/routes/passwordRequestRoutes.js:15-21 | no two operations share a verb and path |
| PasswordRequestRoutes.Admit | server/routes/passwordRequestRoutes.js:15-21 | a verification failure answers first; otherwise the route's role gate decides |
| PasswordRequestRoutes.AdmittedRoles | server/routes/passwordRequestRoutes.js:15-21 | a principal reaching a handler is a stored student; for student routes its role is "student" or none, for admin routes "admin" |
| PasswordRequestRoutes.NoHeaderStopsFirst | server/routes/passwordRequestRoutes.js:15-21 | without a header every route answers 401 "No token provided", whatever role it requires |
| PasswordRequestRoutes.AdminRoutesNeedAdminStudent | server/routes/passwordRequestRoutes.js:19-21 | if no student record has role "admin", the admin routes never reach their handlers |
| PasswordRequestRoutes.Guard | server/routes/passwordRequestRoutes.js:15-21 | the handler runs exactly when the chain admits the request, with the admitted principal attached; otherwise the first failing guard's reply is sent |
| AuthController.RegisterStudent | server/controllers/authController.js:13-59 | an email already in Student gives 400 and creates nothing; a body without a password gives 500 and creates nothing; otherwise exactly one new student is stored, holding the password's hash and the course or "MERN Bootcamp", with a 24-hour "student" token; email uniqueness and stored hashes are preserved |
| AuthController.RegisterAdmin | server/controllers/authController.js:62-102 | only the User collection is checked for the email; a body without a password gives 500 and creates nothing; otherwise a new User with role "admin" and the password's hash, and a 24-hour "admin" token; User email uniqueness is preserved; students untouched |
| AuthController.LoginStudent | server/controllers/authController.js:105-140 | succeeds exactly when a password is given and the first student with the email stores its hash; the same 401 for an unknown email and a wrong password; a known email without a password gives 500; a 24-hour "student" token and a user object without password |
| AuthController.LoginAdmin | server/controllers/authController.js:143-172 | succeeds exactly when a password is given and the first User with the email and role "admin" stores its hash; a known admin email without a password gives 500; otherwise 401; a 24-hour "admin" token |
| AuthController.GetCurrentUser | server/controllers/authController.js:175-192 | the reported role is the record's, or "student" when it has none, as the role gate reads it |
| AuthController.Patched | server/controllers/authController.js:209-213 | each of name, email and course becomes the given value or stays as it was; id, username, password, role and enrollment date are kept |
| AuthController.UpdateStudentProfile | server/controllers/authController.js:195-230 | moving to an email another student holds gives 400 and changes nothing; a vanished caller gives 500; otherwise the caller's record is patched; no password changes and email uniqueness is preserved |
| StudentController.NewStudent | server/controllers/studentController.js:20 | the created document holds the username, the email and the hash, and has no name, course or role |
| StudentController.RegisterStudent | server/controllers/studentController.js:12-35 | an email already in Student gives 400 and creates nothing; a body without a password gives 500 and creates nothing; otherwise one new student holding the hash, a one-hour token without a role, and a user object of id, username and email |
| StudentController.LoginStudent | server/controllers/studentController.js:37-57 | succeeds exactly when a password is given and the first student with the email stores its hash; a known email without a password gives 500; otherwise 401; a one-hour token without a role |
| StudentController.RegisterThenLogin | server/controllers/studentController.js:16-41 | right after a registration, the new student is the one login finds for that email, and its stored hash verifies the password |
| AdminDashboard.FilteredStudents | client/src/components/AdminDashboard.jsx:55-66 | exactly the non-null students matching both the case-insensitive search and the course filter |
| AdminDashboard.FilteredStudentsConcat | client/src/components/AdminDashboard.jsx:55-66 | the filter distributes over concatenation, so shown students keep their order |
| AdminDashboard.NoFiltersShowAll | client/src/components/AdminDashboard.jsx:61-64 | an empty term and no selected course show every non-null student, in order |
| AdminDashboard.SearchIgnoresCase | client/src/components/AdminDashboard.jsx:61-63 | a search term and its lower-cased form show the same students |
| AdminDashboard.Courses | client/src/components/AdminDashboard.jsx:71 | exactly the non-empty courses of the non-null students |
| AdminDashboard.Distinct | client/src/components/AdminDashboard.jsx:69-73 | each value exactly once: nothing repeated, nothing lost, nothing added |
| AdminDashboard.UniqueCourses | client/src/components/AdminDashboard.jsx:69-73 | no duplicates, no empty entry, every entry some student's course, and every student's non-empty course listed |
| AdminDashboard.ListedCourseIsTaken | client/src/components/AdminDashboard.jsx:64-73 | each course offered in the drop-down is the course of some non-null student, and with an empty search term choosing it shows at least one student |
| AdminDashboard.SubmitFor | client/src/components/AdminDashboard.jsx:81-92 | editing sends PUT to that student with name, email and course and never a password; creating sends POST of the whole form |
| PasswordRequestManagement.FilteredRequests | client/src/components/PasswordRequestManagement.jsx:135-137 | no selected status returns every request unchanged; otherwise exactly the requests with that status |
| PasswordRequestManagement.FilterIdempotent | client/src/components/PasswordRequestManagement.jsx:135-137 | filtering again by the same status changes nothing |
| PasswordRequestManagement.FilterKeepsOrder | client/src/components/PasswordRequestManagement.jsx:135-137 | the filter distributes over concatenation, so shown requests keep their order |
| PasswordRequestManagement.BadgesDistinct | client/src/components/PasswordRequestManagement.jsx:122-133 | different tones give different badge classes |
| PasswordRequestManagement.StatusColor | client/src/components/PasswordRequestManagement.jsx:122-133 | pending, approved and rejected get the yellow, green and red badge; anything else gray |
| PasswordRequestManagement.StatusIcon | client/src/components/PasswordRequestManagement.jsx:109-120 | a check exactly for approved, a cross exactly for rejected, and gray exactly for unknown statuses |
| PasswordRequestManagement.IconMatchesBadge | client/src/components/PasswordRequestManagement.jsx:109-133 | the icon and the badge of a status always share one tone |
| PasswordRequestManagement.StoredStatusesDistinct | client/src/components/PasswordRequestManagement.jsx:109-133 | each stored status has its own non-gray tone |
| PasswordRequestManagement.Capitalize | client/src/components/PasswordRequestManagement.jsx:234-235 | same length, first character upper-cased, the rest unchanged |
| PasswordRequestManagement.StatusLabel | client/src/components/PasswordRequestManagement.jsx:234-235 | a missing status reads "Unknown"; otherwise the status with its first character upper-cased |
| PasswordRequestManagement.StoredStatusLabels | client/src/components/PasswordRequestManagement.jsx:234-235 | the stored statuses read "Pending", "Approved" and "Rejected" |
| PasswordRequestManagement.ActionsOfferedIffPending | client/src/components/PasswordRequestManagement.jsx:273 | approve and reject are offered exactly for the stored requests that are still pending |
| PasswordRequestManagement.RejectReason | client/src/components/PasswordRequestManagement.jsx:77-78 | a cancelled or empty answer sends nothing; otherwise the answer is sent as the reason |
| PasswordRequestManagement.SentReasonIsKept | client/src/components/PasswordRequestManagement.jsx:77-92 | a reason the panel sends is never replaced by the server's default rejection reason |
| PasswordChangeRequest.Validate | client/src/components/PasswordChangeRequest.jsx:44-52 | the form may be sent exactly when the fields match and the password has at least 6 characters; a mismatch is reported before the length |
| PasswordChangeRequest.PasswordForm.HandleSubmit | client/src/components/PasswordChangeRequest.jsx:40-88 | a failed check sends nothing and shows its message; otherwise the password and reason are sent; on success the fields are cleared and the form hidden; on failure the server's message or "Failed to submit request" is shown, or "Network error" |

## Left out

- React rendering, effects, `fetch`, `localStorage`, `setTimeout` and `window.confirm`. They are UI and network I/O. The parts of `prompt` and of the responses that the logic reads are parameters.
- `client/src/contexts/AuthContext.jsx` and the presentational components. They are session and routing glue with no logic of their own.
- `server/server.js` and `server/routes/studentRoutes.js`. The first is bootstrapping. The second wires handlers that `server/controllers/studentController.js` does not define.
- Concurrency. Each request runs as one sequential step over the store. The race between two approvals that both pass the pending check is not modelled.
- `studentModel.js` and `userModel.js` are not part of this model.
  - Student fields a creation does not give are modelled as "".
  - `enrollmentDate` is taken to be the creation time.
  - The Student schema's validators under `runValidators: true` are not modelled.
- Library internals:
  - bcrypt salting, cost and its 72-byte input limit;
  - JWT signatures and encoding;
  - Mongoose `populate` (the admin list returns stored student ids, not joined student documents) and `timestamps`.
- Store failures and ObjectId cast errors. These lead to the 500 and 401 catch branches. Those branches are modelled only where the request's own data causes them: a missing password in a submission, a registration or a login; a missing required field of a request; a caller whose record has vanished.
- An absent email or name in a registration or login body. The model reads it as "", while a query on `undefined` and a schema check on a missing path are the store's business and are not modelled.
- Ties in `requestedAt`. The model promises newest-first order only. The order among equal timestamps is whatever the store returns.
- Unicode. `toLowerCase` / `toUpperCase` act on ASCII letters only, and string length counts characters, not UTF-16 code units.
- The admin dashboard's and the student form's fetch-and-refresh cycles, and the approve/reject response messages. These are UI state around the modelled checks.
- AuthController.UpdateStudentProfile: the email-uniqueness guarantee needs emails unique beforehand, a caller whose record keeps its email, and a non-empty new email. An empty email may be refused by the Student schema, which is not part of this model.
