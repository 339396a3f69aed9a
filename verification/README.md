# Tahwisa HR backend: a verified model of its controllers

Tahwisa is an Express/PostgreSQL backend for an HR department. It manages employees, holiday
destinations, registration periods, sessions at a destination within a period, employees'
registrations ("inscriptions") for sessions, and a lottery. The lottery turns a session's active
registrations into a ranked selection of official winners and substitutes. This project models the
decision logic of its controllers in Dafny. For each handler the model states:

- the checks the handler makes and the order it makes them in;
- the response each check gives;
- what the handler does to the tables.

It then proves what those rules guarantee.

**The database.** `Db.Database` is a class with one `seq` field per table and one SERIAL counter per
table. Its invariant `Valid()` says every stored key is positive, below its counter, and distinct.
`Tables` models the SQL the handlers issue:

- `Where` and `WhereNot` are SELECT and DELETE;
- `First` is `rows[0]` of a SELECT;
- `SetWhere` and `UpdateIf` are UPDATE;
- `Pairwise` states a uniqueness rule over a table.

**The handlers.** Every handler that changes a table is a method with `modifies` on exactly the
fields it writes. Its `ensures` state three things:

- the response, as an if-chain in the handler's own check order;
- the new table, as a function of the old one;
- that an error leaves the table unchanged.

Handlers that only read are pure functions (`Auth.Login`, `Periodes.RegistrationStatus`). So are
the decision steps of two writing handlers: `Selection.CreateOutcome` for `createResultatSelection`
and `Inscriptions.UpdateOutcome` for `updateInscription`. Each handler's method then follows its
decision step. The clock is a parameter:

- `now` is a millisecond timestamp;
- `today` is a calendar date;
- `Calendar.Midnight` is `new Date("YYYY-MM-DD")`.

bcrypt's hash, a fresh `uuidv4()`, and the lottery's shuffled order are also parameters.

**The main results.**

- The lottery gives a session min(7, N) places for N ≥ 3 candidates:
  - ranks are 1..min(7, N) with no gap and no repeat;
  - a place is official exactly when its rank is at most 3;
  - every winner is a candidate, and no employee wins twice;
  - other sessions' selections are untouched.
- Registration uniqueness per (employee, session) is kept by every inscription handler.
- The destination-overlap rule for sessions is kept by create, and shown breakable by update.
- Destination names stay unique ignoring case under create, and can be broken by update.
- Each validator's regular expression is restated as a plain predicate on characters.
- Verification and reset tokens are single-use.
- Login after a password reset works with the new password only.

**The window and the gate disagree.** The registration window of
`src/controllers/periodeController.js` compares `YYYY-MM-DD` strings, so the deadline day is open.
The inscription gate of `src/controllers/inscriptionController.js` compares the request instant with
midnight UTC at the start of the deadline day, so it is stricter.
`Inscriptions.DeadlineDayWindowOpenGateShut` proves they disagree on the deadline day after
midnight. `Inscriptions.AcceptedInscriptionWithinWindow` proves that, on the date test alone, the
gate never accepts what the window refuses. The gate never reads the period's status, so the two
also disagree on a `closed` period (`Inscriptions.GateIgnoresStatus`). A session whose period is
missing has no deadline, so the gate never shuts for it (`Inscriptions.GateOpenWithoutPeriod`).

**Behaviour a reader may not expect:**

- Registration is refused strictly after the first instant (UTC midnight) of the deadline day,
  although the registration window still shows that day as open.
- An inscription update re-checks uniqueness whenever the employee or the session is supplied, not
  only when the session changes.
- The inscription gate ignores the period's status. Only the deadline is checked, and only when
  the session's period exists.
- Creating an inscription has no missing-field check. An absent employee or session finds no row
  and gives 404.
- The lottery is neither uniform nor atomic: the shuffle is `sort` with a random comparator, and the
  delete and the inserts are separate statements.
- There is no expiry sweep and no `winners/generate` route.

## Model

| member | source | states |
|---|---|---|
| Http.Code | src/controllers/inscriptionController.js:100-134 | every response the handlers give maps to one HTTP status; success (200/201) exactly for `Ok` and `Created` |
| Periodes.RequestError | src/controllers/periodeController.js:7-13 | a period request passes exactly when every field is present and the start date is strictly before the end date; otherwise 400, with missing fields reported first |
| Periodes.RegistrationOpenIff | src/controllers/periodeController.js:117-120 | the `YYYY-MM-DD` string test is open exactly when the status is `open` and today is on or before the deadline in calendar order |
| Periodes.DeadlineDayOpen | src/controllers/periodeController.js:120 | the deadline day itself is open (inclusive `<=`) |
| Periodes.RegistrationStatus | src/controllers/periodeController.js:104-127 | 404 exactly for an unknown period; otherwise open iff status `open` and today on or before the deadline, closed iff another status or the deadline before today |
| Periodes.CreatePeriode | src/controllers/periodeController.js:4-27 | a valid request inserts exactly one row with the next key; an invalid one answers 400 and leaves the table and counter unchanged |
| Periodes.UpdatePeriode | src/controllers/periodeController.js:56-87 | validation first, then 404 for an unknown id; success overwrites exactly the row with that key; keys stay valid |
| Periodes.DeletePeriode | src/controllers/periodeController.js:90-102 | 404 for an unknown id, otherwise the table minus exactly the row with that key |
| Sessions.RequestError | src/controllers/sessionController.js:87-93 | a session request passes exactly when complete with start strictly before end; missing fields are reported first |
| Sessions.OverlapsIff | src/controllers/sessionController.js:109-118 | the overlap query's test is the intersection of the closed intervals at the same destination |
| Sessions.SharedEndpointOverlaps | src/controllers/sessionController.js:112 | two sessions sharing only a first or last day overlap |
| Sessions.OtherDestinationNeverConflicts | src/controllers/sessionController.js:111 | sessions at other destinations never conflict, whatever their dates |
| Sessions.ClashSymmetric | src/controllers/sessionController.js:112 | the overlap test does not depend on which session was created first |
| Sessions.CreateKeepsNonOverlapping | src/controllers/sessionController.js:109-125 | a session the overlap query lets through keeps every destination free of overlapping sessions |
| Sessions.UpdateCanBreakNonOverlapping | src/controllers/sessionController.js:50-57 | update performs no overlap test: moving a session onto another's dates at the same destination is accepted and breaks the rule |
| Sessions.CreateSession | src/controllers/sessionController.js:84-131 | checks in order: fields, date order, destination (400), period (400), overlap (409); success appends one row and keeps the destinations free of overlaps |
| Sessions.UpdateSession | src/controllers/sessionController.js:28-65 | the same validation and references, then 404 for an unknown id; success overwrites exactly that row |
| Sessions.DeleteSession | src/controllers/sessionController.js:68-80 | 404 for an unknown id, otherwise exactly that row is removed |
| Destinations.RequestError | src/controllers/destinationController.js:3-15 | a request passes exactly when every field is present and the type is `externe` or `naftal_interne`; a capacity of 0 counts as missing |
| Destinations.LowerIdempotent | src/controllers/destinationController.js:18-24 | lowering a name twice is lowering it once |
| Destinations.NameTakenIgnoresCase | src/controllers/destinationController.js:18-24 | the name clash test gives the same answer for a name and its lower-case form |
| Destinations.CreateKeepsNamesDistinct | src/controllers/destinationController.js:18-32 | a destination the name query lets through keeps names unique ignoring case |
| Destinations.UpdateCanBreakNamesDistinct | src/controllers/destinationController.js:79-89 | update has no name test: renaming `Tlemcen` to `ORAN` next to `Oran` is accepted and breaks case-insensitive uniqueness |
| Destinations.CreateDestination | src/controllers/destinationController.js:6-37 | 400s, then 409 on a name equal ignoring case, then one appended row; keeps names unique |
| Destinations.UpdateDestination | src/controllers/destinationController.js:66-96 | 400s, then 404 for an unknown id, then exactly that row overwritten |
| Destinations.DeleteDestination | src/controllers/destinationController.js:99-111 | 404 for an unknown id, otherwise exactly that row is removed |
| Employees.ViewHidesSecrets | src/controllers/employeeController.js:66 | two rows give the same reply exactly when they agree on id, nom, prénom, email, téléphone, matricule and structure; the password hash, department, role, verification flag, tokens and expiries never reach it |
| Employees.Updated | src/controllers/employeeController.js:62-72 | the update rewrites only the row with that id, keeps every id, and stores the new email, matricule and password hash |
| Employees.UpdateKeepsContactsUnique | src/controllers/employeeController.js:41-72 | an update the two uniqueness queries let through keeps emails and matricules unique |
| Employees.ResaveOwnContacts | src/controllers/employeeController.js:41-56 | the uniqueness queries exclude the row itself, so re-saving one's own email and matricule is never a conflict |
| Employees.UpdateEmployee | src/controllers/employeeController.js:30-79 | order: missing fields 400, email of another 409, matricule of another 409, unknown id 404 only after those; the password stored is the hash; the view is returned exactly on success |
| Employees.Rewrite | src/controllers/employeeController.js:62-72 | the UPDATE keeps the keys valid and emails and matricules unique |
| Employees.DeleteEmployee | src/controllers/employeeController.js:82-94 | 404 for an unknown id, otherwise exactly that row is removed and returned |
| Inscriptions.DeadlineOf | src/controllers/inscriptionController.js:105-117 | the LEFT JOIN yields a deadline exactly when the session's period exists, and it is that period's deadline |
| Inscriptions.SessionRefusal | src/controllers/inscriptionController.js:105-124 | no refusal exactly when the session exists and the gate has not passed; 404 exactly for an unknown session |
| Inscriptions.CheckSession | src/controllers/inscriptionController.js:105-124 | the session query and the gate give the refusal above |
| Inscriptions.AcceptedInscriptionWithinWindow | src/controllers/inscriptionController.js:119 | an inscription accepted on day `today` falls on a day the registration window reports open |
| Inscriptions.GateIgnoresStatus | src/controllers/inscriptionController.js:105-124 | for a session of a `closed` period, before its deadline, the gate accepts while the registration status reports closed |
| Inscriptions.GateOpenWithoutPeriod | src/controllers/inscriptionController.js:105-119 | a session whose period is missing is never refused by the gate, whatever the instant |
| Inscriptions.DeadlineDayWindowOpenGateShut | src/controllers/inscriptionController.js:119 | after midnight of the deadline day the window reports open while the gate refuses |
| Inscriptions.CreateKeepsPairsUnique | src/controllers/inscriptionController.js:127-148 | an inscription the duplicate query lets through keeps each employee at most once per session |
| Inscriptions.UpdateKeepsPairsUnique | src/controllers/inscriptionController.js:199-211 | an update whose new pair no other row holds keeps pairs unique |
| Inscriptions.SamePairUpdateKeepsPairsUnique | src/controllers/inscriptionController.js:214-227 | an update that keeps the row's own pair keeps pairs unique without any query |
| Inscriptions.StatusOrActive | src/controllers/inscriptionController.js:147 | the stored status is never empty and is the given one when supplied (`'active'` otherwise) |
| Inscriptions.CreateInscription | src/controllers/inscriptionController.js:91-154 | order: employee 404, session 404, deadline passed 400, duplicate 409; success appends one row stamped `now`; pairs stay unique |
| Inscriptions.Insert | src/controllers/inscriptionController.js:137-148 | the INSERT keeps keys valid and, after a passed duplicate query, pairs unique |
| Inscriptions.Merged | src/controllers/inscriptionController.js:214-227 | the written row keeps its id and, when neither employee nor session is supplied, its pair |
| Inscriptions.StatusOnlyUpdateAlwaysAccepted | src/controllers/inscriptionController.js:174-211 | an update of status or date only succeeds for any existing inscription, however late |
| Inscriptions.UpdateChecksNewReferences | src/controllers/inscriptionController.js:167-196 | an accepted update names only existing employees and sessions whose deadline has not passed |
| Inscriptions.UpdateInscription | src/controllers/inscriptionController.js:156-233 | response is the check-order outcome; success overwrites exactly that row with the merged fields; pairs stay unique |
| Inscriptions.Rewrite | src/controllers/inscriptionController.js:214-227 | the UPDATE keeps keys valid and pairs unique |
| Inscriptions.DeleteInscription | src/controllers/inscriptionController.js:235-263 | 404 unknown, 400 past the joined deadline with the row kept, otherwise exactly that row removed; pairs stay unique |
| Inscriptions.DeleteKeepsPairsUnique | src/controllers/inscriptionController.js:258 | deleting a row keeps pairs unique |
| Selection.Candidates | src/controllers/resultatSelectionController.js:119-124 | the candidates are exactly the employees with an `active` inscription for that session, one per such row, so their count is the count of active rows |
| Selection.CandidatesDistinct | src/controllers/resultatSelectionController.js:119-121 | when each employee is registered at most once per session, no candidate appears twice |
| Selection.PermutationKeepsDistinct | src/controllers/resultatSelectionController.js:131 | reordering the candidates keeps them free of repeats |
| Selection.GeneratedSelection | src/controllers/resultatSelectionController.js:134-146 | after the lottery the session's results are exactly the new draw; the old ones are gone |
| Selection.GeneratedRanks | src/controllers/resultatSelectionController.js:136-146 | drawing from a list of length L, the session gets exactly min(7, L) results with ranks 1..min(7, L) in order, all sharing the draw's date |
| Selection.GeneratedPlaces | src/controllers/resultatSelectionController.js:119-146 | when the drawn list is a reordering of the session's N candidates, the session gets exactly min(7, N) places ranked 1..min(7, N) |
| Selection.GeneratedKinds | src/controllers/resultatSelectionController.js:140 | a result is `officiel` exactly at ranks 1-3 and `suppléant` exactly at ranks 4-7 |
| Selection.GeneratedWinners | src/controllers/resultatSelectionController.js:131-144 | every winner is a candidate, and with unique registrations no employee wins two places |
| Selection.GenerateKeepsOtherSessions | src/controllers/resultatSelectionController.js:134 | every other session's selection is unchanged |
| Selection.GenerateKeepsSelectedOnce | src/controllers/resultatSelectionController.js:134-146 | with unique registrations the lottery keeps each employee at most once per session in the results |
| Selection.CreateKeepsSelectedOnce | src/controllers/resultatSelectionController.js:55-69 | a manual entry the duplicate query lets through keeps each employee at most once per session |
| Selection.InsertDraw | src/controllers/resultatSelectionController.js:139-146 | the loop appends rows 1..n of the draw with consecutive keys and keeps the keys valid |
| Selection.GenerateSelectionForSession | src/controllers/resultatSelectionController.js:114-153 | fewer than 3 candidates: 400 and the results untouched; otherwise the table becomes the lottery's outcome |
| Selection.CreateOutcome | src/controllers/resultatSelectionController.js:39-69 | 201 exactly for a complete request of an allowed type naming an existing session and employee not yet selected for it; 409 exactly for a duplicate pair; every other refusal is a 400 |
| Selection.ManualEntryIgnoresRank | src/controllers/resultatSelectionController.js:39-69 | a manual entry checks neither the rank nor its kind: an `officiel` place at rank 9 is accepted |
| Selection.CreateSelectionResult | src/controllers/resultatSelectionController.js:36-73 | the response is the outcome above; success appends one row; each employee stays at most once per session |
| Validators.ValidEmailIff | src/utils/validators.js:1-4 | an email is valid exactly when it is a non-empty local part without whitespace or `@`, one `@`, then a domain |
| Validators.DomainIff | src/utils/validators.js:2 | the domain part matches exactly when it is free of whitespace and `@` and holds a `.` neither first nor last |
| Validators.ValidEmailHasOneAt | src/utils/validators.js:1-4 | a valid email holds exactly one `@` |
| Validators.ValidPasswordIff | src/utils/validators.js:6-9 | a password is valid exactly when it has 8 or more characters from `[a-zA-Z0-9@$!%*?&]`, with a lower-case letter, an upper-case letter and a digit |
| Validators.ValidMatriculeIff | src/utils/validators.js:11-14 | a matricule is valid exactly when it is 3 to 20 ASCII letters or digits |
| Validators.ValidPhoneIff | src/utils/validators.js:16-19 | once whitespace, `-`, `(` and `)` are removed, a phone is valid exactly when it is 10-15 digits, optionally after one `+` |
| Validators.ValidPhoneStripped | src/utils/validators.js:18 | stripping a phone number first does not change the verdict |
| Validators.ValidNameIff | src/utils/validators.js:21-24 | a name is valid exactly when it is 2 to 50 characters, each an ASCII letter, in U+00C0..U+00FF, or whitespace |
| Validators.ValidNameRejectsPunctuation | src/utils/validators.js:22 | a valid name holds no hyphen and no apostrophe |
| Validators.StructureExactMatch | src/utils/validators.js:26-29 | `includes` compares whole strings exactly: `IT` and `Finance` pass; `it`, `finance`, `FINANCE`, ` IT` and `Sales ` are refused |
| Auth.Login | src/controllers/authController.js:97-152 | missing fields 400, bad email format 400, unknown email 401; a login succeeds only for a verified account whose hash matches, with claims (id, email, role) |
| Auth.LoginIff | src/controllers/authController.js:113-147 | with unique emails: a wrong password gets the same 401 as an unknown email, an unverified account 403, and the token only after every check |
| Auth.VerifiedRows | src/controllers/authController.js:184-190 | verification sets the flag exactly on the accounts whose token is live and clears their token; password and reset token are untouched |
| Auth.VerificationSingleUse | src/controllers/authController.js:184-199 | after a verification succeeds, its token matches no live row at that instant or later |
| Auth.VerifyEmail | src/controllers/authController.js:180-208 | 200 exactly when some account has that token unexpired (strictly after now), otherwise 400 and no change |
| Auth.ResendReplacesToken | src/controllers/authController.js:230-240 | after a resend the new token verifies the account anywhere within the next 24 hours and the old token no longer matches it |
| Auth.ResendVerificationEmail | src/controllers/authController.js:210-262 | 404 unknown email, 400 already verified, otherwise a new token expiring 24 hours on for every row with that email |
| Auth.ResetRequestForUnknownEmail | src/controllers/authController.js:274-305 | a reset request for an email nobody has changes nothing |
| Auth.RequestPasswordReset | src/controllers/authController.js:265-310 | always 200; only rows with that email get a reset token expiring an hour on |
| Auth.ResetSingleUse | src/controllers/authController.js:325-339 | after a reset succeeds, its token matches no live row at that instant or later |
| Auth.LoginAfterReset | src/controllers/authController.js:97-152 | after a reset through a live token, a verified account logs in with the new password, and with any old password hashing differently it does not |
| Auth.ResetPassword | src/controllers/authController.js:312-348 | 400 on a bad password format before any update; then 200 exactly when some account's reset token is live, which gets the new hash and a cleared token; otherwise 400 and no change |

## Left out

- Routes, `src/index.js`, CORS and the admin gating middleware: wiring with no decision logic of the controllers.
- `src/services/emailService.js`: sending mail is an effect the model drops; the token that would be mailed is a parameter.
- The lottery's randomness: `shuffled` is any reordering of the candidates, supplied by the caller; nothing is claimed about its distribution.
- Atomicity and concurrency: each handler is one sequential step. The lottery's delete and inserts, and every check-then-write, are separate statements in the code. The model claims nothing about interleavings or partial failure.
- HTTP 500 paths: database errors and exceptions inside a handler's `try`. Foreign-key violations on delete also end in a 500.
- `updateSession`'s reference checks run outside its `try`: a database error there gives no response at all (an unhandled rejection), not a 500.
- Malformed dates and non-numeric ids. A date is a valid calendar date or absent, and an id is a natural number where 0 stands for an absent value.
- The time zone: the server is taken to run in UTC, so `toISOString().split('T')[0]` is the UTC date. How the driver delivers the DATE column is taken to be a `YYYY-MM-DD` value.
- Strings are sequences of Unicode code points rather than UTF-16 units.
- Destinations.LowerChar: PostgreSQL's `LOWER` is modelled for ASCII and Latin-1 letters only; other scripts are left unchanged.
- Auth.Login: bcrypt's salted compare is taken as equality with a deterministic `hash(password)`, and JWT signing and expiry are not modelled; the claims are returned instead.
- `register`: it calls `validateDepartment`, which `src/utils/validators.js` does not export, so it throws once its earlier checks pass. Its remaining work is hashing, uuid and mail.
- `getMe` and every read-only `getAll*` / `get*By*` handler: pass-through queries with no rule to prove.
- `updateResultatSelection` and `deleteResultatSelection`: plain overwrite and delete with no type or rank rules. `Selection.ManualEntryIgnoresRank` shows the same gap in the manual create.
- An expiry sweep or `winners/generate` endpoint: no such handler exists in the code.
