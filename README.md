# financial-tracker-api: the rule layer, modelled in Dafny

This project models the business rules of a small personal-finance backend
(Express + SQLite, TypeScript). Three parts of it carry rules rather than
plumbing:

- **Goal lifecycle** (`Goals`, goals.dfy). This covers the `goals` table and the
  handlers `getAllGoals`, `createGoal` and `updateGoal`. It parses and validates
  the comma-separated `status` filter, allows at most one `active` goal per
  user, accepts only `completed`/`cancelled` as update targets, refuses a
  same-status update, and stamps `completed_at` only for `completed`.
- **Investment ledger** (`Investments`, investments.dfy). This covers the
  `investments` table and the handlers `getAllInvestments`, `createInvestment`
  and `deleteInvestment`. Creation checks the required fields and then the type.
  Deletion is predicated on both `id` and `user_id`, so another user's row
  answers 404 exactly like a missing one.
- **Identity resolver** (`Identity`, identity.dfy). This covers the `users`
  table, the Google strategy's verify callback (find-or-create by
  `google_id`), and `serializeUser`/`deserializeUser`.

Each table is a class holding a `seq` of rows in insertion order. Each
handler is a method on that class, and it returns a `Response`: `Ok` (200),
`Created` (201), `BadRequest` (400, with a `Rejection` saying why), `NotFound`
(404) or `ServerError` (500). Each class's `Valid()` predicate holds the
schema constraints and the rules the handlers keep:

- primary keys and `google_id UNIQUE`;
- at most one active goal per user;
- `completed_at` set exactly for completed goals;
- positive targets;
- a signed-in owner.

Every method preserves `Valid()`. Shared pieces live in `Outcomes`
(outcomes.dfy): `Option`, `Response`, `Rejection`, and `StoreFaults`, which
says which store statement of a handler reports an error. `Ordering`
(ordering.dfy) models `ORDER BY <text> DESC`: a lexicographic order on
strings, proved total, transitive and antisymmetric, and a sort proved to
give a sorted permutation. `Text` (text.dfy) models JavaScript's `split`,
`join` and `trim`.

Inputs that the program computes from the outside world are parameters:

- the fresh UUID, with a precondition that no row already uses it;
- the clock value: the store's `CURRENT_TIMESTAMP` for `created_at`, and
  `new Date().toISOString()` for `completed_at`;
- the store failures.

The access gate (`requireAuth`) is the precondition `userId != ""` on every
ledger and goal handler. Timestamps and dates are strings compared character
by character, as SQLite compares `TEXT`.

In these places the model follows the code:

- `createInvestment` always requires `rate` and never reads or writes
  `actual_cost`. It does not apply the type-dependent rate / actual-cost rule.
- `updateGoal` accepts any transition to a *different* status. This includes
  `completed → cancelled` and `cancelled → completed`, not only transitions
  out of `active`.
- The verify callback answers a new account with the values it inserted. It
  does not read the row back.
- A second active goal is a 400 (`ActiveGoalExists`), as the code answers.

## Model

| member | source | states |
|---|---|---|
| `Ordering.LexLeqTotal` | src/controllers/goalController.ts:39 | any two text keys are comparable, so `ORDER BY … DESC` is a total order |
| `Ordering.LexLeqTransitive` | src/controllers/goalController.ts:39 | the text order is transitive |
| `Ordering.LexLeqAntisymmetric` | src/controllers/investmentController.ts:8 | two keys ordered both ways are equal |
| `Ordering.SortDescByPermutes` | src/controllers/investmentController.ts:8 | the ordered listing holds exactly the selected rows, each as often as stored |
| `Ordering.SortDescBySorted` | src/controllers/investmentController.ts:8 | the ordered listing runs from largest key to smallest |
| `Ordering.SortDescByMembers` | src/controllers/goalController.ts:39 | a row is in the ordered listing iff it was selected |
| `Text.Split` | src/controllers/goalController.ts:20 | `split(',')` yields at least one piece and no piece contains a comma |
| `Text.JoinSplit` | src/controllers/goalController.ts:20 | joining the pieces of a split with the separator restores the parameter |
| `Text.SplitJoin` | src/controllers/goalController.ts:20 | splitting a join of comma-free pieces restores the pieces |
| `Text.TrimStart` | src/controllers/goalController.ts:20 | leading `trim`: keeps a suffix with no leading whitespace and removes only whitespace |
| `Text.TrimEnd` | src/controllers/goalController.ts:20 | trailing `trim`: keeps a prefix with no trailing whitespace and removes only whitespace |
| `Text.Trim` | src/controllers/goalController.ts:20 | `trim`: the result is the slice of the input between a run of leading whitespace and a run of trailing whitespace, and no whitespace is left at either of its ends |
| `Text.TrimKeepsCharacters` | src/controllers/goalController.ts:20 | every character `trim` keeps comes from its input, so a comma-free piece stays comma-free |
| `Text.TrimAll` | src/controllers/goalController.ts:20 | `map((s) => s.trim())`: one trimmed piece per input piece, in the same order |
| `Text.Join` | src/controllers/goalController.ts:20 | builds a comma-joined `?status=` value, the inverse of the `split(',')` on this line: two or more pieces are joined with at least one separator between them, and `Text.JoinSplit` / `Text.SplitJoin` prove the round trips |
| `Goals.StatusName` | src/config/database.ts:32 | every status has a non-empty, comma-free spelling; `Goals.ParseStatus` maps it back to the status |
| `Goals.StatusPieces` | src/controllers/goalController.ts:20 | the trimmed pieces of the parameter: at least one, none containing a comma, none with whitespace at either end |
| `Goals.ParseStatus` | src/controllers/goalController.ts:23-24 | a string is accepted iff it is the name of one of the three statuses, and names that status |
| `Goals.Filter` | src/controllers/goalController.ts:24 | `filter`: keeps exactly the elements the test accepts, never more than it was given |
| `Goals.FilterAppend` | src/controllers/goalController.ts:24 | `filter` distributes over concatenation, so it keeps the elements in their order |
| `Goals.InvalidPieces` | src/controllers/goalController.ts:24 | the invalid pieces are exactly the pieces naming no status |
| `Goals.InvalidPiecesAppend` | src/controllers/goalController.ts:24-28 | invalid pieces are reported in request order |
| `Goals.ParseStatusFilter` | src/controllers/goalController.ts:15-36 | an absent or empty parameter means no filter; otherwise 400 iff some trimmed piece is invalid, and the 400 lists exactly the invalid pieces in request order with repeats (`InvalidPieces` of the trimmed pieces); else the filter on exactly the named statuses |
| `Goals.FilterOfJoinedNames` | src/controllers/goalController.ts:18-36 | `?status=` with a comma-joined list of status names selects exactly those statuses |
| `Goals.SelectGoals` | src/controllers/goalController.ts:15-35 | the selected rows are exactly the caller's rows whose status passes the filter |
| `Goals.HasActive` | src/controllers/goalController.ts:65-77 | holds iff the caller owns a goal with status `active`; once the target is valid and the lookup succeeds, `Goals.GoalTable.Create` answers `ActiveGoalExists` exactly when it holds |
| `Goals.ValidTargetAmount` | src/controllers/goalController.ts:59-62 | holds iff a target is given and is positive; `Goals.GoalTable.Create` answers `InvalidTargetAmount` exactly when it fails |
| `Goals.NewGoal` | src/controllers/goalController.ts:80-83 | the inserted goal is `active` with no `completed_at` |
| `Goals.GoalsInvariant` | src/config/database.ts:28-36 | unique ids, at most one active goal per user, `completed_at` set exactly for completed goals, a signed-in owner and a positive target; it is `GoalTable.Valid()`, which every `GoalTable` method keeps |
| `Goals.FindOwned` | src/controllers/goalController.ts:120 | the lookup finds the first row matching both id and owner, or reports that none matches |
| `Goals.ParseTargetStatus` | src/controllers/goalController.ts:114-117 | only `completed` and `cancelled` are accepted as update targets; `active` never is |
| `Goals.Transition` | src/controllers/goalController.ts:137-144 | an update sets the status; `completed_at` is `now` for `completed` and NULL otherwise; id, owner, target and creation time are kept |
| `Goals.AtMostOneActiveListed` | src/controllers/goalController.ts:64-77 | under the single-active invariant a user's active goals number at most one |
| `Goals.InsertPreservesInvariant` | src/controllers/goalController.ts:74-83 | inserting an active goal for a user without one keeps unique ids, single-active and the `completed_at` rule |
| `Goals.TransitionPreservesInvariant` | src/controllers/goalController.ts:114-144 | moving any goal to `completed` or `cancelled` keeps the table invariant |
| `Goals.GoalTable.List` | src/controllers/goalController.ts:6-48 | 400 listing the invalid pieces in request order, else 500 on a store error, else exactly the caller's matching goals, newest `created_at` first |
| `Goals.GoalTable.Create` | src/controllers/goalController.ts:50-102 | 400 for a missing or non-positive target, 400 if the caller has an active goal; otherwise exactly one active row with the fresh id and NULL `completed_at` is added and returned with 201; failed statements leave the table unchanged |
| `Goals.GoalTable.Update` | src/controllers/goalController.ts:104-162 | 400 for a target other than completed/cancelled, 404 for a goal the caller does not own, 400 for the current status; otherwise only that row changes, by `Transition` |
| `Goals.GoalLifecycle` | src/controllers/goalController.ts:50-162 | create → second create refused → complete (stamped) → create again succeeds |
| `Investments.ParseType` | src/controllers/investmentController.ts:28 | a type is accepted iff it is `cd` or `tBill` |
| `Investments.TypeName` | src/config/database.ts:12 | every type has a non-empty spelling; `Investments.ParseType` maps it back to the type |
| `Investments.Truthy` | src/controllers/investmentController.ts:22 | a string field passes `!field` iff it is present and not empty |
| `Investments.HasRequiredFields` | src/controllers/investmentController.ts:22-25 | holds iff date and type are truthy and amount and rate are defined; `Investments.InvestmentTable.Create` answers `MissingRequiredFields` exactly when it fails |
| `Investments.NewInvestment` | src/controllers/investmentController.ts:34-37 | the inserted row carries the submitted rate and a NULL `actual_cost` |
| `Investments.ReceiptOf` | src/controllers/investmentController.ts:43-50 | the 201 body carries the stored row's id, owner, date, type, amount and rate |
| `Investments.InvestmentsInvariant` | src/config/database.ts:8-17 | unique ids, and every row has an owner and a date; it is `InvestmentTable.Valid()`, which every `InvestmentTable` method keeps |
| `Investments.OwnedBy` | src/controllers/investmentController.ts:8 | the selected rows are exactly the caller's |
| `Investments.IndexOwned` | src/controllers/investmentController.ts:59 | finds the first row matching both id and owner, or reports that none matches |
| `Investments.DeleteOwned` | src/controllers/investmentController.ts:59 | the rows that remain are exactly those not matching both id and owner |
| `Investments.DeleteOwnedRemovesOne` | src/controllers/investmentController.ts:59-70 | with unique ids the DELETE removes exactly the owned row and keeps the others in order, or changes nothing |
| `Investments.InvestmentTable.List` | src/controllers/investmentController.ts:5-15 | 500 on a store error, else exactly the caller's investments, latest date first |
| `Investments.InvestmentTable.Create` | src/controllers/investmentController.ts:17-53 | missing date/type (falsy) or undefined amount/rate → 400 before the type check; a type outside cd/tBill → 400; else one row added and its submitted values echoed with 201 |
| `Investments.InvestmentTable.Delete` | src/controllers/investmentController.ts:55-72 | 404 and no change unless a row matches both id and owner; otherwise 200 and exactly that row removed |
| `Investments.RecordTwice` | src/controllers/investmentController.ts:34-37 | two identical requests succeed or fail together; when they succeed they append two rows after the old ones that differ only in their ids, and the two receipts differ the same way; when they fail nothing changes |
| `Identity.OrEmpty` | src/config/passport.ts:24 | a missing display name becomes `''` |
| `Identity.FirstValue` | src/config/passport.ts:23-25 | a missing first email or photo value becomes `''` |
| `Identity.MissingProfileFieldsAreEmpty` | src/config/passport.ts:22-25 | a profile without email, name and photo yields three empty strings |
| `Identity.UsersInvariant` | src/config/database.ts:19-26 | unique ids and unique Google ids; it is `UserTable.Valid()`, which `Identity.UserTable.Authenticate` keeps |
| `Identity.FindByGoogleId` | src/config/passport.ts:28-30 | the lookup finds a row with the Google id, or reports that none exists |
| `Identity.FindById` | src/config/passport.ts:77 | the lookup finds the first row with the id, or reports that none exists |
| `Identity.CountGoogleId` | src/config/database.ts:21 | the number of rows for a Google id is at most the table size, and zero iff no row has that id |
| `Identity.CountUniqueGoogleId` | src/config/database.ts:21 | under `google_id UNIQUE` an account has one row if found and none otherwise |
| `Identity.NewUser` | src/config/passport.ts:45-49 | the new row holds the fresh id, the Google id and the defaulted profile values |
| `Identity.SessionOf` | src/config/passport.ts:38-43 | the user handed to Passport carries the row's id, email, name and picture and nothing else |
| `Identity.SerializeUser` | src/config/passport.ts:72-74 | the session stores exactly the user's id; `Identity.SessionRoundTrip` shows the id restores the user |
| `Identity.DeserializeAsWritten` | src/config/passport.ts:76-88 | a lookup error gives `done(err)`, a stored id gives that row's fields, and an id without a row throws |
| `Identity.Deserialize` | src/config/passport.ts:76-88 | the same lookup, never throwing: an id without a row ends the session |
| `Identity.DeserializeMissingRow` | src/config/passport.ts:76-88 | on an id without a row the as-written lookup throws where the corrected one ends the session |
| `Identity.DeserializeAgreesOnStoredIds` | src/config/passport.ts:76-88 | as-written and corrected lookups agree on every stored id and on store errors |
| `Identity.SessionRoundTrip` | src/config/passport.ts:72-88 | serializing a stored user and deserializing the id gives back that user |
| `Identity.UserTable.Authenticate` | src/config/passport.ts:20-68 | store error → `done(err)`, lookup error leaves the table unchanged; a known account returns its stored fields and writes nothing; an unknown one inserts exactly one row and echoes it; every returned user round-trips through the session |
| `Identity.LoginTwice` | src/config/passport.ts:28-59 | two logins with one Google account give the same user id and leave exactly one row for it |

## Left out

- The HTTP layer is not modelled. This covers `res.status().json()`, the
  routers, the server, CORS, session cookies, and `authController`'s
  `getUser` and `logout`. Responses are the `Response` datatype, and 400
  messages are `Rejection` values rather than strings.
- The 401 answers are not modelled: `requireAuth` and the inline checks in
  the goal handlers become the precondition `userId != ""`.
- SQLite itself is replaced by sequential operations on in-memory sequences.
  This covers SQL text, the asynchronous callbacks, and the foreign keys to
  `users`, which the handlers never consult.
- Concurrency is left out. This includes the check-then-insert race in
  `createGoal`: two concurrent creates could both pass the active-goal
  check. The model is sequential, so it proves the single-active invariant
  only for sequential use.
- `randomUUID()` and the clocks are parameters.
- Numbers use JavaScript semantics only in part. Monetary values are `real`,
  and `Option` expresses only `undefined`. These are not modelled:
  - JSON `null`: a `null` amount would pass the check and fail the
    `NOT NULL` insert with 500, and a `null` rate would be stored as NULL;
  - `NaN`;
  - numeric strings;
  - other JavaScript truthiness corner cases.
- A `status` query parameter given several times is not modelled. Express
  then passes an array, and `split` throws.
- The verify callback's `try`/`catch` is not modelled. Only its synchronous
  reads of the profile could throw, and the model's profile is always
  well-formed.
- The OAuth handshake and Passport's registration and configuration are left
  out. They belong to a foreign library.
- A read-back after a successful write that finds no row is not modelled.
  It cannot happen sequentially.
- The compiled `dist/` files and `src/types/express.d.ts` are not part of
  this model. They are compiled output and type declarations.

## Findings

| source | as written | input that shows it | evidently intended | confidence | as-written member | corrected member |
|---|---|---|---|---|---|---|
| src/config/passport.ts:76-88 | `deserializeUser` reads `row.id` without checking that the lookup found a row | a session whose user id has no `users` row (for instance after the database file is replaced) makes `row` undefined, and the callback throws a TypeError inside the store callback | report the missing user with `done(null, false)`, which ends the session | medium, not executed | `Identity.DeserializeAsWritten` (with `Identity.DeserializeMissingRow`) | `Identity.Deserialize` |
