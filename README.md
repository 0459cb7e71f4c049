# plansignal: temporal plan-state resolution, modelled in Dafny

plansignal stores plan-assignment facts in an append-only table and answers one
question: what plan does a (subject, scope) pair hold at a given instant? A fact
says that `subject` holds `plan_id` in `scope` from `effective_at` on, optionally
until `expires_at`, and it carries its provenance (`origin`, `reason`,
`policy_version`). Resolution takes the most recent matching fact whose
`effective_at` is at or before the evaluation instant. It reports `none` when
there is no such fact. It reports `expired` when that fact's `expires_at` lies
strictly before the instant, and `active` otherwise. The write path first checks
the shape of the submitted JSON body, collecting error messages field by field,
then coerces it into a typed fact and inserts it.

The model has these modules:

- `Wrappers`: `Option` and `Outcome`.
- `Types`: the fact, the row, the three-valued plan state, provenance and the
  response record. Instants are integers (epoch milliseconds).
- `State`: the lookup and the resolver as functions over a snapshot of the rows.
  The resolver's contract follows the SQL query, which leaves ties open: some
  matching row with the latest `effective_at` is reported (`IsLatestIndex`).
  The lookup's contract states a strengthening the query does not: among tied
  rows, the one appended last is selected (`IsLastLatestIndex`, see Findings).
- `FactStore`: the table as a class. Its rows are a `seq` field, and `Append`
  mirrors the INSERT of the write path. The store assigns `id` and `createdAt`.
- `GoldenVectors`: the service's golden test vectors replayed against the store.
- `Validation`: the shape validator as a method with a loop over the required
  fields, the error list it must produce, and coercion into a fact.

Three things are function parameters because the model does not look inside
them:

- `toISOString` is `iso: Instant -> string`.
- `Date.parse` succeeding is `parsesAsDate: string -> bool`.
- The database's reading of a timestamp literal is
  `parse: string -> Option<Instant>`.

## Model

| member | source | states |
|---|---|---|
| State.LatestAtOrBefore | src/state.ts:23-31 | None exactly when no row has the key with `effective_at <= t`; otherwise the index of a matching row with the greatest `effective_at`, and among ties the last appended |
| State.Project | src/state.ts:33-61 | `evaluated_at` is `iso(t)`; `none` with null plan and provenance exactly when no row was found; otherwise the found row's plan and provenance, `expired` exactly when its `expires_at` is present and strictly before `t` |
| State.ResolvePlanState | src/state.ts:16-62 | `evaluated_at` is `iso(t)` in every branch; `none` exactly when no row matches, and then plan and provenance are null; otherwise some latest matching row is reported, `expired` exactly when its `expires_at` is present and strictly before `t`, with its `plan_id` and its provenance unchanged |
| State.ResolveReportsSelectedRow | src/state.ts:42-61 | the response reports exactly the row the selection rule picks: its plan, its provenance and its expiry verdict |
| State.LatestWins | src/state.ts:27-28 | a matching fact whose `effective_at` is strictly later than that of every other matching fact is the one reported |
| State.SingleFactTimeline | src/state.ts:33-50 | one fact: `none` before `effective_at`, `active` from `effective_at` through `expires_at` inclusive, `expired` strictly after it, `active` forever without an expiry |
| State.NoExpiryStaysActive | src/state.ts:43-50 | when no fact of the key has an expiry, the state is `active` at every instant at or after the first `effective_at`, however late |
| State.AppendedFactSupersedes | src/state.ts:24-29 | an appended row that matches the query and is no earlier than any matching row already stored is the latest matching row of the extended log and is selected; an appended row that does not match, or is strictly earlier than some matching row, leaves the selection as it was |
| State.AppendInvisible | src/state.ts:25-27 | appending a row of another key, or one effective only after `t`, leaves the resolution at `t` unchanged |
| State.KeyRows | src/state.ts:25-26 | the rows of one (subject, scope) key: each of them is a row of the table with that key, and every row of the table with that key is among them |
| State.LookupIgnoresOtherKeys | src/state.ts:25-26 | the lookup over the whole table equals the lookup over the rows of the queried key alone |
| State.OtherKeysIrrelevant | src/state.ts:25-26 | rows of other (subject, scope) keys never affect a resolution |
| State.TiedFactsAdmitTwoAnswers | src/state.ts:28 | as written, two facts with one key and one `effective_at` but different plans are both valid answers to the query, and they yield different plans |
| State.LastLatestIsUnique | src/state.ts:28 | with the last-appended tie-break, at most one row qualifies, so the answer is determined |
| FactStore.PlanAssignmentStore.constructor | tests/golden.test.ts:28-39 | an empty table whose id sequence starts at 1 |
| FactStore.PlanAssignmentStore.Append | src/routes.ts:25-39 | when both timestamps can be read, exactly one row with the fact's fields, the next id and the insert clock is added after the existing rows, which stay untouched; when a timestamp cannot be read, an error and an unchanged table; ids stay increasing |
| FactStore.PlanAssignmentStore.Resolve | src/state.ts:23-31 | a read with no `modifies` clause, so rows and row count are unchanged, whose response is the resolution over the current rows; two reads with the same inputs agree |
| GoldenVectors.ReadExpiringFact | tests/golden.test.ts:152-215 | with only the expiring fact stored: `none` at 2023-12-15, `active` with `pro_monthly` and `stripe_webhook` at 2024-03-15, `expired` with the same plan and origin at 2024-07-01, the table unchanged by reads, and identical responses to identical reads |
| GoldenVectors.ReadLifetimeFact | tests/golden.test.ts:237-244 | with the lifetime fact stored beside the expiring one, the read in 2099 is `active` with `enterprise_lifetime` |
| GoldenVectors.Replay | tests/golden.test.ts:110-245 | the golden vectors: `none` for an unknown key and before `effective_at`; `active` with `pro_monthly` and `stripe_webhook` during the window; `expired` with the same plan after it; identical repeated reads; `active` with `enterprise_lifetime` in 2099 |
| Validation.ValidatePlanAssignmentShape | src/validation.ts:13-55 | the returned messages are the rendering of the specified error list; `valid` exactly when there are no errors, and exactly when the body is well formed; a non-object or null body gives only "Request body must be an object" |
| Validation.ShapeErrors | src/validation.ts:14-54 | no contract of its own: the body gives the lone body error for a non-object or null body, and otherwise the six required-field rules in listed order followed by the `effective_at` and `expires_at` rules; the lemmas below state its properties |
| Validation.MessagesRender | src/validation.ts:26-49 | the i-th message is the text of the i-th error, so the rendered list follows the error list element by element |
| Validation.ValidIffWellFormed | src/validation.ts:13-55 | the error list is empty exactly when the body is an object with six non-empty identity strings, a parseable `effective_at`, and an `expires_at` that is absent, null or parseable |
| Validation.RequiredErrorsMembers | src/validation.ts:23-30 | the required-field errors are exactly those that each listed field's rule produces |
| Validation.ShapeErrorsMembers | src/validation.ts:14-54 | an error of an object body comes from a required field's rule, the `effective_at` rule or the `expires_at` rule, and every error those rules give is reported |
| Validation.RequiredFieldVerdict | src/validation.ts:23-30 | each identity field draws "must be a string" exactly when it is absent or not a string, and "must not be empty" exactly when it is "", whatever the other fields hold |
| Validation.EffectiveAtVerdict | src/validation.ts:32-40 | `effective_at` draws "must be a string" exactly when it is absent or not a string, and "must be a valid ISO timestamp" exactly when it is a string that does not parse |
| Validation.ExpiresAtVerdict | src/validation.ts:42-52 | an absent or null `expires_at` draws nothing; another non-string draws "must be a string or null"; an unparseable string draws "must be a valid ISO timestamp or null" |
| Validation.RequiredErrorsRanked | src/validation.ts:23-30 | the errors of the first k required fields come in field order, each about one of those k fields |
| Validation.ErrorsInFieldOrder | src/validation.ts:14-54 | the errors come in the fixed order subject, scope, plan_id, origin, reason, policy_version, effective_at, expires_at, at most one per field |
| Validation.AtMostEightErrors | src/validation.ts:14-54 | no body draws more than eight errors |
| Validation.CoercePlanAssignmentFact | src/validation.ts:61-71 | requires the string and null types that validation establishes; the fact has no expiry exactly when `expires_at` is absent or null, and otherwise carries the string sent; the body copies the seven strings |
| Validation.CoerceInvertsEncode | src/validation.ts:61-71 | coercing the JSON body of any fact gives back that fact |
| Validation.EncodeInvertsCoerce | src/validation.ts:61-71 | coercion copies the six identity strings and `effective_at` unchanged and turns an absent or null `expires_at` into null |
| Validation.ValidatedFactIsComplete | src/validation.ts:57-71 | a body that passes validation coerces to a fact whose six identity strings are non-empty and whose timestamps parse |
| Validation.EncodedFactPasses | src/validation.ts:13-55 | every fact with non-empty identity strings and parseable timestamps passes validation when sent as JSON |

## Left out

- `src/index.ts` is not part of this model. It is the Express bootstrap and `listen`, process plumbing only.
- `src/db/pool.ts` and `src/db/init.ts` are not part of this model. They build the connection pool and run the schema file, which is environment, filesystem and database I/O.
- The HTTP handlers in `src/routes.ts` are left out: status codes, JSON bodies and logging. Their INSERT is captured only as `Append`.
- The query-parameter checks of the read route are left out. They read the clock (`new Date()`) and call `Date.parse`.
- The ISO 8601 formatting and parsing of `toISOString`, `Date.parse` and the database are parameters of the model. No calendar arithmetic is modelled.
- Timestamps are whole milliseconds. The database's microsecond precision and the range limits of JavaScript `Date` are not modelled.
- Database errors other than an unreadable timestamp literal are not modelled: connection loss, constraint failures and other I/O.
- `id` values consumed by failed inserts are not modelled. A SERIAL sequence can leave gaps; the model hands out ids without gaps.
- Concurrency of simultaneous appends, read consistency and the `effective_at DESC` index are left out. They are not functional properties of the sequential code.
- `created_at` plays no part in the tie-break because the query does not order by it. The model breaks ties by append order instead, as a labelled strengthening.
- GoldenVectors.ReadExpiringFact: Vector 3's reads at the current instant are read at one `clock` instant. Its unchanged row count follows from `Resolve` having no `modifies` clause rather than being stated again.
- The table teardown and console output of the test file are left out.

## Findings

| source | as written | input that shows it | evidently intended | confidence | as-written member | corrected member |
|---|---|---|---|---|---|---|
| src/state.ts:28 | `ORDER BY effective_at DESC LIMIT 1` with no tie-break, so the database may return any of several rows tied on `effective_at` | two facts for `user:1`/`billing`, both effective at `2024-01-01T00:00:00.000Z`, one with `plan_id` `a` and one with `b`, resolved at any later instant | one determined answer, as "Returns deterministic JSON state" (src/routes.ts:53) and Vector 4 (tests/golden.test.ts:208-215) promise; the model lets the fact appended last win | not executed; medium | State.TiedFactsAdmitTwoAnswers | State.LastLatestIsUnique |
