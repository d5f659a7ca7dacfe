# Task-list backend: a verified Dafny model

This project models the backend core of a small to-do application:

- the input validators and the sanitiser (`backend/utils/validators.js`);
- the stats arithmetic and response helpers (`backend/utils/taskHelpers.js`);
- the six route handlers that `createApp` registers (`backend/app.js`).

The route handlers are modelled over an in-memory task table in place of the database.

Modules, in dependency order:

- `Wrappers` (`wrappers.dfy`): `Option` and `Result`.
- `JsValues` (`js_values.dfy`): the untrusted JSON-like values a request can carry, JavaScript truthiness, and `String.prototype.trim`. Trim uses ECMAScript's full set of whitespace and line-terminator characters.
- `NumberConversion` (`number_conversion.dfy`): `Number(value)` for the values an id can take. Strings are trimmed, a blank string is 0, and otherwise the string must be a signed decimal literal (`12`, `12.`, `12.5`, `.5`). NaN is `None`. Numbers are exact rationals.
- `Validators` (`validators.dfy`): `IsValidTitle`, `IsValidId`, `IsValidStatus` and `SanitizeTaskData`. A truthy title or description that is not a string has no `trim` method, so the JavaScript call throws a TypeError; the sanitiser returns that as a `Failure` carrying the message.
- `Tasks` (`tasks.dfy`): the `Task` record and the partial update (`Patch`) that PUT applies.
- `TaskHelpers` (`task_helpers.dfy`): the stats object, the two response envelopes, the total, and the completion percentage. The percentage is computed exactly as `(200c + t) / (2t)`, that is, 100·c/t rounded half up.
- `TaskStore` (`task_store.dfy`): the table's invariant, the two count queries, and the listing of the newest incomplete tasks.
  - The listing is computed by walking the ids downwards.
  - Separately, the listing's promise is stated on creation times alone: stored, incomplete, strictly newest first, and only older tasks left out, and only once the limit is reached.
  - The walk is proved to be the one and only list that meets that promise.
- `App` (`app.dfy`): the class `TaskTable`.
  - Its fields are the task map, the next id, and a clock that hands out `createdAt`/`updatedAt` ticks.
  - The three store mutations (`Create`, `Update`, `Delete`) are methods, and so are the six routes.
  - Each route returns a `Response(status, body)` and names its store calls 0, 1, 2, … in the order the handler makes them. The `Fault` parameter says which call throws and with what message.
  - Prisma's "record not found" (P2025) is the separate `StoreError.RecordNotFound`. It comes from the table itself, never from a `Fault`.
- `ValidatorExamples` and `AppExamples`: the concrete cases of the repository's unit and integration tests, stated against the model.

A stored title is not always non-blank:

- `PUT /tasks/:id` passes `title` to the update without validating it (`backend/app.js:108-123`), so a blank title can be stored.
- The model therefore proves the non-blank title only for the task that POST creates (`SanitizedTitleIsClean`, together with `PostTasks`). `PutTask` stores whatever title the patch supplies.

## Model

| member | source | states |
|---|---|---|
| JsValues.Truthy | backend/utils/validators.js:39-40 | the falsy values are exactly `''`, `0`, `false`, `null` and `undefined`; every other value is truthy |
| JsValues.Field | backend/utils/validators.js:39-41 | reading an absent key gives `undefined`; a present key gives its value |
| JsValues.Trim | backend/utils/validators.js:10 | `s.trim()`: never longer than `s`; its shape is stated by the trim lemmas below |
| JsValues.SkipForward | backend/utils/validators.js:10 | the scan stops at the first non-whitespace character at or after the start, or at the end; every character it passes is whitespace |
| JsValues.SkipBackward | backend/utils/validators.js:10 | the backward scan stops after the last non-whitespace character above the lower bound; every character it drops is whitespace |
| JsValues.TrimShape | backend/utils/validators.js:10 | `trim` returns the middle slice `s[i..j]`; everything before `i` and from `j` on is whitespace; the slice starts and ends with non-whitespace |
| JsValues.TrimmedEnds | backend/utils/validators.js:10 | a trimmed string is empty or has non-whitespace at both ends |
| JsValues.TrimEmptyIff | backend/utils/validators.js:10 | `s.trim()` is empty exactly when `s` is all whitespace |
| JsValues.TrimClean | backend/utils/validators.js:39-40 | a string with no whitespace at either end is left unchanged by `trim` |
| JsValues.TrimOf | backend/utils/validators.js:10 | when `s` is whitespace, then a core with non-whitespace ends, then whitespace, `trim` returns exactly that core |
| JsValues.TrimIgnoresPadding | backend/utils/validators.js:10 | adding whitespace on either side of a string does not change its trimmed form |
| JsValues.TrimIdempotent | backend/utils/validators.js:39-40 | trimming twice gives the same result as trimming once |
| NumberConversion.StringToNumber | backend/utils/validators.js:19 | `Number` of a blank or all-whitespace string is 0; the lemmas below give the value of every signed decimal literal and show that every other string converts to NaN |
| NumberConversion.SignedToNumber | backend/utils/validators.js:19 | `Number('+d')` equals `Number(d)`, and `Number('-d')` is its negation (NaN stays NaN) |
| NumberConversion.NumberIgnoresPadding | backend/utils/validators.js:19 | whitespace on either side of a string does not change the number it converts to |
| NumberConversion.LeadingPointToNumber | backend/utils/validators.js:19 | `Number('.f')` is `f / 10^len(f)` |
| NumberConversion.ToNumber | backend/utils/validators.js:19 | `Number(v)`: a number is itself; any value that is neither a number nor a string gives 0, 1 or NaN |
| NumberConversion.DigitsToNumber | backend/utils/validators.js:19 | `Number` of a non-empty digit string is the decimal value of those digits |
| NumberConversion.DecimalRoundTrip | backend/utils/validators.js:19 | `Number` of the decimal spelling of every natural `n` is `n` (the spelling is `String(n)` for `n` below 10^21) |
| NumberConversion.PointLiteralToNumber | backend/utils/validators.js:19 | `Number("w.f")` is `w + f / 10^len(f)` |
| NumberConversion.PointValueFacts | backend/utils/validators.js:20 | `w.f` is never negative; it is positive unless both parts are zero; it is an integer exactly when the fraction digits are all zero |
| NumberConversion.UnsignedShape | backend/utils/validators.js:19 | the unsigned parser accepts only digits, or digits around exactly one point with at least one digit in all |
| NumberConversion.ParsedShape | backend/utils/validators.js:19 | the decimal parser accepts only such an unsigned literal, possibly after exactly one leading `+` or `-`; misplaced signs and extra points give NaN |
| NumberConversion.ParsedCharacters | backend/utils/validators.js:19 | every character of a literal the decimal parser accepts (after trimming) is a digit, a sign or a point |
| Validators.IsValidTitle | backend/utils/validators.js:9-11 | a valid title is always truthy, so the sanitiser trims it rather than replacing it with `''` |
| Validators.ValidTitleIff | backend/utils/validators.js:9-11 | a title is valid exactly when it is a string with a non-whitespace character; every non-string is invalid |
| Validators.TrimmedOrEmpty | backend/utils/validators.js:39-40 | a falsy field gives `''`; a string field gives the field trimmed; a truthy non-string field gives exactly the TypeError `data.<key>.trim is not a function` |
| Validators.SanitizeTaskData | backend/utils/validators.js:37-43 | succeeds exactly when neither field is a truthy non-string; title and description are each trimmed or `''`; `isCompleted` is true exactly for boolean `true`; the title's error wins over the description's |
| Validators.SanitizedTitleIsClean | backend/utils/validators.js:39 | for a valid title the sanitised title is non-empty with no whitespace at either end |
| Validators.SanitizeIdempotent | backend/utils/validators.js:37-43 | sanitising its own output gives the same payload back |
| Validators.IsValidId | backend/utils/validators.js:18-21 | a valid id always converts to a number of at least 1 |
| Validators.ValidIdNumber | backend/utils/validators.js:18-21 | a number is a valid id exactly when it is a positive integer |
| Validators.ValidIdDigits | backend/utils/validators.js:18-21 | a digit string is a valid id exactly when its value is positive |
| Validators.ValidIdPointLiteral | backend/utils/validators.js:18-21 | `"w.f"` is a valid id exactly when `w > 0` and the fraction is zero |
| Validators.ValidIdPositiveIntegers | backend/utils/validators.js:18-21 | every positive integer is valid as a number and as its decimal string; zero is valid in neither form |
| Validators.ValidIdPlusSign | backend/utils/validators.js:18-21 | a leading `+` does not change validity: `'+5'` is valid exactly when `'5'` is |
| Validators.ValidIdIgnoresPadding | backend/utils/validators.js:18-21 | whitespace around an id does not change validity: `' 7 '` is valid exactly when `'7'` is |
| Validators.ValidIdLeadingPoint | backend/utils/validators.js:18-21 | a literal `.f` lies in [0, 1), so it is never a valid id |
| Validators.ValidIdRejectsOtherCharacters | backend/utils/validators.js:19-20 | a string whose trimmed form holds a character other than digits, signs and points is invalid |
| Validators.ValidIdRejectsNonPositive | backend/utils/validators.js:20 | any value whose number conversion is zero or negative is invalid |
| Validators.ValidIdRejectsNegative | backend/utils/validators.js:18-21 | a minus sign in front of a literal makes the id invalid |
| Validators.IsValidStatus | backend/utils/validators.js:28-30 | a status is valid exactly when it is `true` or `false`; no other value is coerced |
| ValidatorExamples.TitleExample | backend/__tests__/unit/validators.test.js:12 | `'Valid Title'` is valid |
| ValidatorExamples.SpacePaddedTitleExample | backend/__tests__/unit/validators.test.js:35 | `'  Valid  '` is valid |
| ValidatorExamples.TabPaddedTitleExample | backend/__tests__/unit/validators.test.js:36 | `'\tValid\t'` is valid |
| ValidatorExamples.EmptyTitleExample | backend/__tests__/unit/validators.test.js:20 | `''` is invalid |
| ValidatorExamples.SpacesTitleExample | backend/__tests__/unit/validators.test.js:21 | `'   '` is invalid |
| ValidatorExamples.TabTitleExample | backend/__tests__/unit/validators.test.js:22 | `'\t'` is invalid |
| ValidatorExamples.NewlineTitleExample | backend/__tests__/unit/validators.test.js:23 | `'\n'` is invalid |
| ValidatorExamples.NonStringTitleExamples | backend/__tests__/unit/validators.test.js:26-32 | null, undefined, 123, `{}` and `[]` are invalid titles |
| ValidatorExamples.NumericIdExamples | backend/__tests__/unit/validators.test.js:41-64 | 1, 999999, `'1'` and `'123'` are valid ids; 0, -1 and 12.5 are not |
| ValidatorExamples.LetterIdExample | backend/__tests__/unit/validators.test.js:50 | `'abc'` is invalid |
| ValidatorExamples.NullWordIdExample | backend/__tests__/unit/validators.test.js:51 | `'null'` is invalid |
| ValidatorExamples.UndefinedIdExample | backend/__tests__/unit/validators.test.js:52 | `'undefined'` is invalid |
| ValidatorExamples.EmptyAndNegativeIdExamples | backend/__tests__/unit/validators.test.js:53-59 | `''` and `'-5'` are invalid |
| ValidatorExamples.FractionalIdExample | backend/__tests__/unit/validators.test.js:64 | `'12.5'` is invalid |
| ValidatorExamples.NonNumericIdExamples | backend/__tests__/unit/validators.test.js:67-72 | null, undefined, `{}` and `[]` are invalid ids |
| ValidatorExamples.TwoPointsIdExample | backend/utils/validators.js:19-20 | `'1.2.3'` converts to NaN and is an invalid id |
| ValidatorExamples.TrailingSignIdExample | backend/utils/validators.js:19-20 | `'5-'` converts to NaN and is an invalid id |
| ValidatorExamples.DoubleSignIdExample | backend/utils/validators.js:19-20 | `'++5'` converts to NaN and is an invalid id |
| ValidatorExamples.LonePointIdExample | backend/utils/validators.js:19-20 | `'.'` converts to NaN and is an invalid id |
| ValidatorExamples.LoneSignIdExample | backend/utils/validators.js:19-20 | `'+'` converts to NaN and is an invalid id |
| ValidatorExamples.StatusExamples | backend/__tests__/unit/validators.test.js:76-90 | booleans are valid statuses; `'true'`, 1 and null are not |
| ValidatorExamples.SanitizeExamples | backend/__tests__/unit/validators.test.js:115-153 | `{}` gives `('', '', false)`; `isCompleted: 'true'` gives false; `isCompleted: true` gives true |
| Tasks.Override | backend/app.js:118-122 | a supplied field replaces the stored value; an absent one keeps it |
| Tasks.ApplyPatch | backend/app.js:116-123 | an update keeps the id and `createdAt`, replaces exactly the supplied fields, and stamps `updatedAt` |
| Tasks.EmptyPatchKeepsContent | backend/app.js:118-122 | an empty body changes nothing but the update time |
| Tasks.PatchIdempotent | backend/app.js:116-123 | the same update applied twice has the effect of applying it once |
| Tasks.PatchLastWriterWins | backend/app.js:116-123 | a later full update overrides every field of an earlier one |
| TaskHelpers.FormatStats | backend/utils/taskHelpers.js:10-15 | the stats object carries the two counts unchanged |
| TaskHelpers.FormatTaskResponse | backend/utils/taskHelpers.js:23-28 | the envelope carries the task (possibly null) and the stats unchanged |
| TaskHelpers.FormatTasksResponse | backend/utils/taskHelpers.js:36-41 | the envelope carries the list (possibly empty) and the stats unchanged |
| TaskHelpers.CalculateTotalTasks | backend/utils/taskHelpers.js:49-51 | the total is the sum of the two counts |
| TaskHelpers.CalculateCompletionPercentage | backend/utils/taskHelpers.js:59-62 | 0 for no tasks; otherwise `p` with `2tp <= 200c + t < 2t(p+1)`, which is 100·c/t rounded half up |
| TaskHelpers.PercentageIsNearestInteger | backend/utils/taskHelpers.js:61 | on exact rationals, `p - 1/2 <= 100c/t < p + 1/2` |
| TaskHelpers.PercentageIsUnique | backend/utils/taskHelpers.js:61 | no other integer meets the rounding rule |
| TaskHelpers.PercentageBounds | backend/utils/taskHelpers.js:57-62 | with `c <= t` the percentage lies between 0 and 100 |
| TaskHelpers.NoneCompletedIsZero | backend/__tests__/unit/taskHelpers.test.js:118-120 | no completed tasks gives 0 percent |
| TaskHelpers.AllCompletedIsHundred | backend/__tests__/integration/tasks.test.js:338-352 | all tasks completed gives 100 percent |
| TaskHelpers.PercentageExamples | backend/__tests__/unit/taskHelpers.test.js:108-130 | (0,0)→0, (1,3)→33, (2,3)→67, (1,6)→17, (5,6)→83, (3,10)→30, (3,8)→38, (7,10)→70 |
| TaskStore.IdsWhere | backend/app.js:36-41 | the set of ids the count query with `isCompleted` counts, and nothing else |
| TaskStore.Count | backend/app.js:36-41 | definition: the size of `IdsWhere`, the number of tasks with the given completion flag |
| TaskStore.StatsOf | backend/app.js:36-44 | the stats are the incomplete count and the completed count of the table |
| TaskStore.CountsPartition | backend/app.js:36-41 | the two counts add up to the number of stored tasks |
| TaskStore.StatsSumToSize | backend/app.js:44 | `todo + completed` equals the table size |
| TaskStore.CountAfterInsert | backend/app.js:28-41 | inserting under a fresh id adds one to exactly the new task's count |
| TaskStore.CountAfterRemove | backend/app.js:154-164 | removing a task takes one from exactly its own count |
| TaskStore.CountAfterReplace | backend/app.js:116-131 | replacing a task moves it from its old count to its new one |
| TaskStore.NewestIncompleteBelow | backend/app.js:55-63 | the listing never exceeds the limit |
| TaskStore.WalkListsStoredIncomplete | backend/app.js:56-58 | every listed task is stored under its id and is incomplete |
| TaskStore.WalkIsNewestFirst | backend/app.js:59-61 | the listing's creation times strictly decrease |
| TaskStore.WalkMissesOnlyOlder | backend/app.js:55-63 | an incomplete task that is left out is older than every listed one, and the limit was reached |
| TaskStore.Sorted | backend/app.js:59-61 | a list that is newest first step by step is ordered newest first between any two positions |
| TaskStore.NewestIncompleteMeetsPromise | backend/app.js:55-63 | on a well-formed table the walk meets the whole listing promise |
| TaskStore.NewestIncompleteIsUnique | backend/app.js:55-63 | two lists that meet the promise are equal |
| TaskStore.ListingIsTheWalk | backend/app.js:55-63 | a list meets the promise exactly when it is the walk |
| App.ServerError | backend/app.js:46-48 | status 500 with the error message verbatim |
| App.CatchMutationError | backend/app.js:136-141 | 404 `'Task not found'` exactly for P2025; any other error is 500 with its message |
| App.IdOf | backend/app.js:92 | the key looked up is the positive integer `Number(id)` |
| App.IdOfDecimalString | backend/app.js:86-92 | the decimal spelling of a positive id passes validation and names that id |
| App.PostBody | backend/app.js:17 | the sanitiser sees the body's title and description, and no `isCompleted` |
| App.TaskTable.constructor | backend/app.js:10 | an empty, well-formed table whose first id is 1 |
| App.TaskTable.Create | backend/app.js:28-33 | a fresh id, the current tick, not completed; exactly one task added |
| App.TaskTable.Update | backend/app.js:116-123 | P2025 with nothing changed when the id is absent; otherwise only that task is replaced by the patched one |
| App.TaskTable.Delete | backend/app.js:154-156 | P2025 with nothing changed when the id is absent; otherwise exactly that task is removed and returned |
| App.TaskTable.ReadStats | backend/app.js:36-41 | fails with the message when either count read fails; otherwise the table's stats, summing to its size |
| App.TaskTable.PostTasks | backend/app.js:16-49 | 400 and no change for an invalid title; 500 for a sanitiser TypeError or a failed create, with no change; otherwise exactly the new task is inserted (fresh id, trimmed fields, not completed); then 500 if a count fails, else 201 with the task and stats in which todo grew by one |
| App.TaskTable.GetTasks | backend/app.js:52-79 | 500 for any failing call; otherwise 200 with a list that meets the newest-incomplete promise for a limit of 5, and the table's stats |
| App.TaskTable.GetTask | backend/app.js:82-103 | 400 for an invalid id; 500 for a failing lookup; otherwise 200 with the bare task, or 404 `'Task not found'` |
| App.TaskTable.PutTask | backend/app.js:106-142 | 400 or 500 or 404 leave the table as it was; otherwise only that task is patched; then 500 if a count fails, else 200 with the patched task and stats that move it between the counts |
| App.TaskTable.DeleteTask | backend/app.js:145-175 | 400 or 500 or 404 leave the table as it was; otherwise exactly that task is removed; then 500 if a count fails, else 200 with the deleted task and stats summing to one less than before |
| App.TaskTable.GetStats | backend/app.js:178-201 | 500 for a failing count; otherwise the bare `{todo, completed, total, completionPercentage}`, where total is the table size and the percentage is at most 100 |
| AppExamples.SevenIncompleteWalk | backend/__tests__/integration/tasks.test.js:104-121 | seven incomplete tasks with ids 1..7 are listed as 7, 6, 5, 4, 3 |
| AppExamples.SevenCreatedListsNewestFive | backend/__tests__/integration/tasks.test.js:104-121 | on that table the only list meeting the promise is Task 7 down to Task 3 |
| AppExamples.StatsExample | backend/__tests__/integration/tasks.test.js:363-382 | 3 incomplete and 7 completed give total 10 and 70 percent |
| AppExamples.NumericRouteIdExample | backend/__tests__/integration/tasks.test.js:152-156 | `/tasks/9999` passes validation and looks up id 9999 |
| AppExamples.WordRouteIdExample | backend/__tests__/integration/tasks.test.js:158-162 | `/tasks/invalid` is rejected with 400 before any lookup |

## Left out

- Express, CORS, JSON body parsing and the HTTP transport. A response is a status plus a body value.
- The Prisma client and its database. They are replaced by the in-memory table. The table's `createdAt` is a clock tick that grows with every create, and ids are handed out in the same order. The flakiness of real timestamps (two tasks created in the same millisecond) is not modelled.
- Concurrency. Each route runs alone. The window between a mutation and the two count reads, where another request could change the counts, is not modelled.
- Store failures are not derived from anything. A request's `Fault` parameter chooses which numbered store call throws and with what message.
- NumberConversion.StringToNumber: modelled for decimal literals only. Hexadecimal, binary and octal prefixes, exponents and `Infinity` give NaN in the model, where JavaScript reads them as numbers.
- NumberConversion.StringToNumber: digit strings are evaluated exactly. IEEE double precision loss on very long strings (for example `'1.0000000000000001'`) is not modelled.
- NaN, the infinities and negative zero cannot be written as a `JsNumber` value. A JSON body cannot carry them, and a route id is always a string. For a directly passed NaN or infinity, `isValidId` gives false in JavaScript too.
- NumberConversion.ToNumber: `Number` of a one-element array (`[5]` gives 5) is not modelled. The model treats every non-empty array as NaN, so "0, 1 or NaN" for non-numbers and non-strings holds of the model, not of JavaScript.
- IsValidId: follows from the two `Number` gaps above. JavaScript accepts `'0x10'`, `'1e2'` and `[5]` as ids, but the model rejects them, and the exact arithmetic judges very long digit strings differently from IEEE doubles.
- ValidIdRejectsOtherCharacters: true of the decimal-only model. It is false for real JavaScript on hexadecimal and exponent spellings.
- CalculateCompletionPercentage: computed with exact rational rounding, not IEEE doubles. Near exact halves `Math.round((c / t) * 100)` can differ: 29/200 gives 14 in JavaScript and 15 here.
- App.IdOf: Prisma's 32-bit `Int` id column is not modelled. An id that passes validation but exceeds 2^31 - 1 would make Prisma throw, giving a 500; in the model it is simply absent, giving a 404.
- App.TaskTable.PutTask: the body's fields are a typed `Patch` (string, string, boolean, or absent). Prisma's rejection of ill-typed values (a numeric title, a `null` title, a string `isCompleted`) is not modelled; such a request gets a 500 from the running system.
- The `updatedAt` stamping by the database is modelled as the table's clock tick at the update.
- `backend/index.js` (an older entry point with no validation) and `backend/server.js` (process start-up) are not part of this model, and neither is the test set-up file.
- The whole frontend (React components, hooks and the HTTP client) is not part of this model.
