# Climbing log: cascades, statistics and validation

A Dafny model of the core of a climbing-log backend. Users log **ascents** of **routes**, and routes lie in **areas**. The model covers three parts.

- **Cascading deletes** along Ascent → Route → Area:
  - the ascent service cascade;
  - the route service cascade;
  - the route document's own cascade;
  - the older post-`remove` hook of the ascent model.

  The store is three finite maps. A cascade that aborts its transaction returns `Failure` and commits nothing.
- **Derived statistics**, as pure functions over the ascent collection in natural order:
  - flash/send tests, the highest tick type, the earliest send and the sessions to send (the route-scoped service variant and the owner-scoped document variant);
  - first and last ascent dates;
  - Sunday-to-Saturday weeks and the gap-free weekly tick counts;
  - the per-grade tick-type table and the Ondra score;
  - the prefill date and min/max grades.
- **Validation**:
  - the Route, Ascent and Area schema rules, as functions from the constructor's fields to a document or a set of failing paths;
  - the Joi user-request validator.

Days are whole day numbers, with day 0 being 1970-01-01 (a Thursday). The configured tick types, route colours and steepness options are parameters. Queries are filter documents (`Query.Filter`) evaluated by `Query.Matches`.

Modules:
- `Wrappers`: `Option` and `Result`.
- `Entities`: documents, the store, store invariants.
- `Query`: `findOne`/`sort`/`countDocuments`/`distinct` over ascents.
- `Utils`: services/utils.services.js.
- `RouteServices`, `AscentServices`, `UserServices`: the service files.
- `RouteModel`, `AscentModel`, `AreaModel`: the model files.
- `UserValidator`: validators/user.validator.js.

## Model

| member | source | states |
|---|---|---|
| Utils.WeekStartDate | services/utils.services.js:7-10 | the week start is a Sunday, no later than the day and fewer than seven days before it |
| Utils.WeekEndDate | services/utils.services.js:17-20 | the week end is a Saturday, no earlier than the day and at most six days after it |
| Utils.WeekEndIsSixAfterStart | services/utils.services.js:7-20 | for the same day, end minus start is six |
| Utils.WeekStartIsUnique | services/utils.services.js:7-10 | any Sunday in the seven days ending at a day is that day's week start |
| Utils.WeekStartIdempotent | services/utils.services.js:8-9 | the week start of a Sunday is that Sunday, so taking the week start twice changes nothing |
| Utils.SundayToSaturday | services/utils.services.js:7-20 | a week-start Sunday no later than a week-end Saturday spans a whole number of weeks |
| Utils.CoveringWeek | services/ascent.services.js:88-92 | in n consecutive weeks from a Sunday, each day of their span falls in the week whose index is its whole-week distance from the Sunday |
| Utils.OndraScore | services/utils.services.js:30-46 | `null` exactly when fewer than three entries are non-null; otherwise the sum of 10 per `null` and min(s,10) per value, at most 10 per entry |
| Utils.ReduceIsSum | services/utils.services.js:36-42 | the left-fold `reduce` from 0 equals the plain sum of contributions |
| Utils.OndraScorePermutation | services/utils.services.js:30-46 | the score does not depend on the order of the entries |
| Utils.OndraScoreClamp | services/utils.services.js:40 | lowering an entry above 10 down to 10 leaves the score unchanged |
| Utils.OndraScoreMinusOne | services/utils.services.js:31-40 | a `-1` counts as non-null and contributes -1 |
| Utils.OndraScoreExamples | services/utils.services.js:30-46 | two sent routes give no score; three sent give their sum; an unsent one adds 10 |
| Query.Count | services/ascent.services.js:98-102 | `countDocuments` is at most the collection size and is zero exactly when nothing matches |
| Query.FindFirst | services/route.services.js:17-21 | `findOne` is `null` exactly when nothing matches, and otherwise is a match |
| Query.FindMinBy | services/route.services.js:103-104 | `findOne().sort({key: 1})` is `null` exactly when nothing matches, and otherwise is a match with the least key |
| Query.FindMaxBy | services/route.services.js:118-119 | `findOne().sort({key: -1})` is `null` exactly when nothing matches, and otherwise is a match with the greatest key |
| Query.DistinctDatesAtMostCount | services/route.services.js:84-89 | the distinct dates of the matches never outnumber the matches |
| Query.DistinctDatesSubset | models/route.model.js:72-77 | a narrower filter has no more distinct dates than a wider one |
| Entities.DeletedOnlyKeepsUniqueNames | models/route.model.js:7-11 | deleting documents keeps route names unique |
| RouteServices.IsFlashed | services/route.services.js:15-26 | true exactly when some ascent of the route, by any user, is a flash |
| RouteServices.IsSent | services/route.services.js:33-44 | true exactly when some ascent of the route is a flash or a redpoint |
| RouteServices.FlashedImpliesSent | services/route.services.js:15-44 | a flashed route is sent |
| RouteServices.HighestTickTypeAsWritten | services/route.services.js:46-54 | as written: `null` exactly when the route has no ascents, otherwise the tick type of one of its ascents |
| RouteServices.HighestTickType | services/route.services.js:46-54 | as intended: `null` exactly when the route has no ascents, otherwise a tick type of the route's ascents that no other outranks |
| RouteServices.HighestTickTypeAsWrittenMissesFlash | services/route.services.js:48 | on an attempt logged before a flash, the code as written reports the attempt and the intended lookup reports the flash |
| RouteServices.EarliestSentAscent | services/route.services.js:61-71 | `null` exactly when the route is unsent; otherwise a send of the route that no send of the route predates |
| RouteServices.SessionsToSend | services/route.services.js:73-94 | 0 when flashed; `null` exactly when unsent; otherwise the number of distinct dates of the route's ascents before its earliest redpoint, at most the route's ascent count |
| RouteServices.FirstAscentDate | services/route.services.js:101-109 | `null` exactly when the route has no ascents; otherwise the least ascent date |
| RouteServices.LastAscentDate | services/route.services.js:116-124 | `null` exactly when the route has no ascents; otherwise the greatest ascent date |
| RouteServices.FirstAscentNotAfterLast | services/route.services.js:101-124 | both dates exist together, and first is at most last |
| RouteServices.DeleteWithDependents | services/route.services.js:126-157 | fails with RouteNotFound, committing nothing, exactly when the route is missing; on success, only the route's ascents, the route and possibly its area go; the area goes exactly when it is the route's and no other route references it |
| RouteServices.DeleteWithDependentsKeepsReferences | services/route.services.js:133-147 | after success no ascent references the route, and intact references stay intact |
| RouteServices.TallyTicks | services/route.services.js:179-185 | the route loop fails exactly when a counted route's grade has no row, and on success keeps the table's shape: one row per grade, one count per tick type |
| RouteServices.TallyTicksCounts | services/route.services.js:179-185 | each row's counts grow by the routes at its grade with that highest tick type, and its total by the routes at its grade with any |
| RouteServices.TallyTicksTotals | services/route.services.js:181-184 | with listed, distinct tick types, each row's total stays the sum of its counts |
| RouteServices.GradeBestTickTypeCounts | services/route.services.js:159-192 | fails exactly when a counted route's grade is outside [min,max]; otherwise one row per grade, each count is the number of routes at that grade with that highest tick type, total counts the routes with any, and total is the sum of the counts |
| RouteServices.GradedTicks | services/route.services.js:179-181 | one input per route, with the route's grade and a highest tick type that is `null` exactly when the route has no ascents |
| RouteServices.GradedTicksListed | services/route.services.js:180-182 | when every ascent has a configured tick type, so does every route's highest tick type |
| RouteServices.GradedTicksAsWritten | services/route.services.js:179-181 | as the code builds it: one input per route, with the route's grade and the tick type of one of its ascents, `null` exactly when the route has no ascents |
| RouteServices.GradedTicksVariantsSameTotals | services/route.services.js:179-184 | the lookup bug moves routes between tick-type columns but never changes a grade's total |
| RouteServices.GradedTicksAsWrittenMisplacesFlash | services/route.services.js:180-182 | on an attempt logged before a flash, the table as written counts the route under `attempt`, the intended one under `flash` |
| RouteServices.SessionsAtGradeLength | services/route.services.js:211-214 | a grade's list `SessionsAtGrade` (the values the loop pushes onto that grade's row) has one entry per route at that grade |
| RouteServices.TallySessions | services/route.services.js:211-214 | fails exactly when some route's grade has no row; on success the table keeps its number of rows |
| RouteServices.TallySessionsRow | services/route.services.js:211-214 | on success each row is its start list followed by the sessions of the routes at its grade, in route order |
| RouteServices.GradedSessionsOf | services/route.services.js:211-213 | one input per route, with the route's grade and sessions that are `null` exactly when the route is unsent |
| RouteServices.GradeOndraScores | services/route.services.js:195-225 | fails exactly when a route is outside [min,max]; otherwise one row per grade, listing the sessions of the routes at that grade (`SessionsAtGrade`) with their Ondra score |
| UserServices.FirstAscentDate | services/user.services.js:8-16 | `null` exactly when the user has no ascents; otherwise the least ascent date |
| UserServices.LastAscentDate | services/user.services.js:23-31 | `null` exactly when the user has no ascents; otherwise the greatest ascent date |
| UserServices.FirstAscentNotAfterLast | services/user.services.js:8-31 | both dates exist together, and first is at most last |
| UserServices.LatestCreatedAt | services/user.services.js:38-46 | the greatest creation time among the user's ascents that have one |
| UserServices.LastAscentCreatedAt | services/user.services.js:38-59 | as intended, for ascents stored with a creation time, after `new Date(...)`: the epoch without ascents; an invalid date when no ascent has a creation time; otherwise the newest creation time |
| UserServices.PrefillCreateAscentDate | services/user.services.js:53-73 | as intended: when some creation time of the user's ascents is after now minus 12 hours, the result is the newest creation time; when the user has ascents and none is, the result is `now`; a user without ascents gets `now`, or the epoch while `now` is within 12 hours of it |
| UserServices.PrefillWithoutAscents | services/user.services.js:59-66 | a user without ascents gets `now` |
| UserServices.PrefillWithoutTimestamps | services/user.services.js:55-66 | ascents stored without timestamps always give `now` |
| UserServices.LastAscentCreatedAtAsWritten | services/user.services.js:38-43 | as written, after `new Date(...)`: the epoch exactly when the user has no ascents, otherwise an invalid date, since the schema declares no `createdAt` |
| UserServices.PrefillCreateAscentDateAsWritten | services/user.services.js:53-73 | as written: `now` for every user with ascents; for a user without, the same as the intended prefill |
| UserServices.PrefillVariantsAgreeWithoutTimestamps | services/user.services.js:38-73 | when no ascent carries a creation time, the prefill as written and as intended agree |
| UserServices.PrefillAsWrittenIgnoresRecentAscent | services/user.services.js:59-66 | an ascent created an hour ago: as written the prefill is `now`, as intended it is that creation time |
| UserServices.MinimumAscentGrade | services/user.services.js:80-88 | `null` exactly when the user has no graded ascent; otherwise the least route grade among them |
| UserServices.MaximumAscentGrade | services/user.services.js:95-103 | `null` exactly when the user has no graded ascent; otherwise the greatest route grade among them |
| UserServices.MaximumAscentGradeByTickType | services/user.services.js:105-113 | as the maximum, but only over the user's ascents of that tick type |
| UserServices.GradeRange | services/user.services.js:80-103 | both grades are `null` exactly when the user has no ascents, and the minimum is at most the maximum |
| UserServices.GradeByTickTypeAtMostMaximum | services/user.services.js:95-113 | the best grade for one tick type is at most the best grade overall |
| UserServices.UserGradeAsWritten | services/user.services.js:80-103 | the minimum and the maximum as written: `null` exactly when the user has no ascents, otherwise `undefined`, never a grade |
| UserServices.MaximumAscentGradeByTickTypeAsWritten | services/user.services.js:105-113 | as written: `null` exactly when the user has no ascent of that tick type, otherwise `undefined` |
| UserServices.GradeLookupsAsWrittenNeverGrade | services/user.services.js:80-113 | with intact references, the lookups as written give `undefined` exactly when the intended ones give a grade |
| UserServices.GradeSortAsWrittenMissesGrade | services/user.services.js:82-98 | one flash of a grade-5 route: as written the minimum and maximum are `undefined`, as intended both are 5 |
| AscentServices.DeleteWithDependents | services/ascent.services.js:15-70 | fails, committing nothing, when the ascent, its route or the route's area is missing; on success, the ascent goes, the route goes exactly when no other ascent references it, and the area goes exactly when no route references it afterwards |
| AscentServices.DeleteSucceedsIffChainExists | services/ascent.services.js:22-37 | the cascade succeeds exactly when ascent, route and area all exist |
| AscentServices.DeleteWithDependentsKeepsReferences | services/ascent.services.js:40-56 | success keeps references intact, and a kept route keeps its area |
| AscentServices.DeleteKeepsRouteWithOtherAscent | services/ascent.services.js:43-48 | with another ascent on the route, both the route and its area survive |
| AscentServices.DeleteRemovesWholeChain | services/ascent.services.js:43-56 | the last ascent of the last route of an area takes route and area with it |
| AscentServices.WeekRecord | services/ascent.services.js:93-111 | a week's record starts on the given day and ends at that day's week end |
| AscentServices.WeekRecordCounts | services/ascent.services.js:96-118 | each count is the number of the user's ascents of that tick type in the week; with distinct tick types, the total is the number of the user's ascents of any of them in the week |
| AscentServices.SumOfTickCounts | services/ascent.services.js:108 | per-tick-type counts over distinct tick types add up to the count over all of them |
| AscentServices.CollectWeeks | services/ascent.services.js:88-121 | from a Sunday to a later Saturday, the loop emits the weeks starting at the first Sunday plus seven days times their index, each a Sunday-to-Saturday record with its counts, the last ending at the Saturday |
| AscentServices.WeeksCover | services/ascent.services.js:88-92 | consecutive weeks from a Sunday cover every day of their span |
| AscentServices.WeeklyTickTypeCounts | services/ascent.services.js:73-127 | [] exactly when the user has no ascents; otherwise the weeks start at the first ascent's Sunday, end at the last ascent's Saturday, and week i starts 7·i days after the first, so none is skipped; each is one week with its counts, and every ascent of the user lies in one of them |
| RouteModel.ValidateRoute | models/route.model.js:6-43 | accepts exactly a non-empty name, an integral grade, a configured colour and an owner; `areaId` is optional and `bookmarked` defaults to false |
| RouteModel.RouteErrorPaths | models/route.model.js:7-29 | each failing path is reported exactly when its own rule is broken |
| RouteModel.RouteSchemaExamples | models/route.model.js:6-43 | a complete route saves with `bookmarked` false; a missing name, an unknown colour or a fractional grade fails on that path only; a route without an area saves |
| RouteModel.IsFlashed | models/route.model.js:46-49 | true exactly when the route's owner logged a flash of it |
| RouteModel.IsSent | models/route.model.js:52-59 | true exactly when the owner logged a flash or a redpoint of it |
| RouteModel.FlashedImpliesSent | models/route.model.js:46-59 | flashed by the owner implies sent by the owner |
| RouteModel.SentNotFlashedHasRedpoint | models/route.model.js:63-70 | a sent but not flashed route has an owner redpoint, so the earliest-redpoint lookup never comes back `null` |
| RouteModel.SessionsToSend | models/route.model.js:62-78 | 0 when flashed; -1 exactly when unsent; otherwise the number of distinct dates of all the owner's ascents, on any route, before the route's earliest owner redpoint |
| RouteModel.FirstSentAscent | models/route.model.js:81-87 | `null` exactly when the owner has not sent the route; otherwise an owner send of it that no owner send predates |
| RouteModel.SessionsVariantsCompare | models/route.model.js:62-78 | when only the owner climbed the route, the service and the document agree on flash and send, `null` matches -1 and 0 matches 0, and the route-scoped count is at most the owner-wide count |
| RouteModel.DeleteWithDependents | models/route.model.js:89-115 | only the route's ascents, the route and possibly its area go; the area goes exactly when the route's `areaId` names an existing area that no other route references; nothing can abort |
| RouteModel.DeleteToleratesMissingArea | models/route.model.js:97-101 | a missing area is not an error, and no area is deleted |
| RouteModel.DeleteVariantsAgree | models/route.model.js:89-115 | on a stored route the document cascade equals the service cascade's success |
| RouteModel.DeleteWithDependentsKeepsReferences | models/route.model.js:94-106 | no ascent of the route is left, and intact references stay intact |
| AscentModel.ValidateAscent | models/ascent.model.js:4-27 | accepts exactly when route, user, date and a configured tick type are given; notes are optional; each failing path is reported exactly when its rule is broken |
| AscentModel.NotesAreOptional | models/ascent.model.js:19-21 | notes never decide validity |
| AscentModel.AscentSchemaExamples | models/ascent.model.js:4-27 | a complete ascent saves with its notes; a missing route or an unknown tick type fails on that path only |
| AscentModel.PostRemove | models/ascent.model.js:30-36 | the hook as intended deletes the ascent's route exactly when no ascent references it, and touches nothing else |
| AscentModel.OtherAscents | models/ascent.model.js:31-32 | after an ascent is removed, a route has ascents exactly when another ascent referenced it |
| AscentModel.Remove | models/ascent.model.js:30-36 | removing an ascent with the intended hook deletes that ascent and, exactly when it was the route's last, its route; areas are never touched |
| AscentModel.RemoveKeepsReferences | models/ascent.model.js:30-36 | removing an ascent keeps references intact, with the intended hook and with the hook as written |
| AscentModel.HookAgreesWithServiceOnRoutes | models/ascent.model.js:30-36 | where the service cascade succeeds, the intended hook deletes the same ascents and routes and keeps a superset of areas; the hook as written deletes the same ascents, keeps every route, and throws exactly when the service deletes the route |
| AscentModel.HookLeavesEmptyArea | models/ascent.model.js:30-36 | on an area's only route with its only ascent, the service deletes all three, the intended hook leaves the area, and the hook as written throws and leaves the route and the area |
| AscentModel.PostRemoveAsWritten | models/ascent.model.js:30-36 | the hook as written throws exactly when no ascent references the route any more, and otherwise leaves the store unchanged |
| AscentModel.RemoveAsWritten | models/ascent.model.js:30-36 | removing an ascent with the hook as written deletes only that ascent, and reports the hook's error exactly when it was the route's last |
| AscentModel.HookVariantsDiffer | models/ascent.model.js:31-34 | both hooks delete the same ascents; the intended one keeps a subset of the routes, and on a stored route it deletes the route exactly when the one as written throws |
| AreaModel.ValidateArea | models/area.model.js:4-20 | accepts exactly a non-empty name, an owner `user` and tags that are all options; tags default to []; each bad tag fails on its own element path |
| AreaModel.ValidTagsAccepted | models/area.model.js:14-19 | any list of options, including all of them, is accepted as given |
| AreaModel.InvalidTagRejected | models/area.model.js:14-19 | one bad tag rejects the area on that tag's path and on no good tag's path |
| AreaModel.AreaSchemaExamples | models/area.model.js:4-20 | no tags default to []; a missing name fails on `name`; a bad single tag fails on `steepnessTags.0`; an owner given as `userId` fails on `user` |
| UserValidator.Validate | validators/user.validator.js:4-8 | passes exactly when the rules hold: username is 3 to 30 characters, password at least 6, newPassword absent or at least 6; otherwise reports the first failing key in declaration order |
| UserValidator.ExtraKeysIgnored | validators/user.validator.js:8 | keys outside the schema never change the outcome |
| UserValidator.NewPasswordOptional | validators/user.validator.js:7 | a valid body stays valid without `newPassword` |
| UserValidator.LengthBounds | validators/user.validator.js:5-6 | username lengths 3 and 30 pass and 2 and 31 fail; a 5-character password fails |
| UserValidator.RequestExamples | validators/user.validator.js:4-8 | a complete body passes; a missing username, a missing password or a 4-character password fails on that key |

## Left out

- Transactions and sessions: atomicity is modelled only as "a `Failure` commits nothing". Interleavings, retries and driver errors are out of scope.
- Time of day, time zones and daylight saving in `getDay`/`new Date(...)`: days are whole day numbers.
- AscentServices.WeekRecord: counts every ascent dated on the week's Saturday. The source bounds the week with `$lte` at Saturday midnight, so ascents later that Saturday would not count.
- UserServices.PrefillCreateAscentDate: reads the clock once, as the parameter `now`. The source calls `new Date()` twice.
- UserServices.LastAscentCreatedAt: the creation-time branch models the documented intent, for ascents stored with timestamps. The code as written is `UserServices.LastAscentCreatedAtAsWritten`, a finding below.
- AscentModel.RemoveKeepsReferences, AscentModel.HookAgreesWithServiceOnRoutes and AscentModel.HookLeavesEmptyArea: each states its property of the intended hook and of the hook as written, which throws at models/ascent.model.js:33 (a finding below). Whether a rejected post hook is reported to the caller of `remove()` is not modelled.
- RouteServices.EarliestSentAscent: breaks date ties by natural order. The source's secondary `createdAt` sort is not modelled, because ascents are stored without timestamps.
- RouteServices.HighestTickType: takes the tick-type ranking as a parameter (lowest first). configs/constants.js is not part of this model.
- RouteServices.GradedTicks: builds the tick table's input with the corrected lookup `RouteServices.HighestTickType`, not the code as written. `RouteServices.GradedTicksAsWritten` is the input the code builds.
- The configured tick types, route colours and steepness options are parameters, for the same reason.
- RouteServices.GradeBestTickTypeCounts: takes the grade range and each route's grade and highest tick type as inputs. The route fetch and the un-awaited min/max calls are left out, as are the default import that lacks them and the temporal-dead-zone error from the shadowed `sessionsToSend` at services/route.services.js:212. A route whose grade has no row is a `Failure`, standing for the `TypeError` the code throws.
- RouteServices.GradeOndraScores: same treatment as the tick-count aggregation.
- UserServices.MinimumAscentGrade: models the intended lookup. An ascent has no `grade` field, so its grade is read from its route, and ascents whose route is missing are ignored. The code as written is a finding below.
- UserServices.MaximumAscentGrade and UserServices.MaximumAscentGradeByTickType: same treatment as the minimum.
- `getBestAscentsByTickType`: left out because its promise is never awaited and `filter` runs over promises.
- `getMaximumSentAscentGradeByArea`: left out because it uses `Route` without importing it.
- Route-name uniqueness: the unique index is stated as the store invariant `Entities.UniqueRouteNames`, which deletes preserve. Inserts are not modelled.
- Mongoose type casting (strings to numbers or dates, ObjectId parsing): the schema inputs are already typed. Only the set of failing paths is modelled, not the error messages.
- UserValidator.Validate: counts string length in characters. Joi counts UTF-16 code units, so they differ outside the Basic Multilingual Plane.
- Password hashing and comparison, JWT handling, the user controller, Express wiring, middlewares, database configuration and the duplicate user model: these are foreign calls or plumbing.

## Findings

| source | as written | input that shows it | evidently intended | confidence | as-written member | corrected member |
|---|---|---|---|---|---|---|
| services/route.services.js:48 | `findOne({ routeId }).sort({ tickTypeOrder: -1 })` sorts on a field no ascent has, so every ascent ties and the first ascent of the route in natural order is returned | route 1 with an `attempt` on day 100, then a `flash` on day 101: returns `attempt`. The grade table at services/route.services.js:180 inherits it and counts the route under `attempt` | the tick type of the route's highest-ranked ascent (`flash`) | high that the sort key is absent from the schema; not executed | RouteServices.HighestTickTypeAsWritten (RouteServices.HighestTickTypeAsWrittenMissesFlash, RouteServices.GradedTicksAsWritten, RouteServices.GradedTicksAsWrittenMisplacesFlash) | RouteServices.HighestTickType (RouteServices.GradedTicks) |
| services/user.services.js:82-108 | `findOne({ userId }).sort({ grade: 1 })` (and `-1`, and with a `tickType`) sorts ascents on `grade`, a field the ascent schema does not have, and returns `minAscent.grade` | one `flash` by user 7 of route 1, graded 5: returns `undefined` | the least (greatest) grade of the routes the user climbed: 5 | high that ascents store no `grade`; not executed | UserServices.UserGradeAsWritten, UserServices.MaximumAscentGradeByTickTypeAsWritten (UserServices.GradeSortAsWrittenMissesGrade) | UserServices.MinimumAscentGrade, UserServices.MaximumAscentGrade, UserServices.MaximumAscentGradeByTickType |
| models/ascent.model.js:33 | the post-`remove` hook calls `Route.findByIdAndRemove`, but the file imports only `mongoose` and the tick types, so the call throws `ReferenceError: Route is not defined` | remove ascent 1, the only ascent of route 10: route 10 stays | delete route 10, the route's last ascent being gone | high that `Route` is not in scope; not executed | AscentModel.PostRemoveAsWritten, AscentModel.RemoveAsWritten (AscentModel.HookLeavesEmptyArea, AscentModel.HookVariantsDiffer) | AscentModel.PostRemove, AscentModel.Remove |
| services/user.services.js:40-41 | `lastAscent.createdAt` reads a path the ascent schema does not declare (no `createdAt`, no timestamps), so it is `undefined` and `new Date(undefined)` is an invalid date | user 7's ascent created an hour ago: the prefill is `now` | the prefill is that ascent's creation time | medium: the schema would need timestamps for the documented behaviour; not executed | UserServices.LastAscentCreatedAtAsWritten, UserServices.PrefillCreateAscentDateAsWritten (UserServices.PrefillAsWrittenIgnoresRecentAscent) | UserServices.LastAscentCreatedAt, UserServices.PrefillCreateAscentDate |
