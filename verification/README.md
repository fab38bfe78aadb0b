# Hydro contest scoring engine — a Dafny model

This project models the core of Hydro's contest module, `hydro/model/contest.js`.
It covers the two contest rules (ACM/ICPC and OI) and their statistics over a
participant's submission journal. It also covers the scoreboard and record
visibility gates, contest creation and editing with their validation, and the
per-participant status documents: attendance and journal appends. The phase
predicates (not started / ongoing / done, plus the "new" and "upcoming"
windows) and the shape of the OI scoreboard table are modelled too.

Everything is a pure function over immutable values:

- The document store is a value `Store`: contest documents by id, and status documents by (contest id, user id).
- The clock is a parameter `now` in milliseconds.
- The caller's permission check is a boolean `hasPerm`.
- The `lib/validator` checks are functions passed in as `Validators`.

Modules:

- `Wrappers` — `Option`, `Result`, `Outcome`.
- `Journal` — journal entries and the reference definitions the statistics are measured against: first accepted entry, last entry per problem, rejection count, and the order of first occurrence.
- `ContestDoc` — the contest document, the rule registry `{acm, oi}` and the error kinds.
- `AcmRule`, `OiRule` — the rule statistics and the OI scoreboard table.
- `Visibility`, `Phases` — the gates, the phase predicates and the status texts.
- `ContestStore` — `get`, `add`, `edit`, `attend`, `updateStatus` and the gate of `getScoreboard`.
- `Problems` — `verifyProblems`.

Some lines of the JavaScript cannot do what they evidently mean. The ACM loop at
lines 23-38 iterates indices with `for … in`, calls `includes` on a plain object,
increments an undefined counter and iterates a plain object with `for … of`. The
model reads them as intended:

- The loop walks the journal's entries in order.
- `effective` is a per-problem dictionary.
- `naccept[pid]` starts at 0.
- The detail list is built from `effective`'s values in key-insertion order. This reads problem ids as ObjectIDs (the type `add` documents for `pids`); see "## Left out" for what that premise means for the model.

`_time` reads `tdoc.begin_at`; the model uses the contest's `beginAt` in
milliseconds and takes `floor(beginAt / 1000)`. The OI loop at line 130 is read
the same way.

The model keeps these behaviours as written:

- ACM rejections are counted for every non-accepted entry of a problem in the whole journal, including entries after the acceptance (line 28 is outside the `if`). `AcmRule.LateRejectionPenalized` proves that such a rejection still costs 1200 seconds.
- OI sums the score of every entry for a contest problem, resubmissions included. For problems [1, 2] and entries (1, 40), (1, 70), (2, 30) the score is 140 (`OiRule.OiExample`).
- The ACM scoreboard is always visible (`showScoreboard: () => true`); only records wait for the end.
- `edit` checks `beginAt < endAt` only when both times are in the update, and does not re-check the merged contest (`ContestStore.EditAsWrittenBeginOnlyUnchecked`, and `ContestStore.EditBeginOnlyUnchecked` for the corrected edit).
- `updateStatus` appends the entry before it checks attendance, so a refused entry stays in the journal.
- `attend` does not check that the contest exists. On a missing contest the counter increment is a no-op.

## Model

| member | source | states |
|---|---|---|
| `AcmRule.AcmStat` | hydro/model/contest.js:17-41 | `accept` is the number of distinct contest problems with an accepted entry. `time` sums, over those problems only, first-acceptance time minus the begin second plus 1200 per rejection of that problem anywhere in the journal. Detail has one element per contest problem that occurs, in first-occurrence order, with its effective entry and rejection count. Each detail's `time` is its entry's generation second minus the begin second plus 1200 per rejection, and for an accepted entry this equals the problem's reference elapsed time |
| `AcmRule.ScanMatchesSpec` | hydro/model/contest.js:23-29 | after the loop, `effective[p]` is the first accepted entry of `p`, or its last entry if none was accepted, for exactly the contest problems that occur; `naccept[p]` counts all non-accepted entries of `p`; `order` equals the reference order, and before any entry for a problem the journal holds an entry for every problem listed earlier |
| `Journal.InScopeOrderIsFirstOccurrence` | hydro/model/contest.js:23-35 | the contest problems listed in detail order appear in the order of their first entries: an entry for each earlier-listed problem precedes every entry for a later-listed one |
| `Journal.FirstAcceptedIsFirst` | hydro/model/contest.js:23-26 | the accepted entry the scan keeps for a problem has no accepted entry for that problem before it in the journal |
| `AcmRule.AcceptedStaysEffective` | hydro/model/contest.js:24-26 | once an accepted entry is effective for a problem after a prefix of the journal, it is still the effective entry after the whole journal |
| `AcmRule.LateRejectionPenalized` | hydro/model/contest.js:28-39 | appending a rejection for an already solved contest problem leaves `accept` unchanged and adds exactly 1200 seconds to `time` |
| `AcmRule.AcmTimeNonNegative` | hydro/model/contest.js:30-39 | if no entry was generated before the contest's begin second, `time` is non-negative |
| `AcmRule.AcmExample` | hydro/model/contest.js:17-41 | a rejection at 10 minutes and an acceptance at 15 minutes give `accept = 1`, `time = 2100` |
| `OiRule.OiStat` | hydro/model/contest.js:127-137 | `score` is the sum of the scores of all journal entries for contest problems, without deduplication; `detail` maps exactly the contest problems that occur to their last entry |
| `OiRule.ScoreAdditive` | hydro/model/contest.js:130-135 | the score of a concatenated journal is the sum of the parts' scores |
| `OiRule.OutOfScopeIgnored` | hydro/model/contest.js:131-134 | an entry for a problem outside the contest, anywhere in the journal, changes neither score nor detail |
| `OiRule.OiExample` | hydro/model/contest.js:127-137 | entries (1, 40), (1, 70), (2, 30) on problems [1, 2] give score 140 and detail 70 for problem 1 |
| `OiRule.HeaderColumns` | hydro/model/contest.js:145-163 | the header has 3 + (number of contest problems) columns: rank, user, total score, then one per problem in contest order, typed `problem_score` on export and `problem_detail` otherwise |
| `OiRule.ProblemCell` | hydro/model/contest.js:172-178 | a problem cell shows `'-'` exactly when the participant has no entry for the problem or its last entry scored 0, otherwise that score; it links to the last entry's record when there is one |
| `OiRule.Row` | hydro/model/contest.js:168-179 | a row has 3 + (number of contest problems) cells: rank, user, total score, then the problem cells in contest order |
| `OiRule.Scoreboard` | hydro/model/contest.js:144-182 | the table has a header of 3 + (number of contest problems) columns and one row of 3 + (number of contest problems) cells per ranked participant, in ranked order |
| `OiRule.CellAgreesWithDetail` | hydro/model/contest.js:167-176 | a problem cell links to the record of the OI statistic's `detail` entry for that problem and shows `'-'` exactly when that entry scored 0 |
| `ContestDoc.LookupRule` | hydro/model/contest.js:187-189 | the registry resolves exactly the names `acm` and `oi` |
| `Visibility.ShowScoreboard` | hydro/model/contest.js:138-140 | the OI scoreboard is shown only after the end time; the ACM one (line 15) always |
| `Visibility.ShowRecord` | hydro/model/contest.js:141-143 | records are shown only after the end time, under both rules (ACM at line 16) |
| `Visibility.CanShowScoreboard` | hydro/model/contest.js:319-323 | fails with RuleNotRegistered exactly when the contest's rule is not registered (reading `showScoreboard` of `undefined`); otherwise true iff the rule's scoreboard gate holds, or the override is allowed and the viewer holds the hidden-scoreboard permission |
| `Visibility.CanShowRecord` | hydro/model/contest.js:313-317 | fails with RuleNotRegistered exactly when the contest's rule is not registered; otherwise true iff the contest has ended, or the override is allowed and the viewer holds the permission |
| `Visibility.RecordImpliesScoreboard` | hydro/model/contest.js:313-323 | whenever records may be shown, the scoreboard may be shown |
| `Visibility.GatesMonotoneInTime` | hydro/model/contest.js:313-323 | what a viewer may see at one instant they may still see at any later instant |
| `Visibility.PermissionNeedsOverride` | hydro/model/contest.js:313-323 | without the override the permission makes no difference |
| `Phases.NewAndUpcomingWithinNotStarted` | hydro/model/contest.js:287-299 | for a non-negative lead time, "new" and "upcoming" are disjoint and each implies "not started" |
| `Phases.ExactlyOnePhase` | hydro/model/contest.js:297-306 | when the contest does not end before it begins, exactly one of not started, ongoing and done holds |
| `Phases.GetStatusText` | hydro/model/contest.js:382-387 | `not_started` exactly before the begin, `ongoing` exactly while ongoing, `finished` exactly when neither holds, which is "done" for a contest that does not end before it begins |
| `Phases.StatusTextAsWritten` | hydro/model/contest.js:374-381 | "New" exactly before the one-day lead time, "Ready" exactly strictly inside it, "Live..." exactly while ongoing, and "Done" exactly when none of the three holds |
| `Phases.StatusTextGapBeforeStart` | hydro/model/contest.js:292-296 | exactly one day before the begin time the contest has not started, yet the text is "Done" |
| `Phases.StatusText` | hydro/model/contest.js:374-381 | the text is "Ready" exactly for the not-started time after the "new" window, "Live..." exactly while ongoing, and "Done" otherwise |
| `Phases.StatusTextAgreesOutsideGap` | hydro/model/contest.js:374-381 | the written and intended texts agree at every other instant |
| `Phases.StatusTextMatchesPhase` | hydro/model/contest.js:374-387 | for every contest, "New"/"Ready" mean `not_started`, "Live..." means `ongoing`, "Done" means `finished` |
| `ContestStore.Get` | hydro/model/contest.js:249-253 | returns the stored contest, or ContestNotFound for a missing id |
| `ContestStore.Add` | hydro/model/contest.js:208-221 | fails, in this order, on a rejected title, a rejected content, an unregistered rule, and `beginAt >= endAt`; otherwise stores the given fields under a fresh id with `attend = 0`, changing nothing else. It needs only that stored ids lie below the counter, and keeps the store invariant when it held |
| `ContestStore.Apply` | hydro/model/contest.js:241 | the fields present in the update replace the stored ones; owner and attendance count stay |
| `ContestStore.ValidateUpdate` | hydro/model/contest.js:230-237 | passes iff a truthy title passes `checkTitle`, a truthy content passes `checkIntro`, a checked rule is registered and the times are not both present and out of order. The first failing check, in that order, names the error: title, content, rule, then the time-order error |
| `ContestStore.EditWith` | hydro/model/contest.js:229-242 | validation errors come first, then ContestNotFound for a missing contest, then RuleNotRegistered when `$set.rule \|\| tdoc.rule` is not registered (line 240); it succeeds exactly otherwise, and then only the edited contest changes, to the merged document |
| `ContestStore.EditAsWritten` | hydro/model/contest.js:229-242 | a truthy unregistered rule is refused; a success stores the merged document |
| `ContestStore.EditAsWrittenStoresEmptyRule` | hydro/model/contest.js:232-241 | on a contest with a registered rule, an update with the rule `""` succeeds and stores an unregistered rule |
| `ContestStore.EditAfterEmptyRuleThrows` | hydro/model/contest.js:240 | after that edit, every edit that passes the checks and names no truthy rule fails with RuleNotRegistered for `""` |
| `ContestStore.Edit` | hydro/model/contest.js:229-242 | any present unregistered rule is refused, so a successful edit names a registered rule |
| `ContestStore.EditPreservesValid` | hydro/model/contest.js:229-242 | the intended edit keeps every stored contest on a registered rule |
| `ContestStore.EditBeginOnlyUnchecked` | hydro/model/contest.js:233-237 | on a contest with a registered rule, an update with only a begin time at or after the stored end succeeds and leaves `beginAt >= endAt` |
| `ContestStore.EditAsWrittenBeginOnlyUnchecked` | hydro/model/contest.js:233-241 | the same begin-only update succeeds under `edit` as written and leaves `beginAt >= endAt` |
| `ContestStore.Attend` | hydro/model/contest.js:273-281 | succeeds iff the pair has not attended; then its flag becomes 1, its journal is kept, the contest's counter rises by one, and nothing else changes; otherwise ContestAlreadyAttended |
| `ContestStore.AttendExactlyOnce` | hydro/model/contest.js:274-278 | a second `attend` for the same pair fails with ContestAlreadyAttended |
| `ContestStore.AttendRepeatedlyOnce` | hydro/model/contest.js:273-281 | any number (at least one) of `attend` calls on a pair that has not attended yields exactly one success and the same store as one call |
| `ContestStore.UpdateStatus` | hydro/model/contest.js:254-260 | a missing contest fails with ContestNotFound and changes nothing. Otherwise the entry is appended to the pair's journal and nothing else changes. The call passes iff the pair has attended, and otherwise fails with ContestNotAttended, keeping the entry |
| `ContestStore.UpdateAfterAttendSucceeds` | hydro/model/contest.js:254-260 | after a successful `attend` on an existing contest, `updateStatus` passes |
| `ContestStore.UpdatesWithoutAttendFail` | hydro/model/contest.js:254-260 | without attendance `updateStatus` fails and leaves the pair unattended, so the next call fails too |
| `ContestStore.AttendPreservesValid` | hydro/model/contest.js:273-281 | `attend` keeps the store invariant |
| `ContestStore.UpdateStatusPreservesValid` | hydro/model/contest.js:254-260 | `updateStatus` keeps the store invariant |
| `ContestStore.ScoreboardGate` | hydro/model/contest.js:325-327 | a missing contest fails with ContestNotFound; a contest on an unregistered rule fails with RuleNotRegistered whatever the permission; otherwise succeeds iff the rule is ACM, the contest has ended, or the viewer holds the permission, and fails with ContestScoreboardHidden otherwise |
| `Problems.VerifyProblems` | hydro/model/contest.js:341-349 | succeeds iff every id resolves, returning the documents' ids in input order; otherwise fails with ProblemNotFound for the first id that does not resolve |

## Left out

- Ranking (`ranked` from `lib/rank`, `oi.rank`) is not part of this model. The OI rule ranks ties on equal score; the ranking algorithm itself is not shown, so the scoreboard takes ranks as input.
- `getScoreboard` beyond its visibility gate is left out. That covers the status listing, the sort by `statusSort`, user and problem directory fetches, and translation. They are asynchronous orchestration over external collaborators.
- The ACM scoreboard builder (lines 42-121) is left out. It is string formatting and translation.
- The thin store wrappers `getStatus`, `getListStatus`, `getMultiStatus`, `setStatus`, `count` and `getMulti` are left out. They forward to the document store.
- The commented-out `recalc_status` (lines 390-412) is dead code.
- `packages/onlyoffice/index.ts` is an HTTP handler and is not part of this model.
- `lib/validator` is not part of this model. Its checks are caller-supplied predicates, and their failure is modelled as a validation error naming the checked field.
- The rules' `check` hooks are no-ops, so the rule-specific `data` fields are not modelled.
- Atomicity, concurrency and revision counters of the document store primitives are not modelled. Operations are applied one at a time.
- The id of a new contest comes from the store's counter `nextTid`, not from a generated ObjectID. `ContestStore.Add` needs only that every stored id lies below the counter (`IdsBelowNext`).
- `add`'s default begin and end times (`new Date()`) are not modelled; both times are explicit arguments.
- `attend` calls `document.inc` with an extra leading `document` argument. The model uses the evident meaning: increment the contest's `attend` counter.
- The rule registry is a plain object, so inherited names such as `constructor` also look registered. Only `acm` and `oi` are modelled as registered.
- A `TypeError` from reading a member of `RULES[name]` when `name` is not registered (lines 240, 314, 320, 327) is modelled as the error `RuleNotRegistered(name)`; JavaScript's error class and message are not.
- Problem ids are read as ObjectIDs, as `add` documents them (line 204), abstracted to integers compared by value. Two consequences differ from a literal reading. `tdoc.pids.includes(j.pid)` (lines 24, 131) compares ObjectIDs by reference in JavaScript; the model compares ids by value, as the code evidently intends. An ObjectID object key is a 24-digit hex string, never an array index, so a plain object keeps such keys in insertion order, which is the first-occurrence order `AcmRule.AcmStat` states. Were pids plain numbers, the object would list them in ascending order instead; that reading is not modelled.
- `ContestStore.Apply`: the update `$set` is an arbitrary object in the source, while the model's update carries only title, content, rule, begin and end times and problem ids. That owner and attendance count stay is a consequence of this restriction; an update naming other fields is not modelled.
- JavaScript `NaN` arising from a missing rejection counter or a missing score is not modelled. Counters read as 0 and scores are integers.
- `OiRule.HeaderColumns`: problem columns carry the problem id, not their caption. The caption is `'#{0} {1}'` formatted from the for-in index string and the problem title, and neither that formatting nor translation of the fixed captions is modelled.
- `OiRule.Row`: the user cell carries the user id, not the user name and directory entry from `udict`.

## Findings

| source | as written | input that shows it | evidently intended | confidence | as-written member | corrected member |
|---|---|---|---|---|---|---|
| hydro/model/contest.js:232 | the registry check runs only for a truthy rule, so an empty rule string skips it and `document.set` stores it; every later edit naming no rule then throws at line 240 | `edit` of an existing contest with `$set = {rule: ""}` | any rule present in the update must be registered | medium, not executed | `ContestStore.EditAsWritten`, `ContestStore.EditAsWrittenStoresEmptyRule`, `ContestStore.EditAfterEmptyRuleThrows` | `ContestStore.Edit`, `ContestStore.EditPreservesValid` |
| hydro/model/contest.js:374-381 | `isUpcoming` is strict at `beginAt - 1 day`, so at that instant `statusText` is neither "New" nor "Ready" and falls through to "Done" | `now = beginAt - 86400000` | the contest reads "Ready" until it begins | high, not executed | `Phases.StatusTextAsWritten`, `Phases.StatusTextGapBeforeStart` | `Phases.StatusText`, `Phases.StatusTextMatchesPhase` |
