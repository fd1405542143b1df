# Request-ID reconciliation (nZEDb `ReqIDLocal`), modelled in Dafny

nZEDb indexes Usenet binary posts. Posters often title a post with an opaque
request number rather than its human name, and a reference catalog (`predb`)
records which scene release each request number belongs to, per group.
`ReqIDLocal` runs as a batch: it selects "request-ID" releases that still need a
name (`_buildWorkQuery`), extracts each one's request number from its obfuscated
name (`_siftReqId`), looks the number up in the catalog under the posted group,
tries a fixed table of alternate groups when the query fails
(`_singleAltLookup`), and falls back to a title heuristic (`_multiLookup`). A match
renames the release, stamps its catalog id and status `REQID_FOUND`, and — when the
classifier places it in another category — resets its category-specific metadata
(`_updateRelease`). A miss writes a failure status that makes later runs retry it
(`_requestIdNotFound`).

Modules, in dependency order:

| file | module | models |
|---|---|---|
| `wrappers.dfy` | `Wrappers` | `Option` |
| `text.dfy` | `Text` | characters, runs, literal matches, decimal values |
| `status.dfy` | `Status` | the six `REQID_*` status codes |
| `reqid_sift.dfy` | `ReqIdSift` | the five patterns of `_siftReqId` and their cascade |
| `predb.dfy` | `PreDb` | catalog rows, `queryOneRow` and `queryDirect` |
| `title_lookup.dfy` | `TitleLookup` | `_multiLookup` and its query condition |
| `group_remap.dfy` | `GroupRemap` | `_singleAltLookup` and its remap table |
| `stage_lookup.dfy` | `StageRouter` | `_stageLookup` and its season guard |
| `releases.dfy` | `Releases` | release rows and the two writes made to them |
| `work_query.dfy` | `WorkQuery` | the WHERE, ORDER BY and LIMIT of `_buildWorkQuery` |
| `local_lookup.dfy` | `LocalLookup` | class `ReqIdLocal`: `standaloneLocalLookup`, `_updateRelease`, `_requestIdNotFound` |
| `sift_examples.dfy` | `SiftExamples`, `GuardExamples` | worked examples on concrete names and titles |

The pure routines (`_siftReqId`, `_multiLookup`, `_singleAltLookup`, `_stageLookup`,
the WHERE predicate) are functions. The releases table is a `seq<Release>` field of
the class `ReqIdLocal`, whose methods rewrite it in place. The per-row loop is a
`while` loop proved against `ApplyBatch`, the function that specifies the table after
a run.

Where English descriptions of the engine and the code differ, the model follows the
code:

- A request-ID query that succeeds with zero rows goes to `_multiLookup`; only a
  query returning `false` reaches `_singleAltLookup` (lines 446-467).
- The failure status depends on the row's current `reqidstatus`: `REQID_NOLL` for
  `REQID_UPROC`, `REQID_NONE` otherwise (line 127). It does not depend on whether a
  request number was present.
- In `full` and the numeric mode the hour window binds as
  `(isrenamed = 0 AND isrequestid = 1) OR postdate > …` (lines 161-204).

## Model

| member | source | states |
|---|---|---|
| Text.DecimalValue | nzedb/controllers/ReqIDLocal.php:337 | the `(int)` of a digit capture is positive exactly when some digit is not `0` |
| ReqIdSift.Search | nzedb/controllers/ReqIDLocal.php:335-345 | an unanchored `preg_match` returns the match at the leftmost start where the pattern matches, with no match at any earlier start; no result means no start matches |
| ReqIdSift.SearchFinds | nzedb/controllers/ReqIDLocal.php:335-345 | a match at `j` with none before it is exactly the one the search returns |
| ReqIdSift.ScnzbTagAt | nzedb/controllers/ReqIDLocal.php:336 | rule 1 tried at one position; `ScnzbTagSound` and `ScnzbTagComplete` show it returns exactly the capture of a split of the pattern there |
| ReqIdSift.BracketAt | nzedb/controllers/ReqIDLocal.php:342 | rule 2 tried at one position; `BracketSound` and `BracketComplete` show it returns exactly the capture of a split of the pattern there |
| ReqIdSift.ReqPrefix | nzedb/controllers/ReqIDLocal.php:343 | rule 3, anchored at the start; `ReqSound` and `ReqComplete` show it returns the longest 4-6 digit capture of a split |
| ReqIdSift.DashDigitPrefix | nzedb/controllers/ReqIDLocal.php:344 | rule 4, anchored at the start; `DashDigitIff` states its captures in both directions |
| ReqIdSift.DigitsDashAt | nzedb/controllers/ReqIDLocal.php:345 | rule 5 tried at one position; `DigitsDashIff` states its captures in both directions |
| ReqIdSift.Decide | nzedb/controllers/ReqIDLocal.php:337-350 | the body a matching case reaches: the sentinel exactly when every captured digit is `0`, otherwise the positive `(int)` of the capture |
| ReqIdSift.ScnzbTagSound | nzedb/controllers/ReqIDLocal.php:336 | a rule-1 match at `i` has the shape `[`, optional space, optional `#`, `scnzb`, optional `@`, `efnet`, optional space, `][`, digits, `]`, and captures those digits |
| ReqIdSift.ScnzbTagComplete | nzedb/controllers/ReqIDLocal.php:336 | every such split is found by the matcher, with the same capture |
| ReqIdSift.BracketSound | nzedb/controllers/ReqIDLocal.php:342 | a rule-2 match is `[`, white space, digits, white space, `]`, capturing the digits |
| ReqIdSift.BracketComplete | nzedb/controllers/ReqIDLocal.php:342 | every such split is found, with the same capture |
| ReqIdSift.ReqSound | nzedb/controllers/ReqIDLocal.php:343 | a rule-3 match is `REQ` in any case at the start, white space, and 4 to 6 digits, the capture being the longest such digit run |
| ReqIdSift.ReqComplete | nzedb/controllers/ReqIDLocal.php:343 | every such prefix is found |
| ReqIdSift.DashDigitIff | nzedb/controllers/ReqIDLocal.php:344 | rule 4 captures `cap` iff the name starts with 4 to 6 digits `cap`, `-`, one digit, `[` |
| ReqIdSift.DigitsDashIff | nzedb/controllers/ReqIDLocal.php:345 | rule 5 matches at `i` with capture `cap` iff `cap` is 4 to 6 digits there followed by ` -` |
| ReqIdSift.Cascade | nzedb/controllers/ReqIDLocal.php:335-352 | the result is the sentinel or positive, and a positive result is the value some rule captured |
| ReqIdSift.SiftReqId | nzedb/controllers/ReqIDLocal.php:333-353 | `_siftReqId` returns either a positive ID or `REQID_ZERO` |
| ReqIdSift.CascadeFirstMatch | nzedb/controllers/ReqIDLocal.php:335-351 | the first rule that matches decides, whatever the later rules would give |
| ReqIdSift.CascadeNoMatch | nzedb/controllers/ReqIDLocal.php:352 | no rule matching gives the sentinel |
| ReqIdSift.SiftScnzbFirst | nzedb/controllers/ReqIDLocal.php:336-341 | a scnzb tag decides alone, and its ID 0 gives the sentinel without trying the other rules |
| ReqIdSift.SiftStacked | nzedb/controllers/ReqIDLocal.php:342-350 | otherwise the first of the four stacked rules that matches decides |
| ReqIdSift.SiftNoMatch | nzedb/controllers/ReqIDLocal.php:351-352 | no pattern matching gives `REQID_ZERO` |
| SiftExamples.SevenDigitsCapture | nzedb/controllers/ReqIDLocal.php:345 | on `1234567 -` rule 5 captures `234567`: the leftmost match starts one character in |
| SiftExamples.TaggedZeroIsSentinel | nzedb/controllers/ReqIDLocal.php:336-342 | `[123] [scnzb@efnet][0]` gives `REQID_ZERO` although the bracket rule alone would capture `123` |
| PreDb.FirstIndex | nzedb/controllers/ReqIDLocal.php:273-290 | the first row satisfying the WHERE condition, with none before it; none means no row satisfies it |
| PreDb.QueryOneRow | nzedb/controllers/ReqIDLocal.php:402-409 | `queryOneRow` gives a catalog row satisfying the condition, or `false` only when none does |
| PreDb.Select | nzedb/controllers/ReqIDLocal.php:438-445 | `queryDirect` gives exactly the rows satisfying the condition |
| PreDb.SelectAtLeastTwo | nzedb/controllers/ReqIDLocal.php:447-448 | two matching rows make the row count at least two |
| PreDb.SelectOne | nzedb/controllers/ReqIDLocal.php:447-449 | exactly one matching position makes the result that one row, so the row count is one |
| PreDb.SelectNone | nzedb/controllers/ReqIDLocal.php:447-448 | no matching row makes the result empty, so the row count is zero |
| TitleLookup.TitleCaptured | nzedb/controllers/ReqIDLocal.php:270-272 | regex1's captures when it matches, else regex2's; `MultiRegex1Wins` and `MultiRegex2Fallback` state both routes |
| TitleLookup.TitleCondition | nzedb/controllers/ReqIDLocal.php:273-290 | `title = T OR filename = T [OR filename = F]`; `Filename2OnlyWithoutFilename1` and `ExtraFilename` fix which filename joins |
| TitleLookup.ExtraFilename | nzedb/controllers/ReqIDLocal.php:279-288 | the extra term uses `filename1` when non-empty, else `filename2` when non-empty, else nothing |
| TitleLookup.TitleQuery | nzedb/controllers/ReqIDLocal.php:273-293 | the result is the title and id of the first row with `title = T`, `filename = T` or `filename = F`; `false` only when no row qualifies |
| TitleLookup.MultiLookup | nzedb/controllers/ReqIDLocal.php:251-299 | a result needs a regex to have matched and is a catalog row satisfying the condition built from the captures used; `false` after a match means no row satisfies it |
| TitleLookup.MultiNoPattern | nzedb/controllers/ReqIDLocal.php:295-296 | neither regex matching gives `false` whatever the catalog holds |
| TitleLookup.MultiRegex1Wins | nzedb/controllers/ReqIDLocal.php:270-272 | when regex1 matches its captures are used and regex2 plays no part |
| TitleLookup.MultiRegex2Fallback | nzedb/controllers/ReqIDLocal.php:270-272 | when regex1 fails and regex2 matches, the result is the title query of regex2's captures |
| TitleLookup.Filename2OnlyWithoutFilename1 | nzedb/controllers/ReqIDLocal.php:280-286 | with a non-empty `filename1`, `filename2` is not part of the condition |
| TitleLookup.TitleQueryFirst | nzedb/controllers/ReqIDLocal.php:273-293 | the first qualifying row is the one returned |
| GroupRemap.FirstFiring | nzedb/controllers/ReqIDLocal.php:370-400 | the index of the first rule of the table whose test holds, with none before it; none when no test holds |
| GroupRemap.RemapTable | nzedb/controllers/ReqIDLocal.php:370-397 | the nine `case`s in their order, each a test and a target group; `RemapFirstMatchWins`, `RemapEtcIsTeevee` and `RemapTeeveeBeforeOthers` pin the order |
| GroupRemap.Fires | nzedb/controllers/ReqIDLocal.php:371-396 | a test is `$groupName ==` or a case-sensitive `strpos !== false`; `RemapCaseSensitive` shows the case sensitivity |
| GroupRemap.Remap | nzedb/controllers/ReqIDLocal.php:370-400 | an alternate group exists iff some rule of the table fires |
| GroupRemap.SingleAltLookup | nzedb/controllers/ReqIDLocal.php:366-414 | a result needs a remap and is a catalog row with that request ID under the alternate group's id; conversely a remap plus such a row always gives a result |
| GroupRemap.AltFindsRow | nzedb/controllers/ReqIDLocal.php:401-412 | with a rule firing, a predb row with the request ID under the alternate group's id is found |
| GroupRemap.AltFirstRow | nzedb/controllers/ReqIDLocal.php:401-412 | with a rule firing, the first predb row with the request ID under the alternate group is the one returned |
| GroupRemap.RemapFirstMatchWins | nzedb/controllers/ReqIDLocal.php:370-397 | the target is that of the first rule that fires |
| GroupRemap.RemapEtcIsTeevee | nzedb/controllers/ReqIDLocal.php:371-373 | group `alt.binaries.etc` maps to teevee whatever the name says |
| GroupRemap.RemapTeeveeBeforeOthers | nzedb/controllers/ReqIDLocal.php:371-376 | in every group, a name containing `teevee` maps to teevee even if it also contains a later needle |
| GroupRemap.RemapCaseSensitive | nzedb/controllers/ReqIDLocal.php:374-396 | the substring tests are case-sensitive: a name without lower-case letters fires none |
| GroupRemap.AltNoRuleNoQuery | nzedb/controllers/ReqIDLocal.php:398-399 | no rule firing gives `false` whatever the catalog holds |
| StageRouter.EpisodeTitlePassesGuard | nzedb/controllers/ReqIDLocal.php:451 | a title with an `s\d+e\d+` marker is never rejected by the season guard |
| StageRouter.SeasonOnly | nzedb/controllers/ReqIDLocal.php:451 | `/s\d+/i` matches and `/s\d+e\d+/i` does not; `EpisodeTitlePassesGuard` and `SeasonPackIsSeasonOnly` show what it accepts and rejects |
| StageRouter.RequestRows | nzedb/controllers/ReqIDLocal.php:437-445 | the rows of `requestid = %d AND group_id = %d`: exactly the predb rows with that request ID under the posted group's id |
| GuardExamples.EpisodeTitleAccepted | nzedb/controllers/ReqIDLocal.php:451 | `Some.Show.S02E04.720p.HDTV` passes the guard |
| GuardExamples.SeasonPackIsSeasonOnly | nzedb/controllers/ReqIDLocal.php:451 | `Show.S02.720p` has the season marker and no episode marker, so the guard rejects it |
| GuardExamples.SeasonPackRejected | nzedb/controllers/ReqIDLocal.php:449-453 | when the only request row is that season pack, the stage lookup gives `false` |
| StageRouter.StageLookup | nzedb/controllers/ReqIDLocal.php:426-470 | any result is some catalog row's title and id |
| StageRouter.StageSentinel | nzedb/controllers/ReqIDLocal.php:433-435 | the sentinel goes straight to the title heuristic |
| StageRouter.StageQueryFailed | nzedb/controllers/ReqIDLocal.php:461-467 | a failed request-ID query uses the alternate-group result when its title is non-empty, else the title heuristic |
| StageRouter.StageNotUnique | nzedb/controllers/ReqIDLocal.php:457-459 | zero or several rows go to the title heuristic |
| StageRouter.StageAmbiguous | nzedb/controllers/ReqIDLocal.php:458-459 | two catalog rows sharing the request ID and group are never chosen between |
| StageRouter.StageUniqueRow | nzedb/controllers/ReqIDLocal.php:437-455 | exactly one predb row with the request ID under the posted group: a season-only title gives `false`, any other gives that row's title and id |
| StageRouter.StageNoRow | nzedb/controllers/ReqIDLocal.php:437-459 | no predb row with the request ID under the posted group: the title heuristic decides, not the alternate lookup |
| StageRouter.StageAltRemap | nzedb/controllers/ReqIDLocal.php:461-464 | a failed query with a rule firing returns the first predb row with the request ID under the alternate group, when that row has a title |
| StageRouter.StageSingleRow | nzedb/controllers/ReqIDLocal.php:449-455 | exactly one row: a season-only title gives `false`, any other gives that row's title and id |
| Releases.ResetDerivedMetadata | nzedb/controllers/ReqIDLocal.php:500-501 | `rageid` becomes -1, the ten metadata columns NULL, and nothing else changes |
| Releases.Renamed | nzedb/controllers/ReqIDLocal.php:486-510 | the row after `_updateRelease`; `RenamedFields` pins every column of both branches |
| Releases.RenamedFields | nzedb/controllers/ReqIDLocal.php:486-510 | both update branches set `preid`, `REQID_FOUND`, `isrenamed`, `iscategorized` and `searchname`; only a changed category also writes `categoryid` and resets the metadata; identity, group, postdate and flags are untouched |
| Releases.RenameWhere | nzedb/controllers/ReqIDLocal.php:487-509 | the rename touches only the row with that id |
| Releases.StatusWhere | nzedb/controllers/ReqIDLocal.php:314-322 | the failure write changes only `reqidstatus` of the row with that id |
| Releases.WritesKeepIds | nzedb/controllers/ReqIDLocal.php:487-509 | neither write breaks the uniqueness of ids |
| WorkQuery.WindowHours | nzedb/controllers/ReqIDLocal.php:161-179 | the hour window: `$argv[2]` when numeric, else `$argv[3]` when numeric, else no window |
| WorkQuery.WindowPrecedence | nzedb/controllers/ReqIDLocal.php:161-179 | `$argv[2]` wins over `$argv[3]`, and with neither numeric the window is absent (`$time = ')'`) |
| WorkQuery.Recent | nzedb/controllers/ReqIDLocal.php:163-174 | `r.postdate > NOW() - INTERVAL h HOUR`; `RecentWidens` states what it admits |
| WorkQuery.RecentWidens | nzedb/controllers/ReqIDLocal.php:165-177 | no window admits no row, and a wider window admits every row a narrower one does |
| WorkQuery.Retryable | nzedb/controllers/ReqIDLocal.php:191-205 | `reqidstatus in (REQID_UPROC, REQID_NOLL, REQID_NONE)`; `RetryableStatuses` states which statuses pass |
| WorkQuery.RetryableStatuses | nzedb/controllers/ReqIDLocal.php:191-196 | the retried statuses are exactly `REQID_UPROC`, `REQID_NOLL` and `REQID_NONE`; `REQID_FOUND`, `REQID_ZERO` and `REQID_OLD` are not retried |
| WorkQuery.Eligibles | nzedb/controllers/ReqIDLocal.php:181-204 | a row is among the eligibles iff the WHERE predicate holds of it |
| WorkQuery.Eligible | nzedb/controllers/ReqIDLocal.php:181-204 | the WHERE predicate of each mode; `Eligibles`, `RetryModesSkipSettled` and `MatchedNeverSelected` state its meaning |
| WorkQuery.SortByPostdate | nzedb/controllers/ReqIDLocal.php:206 | `ORDER BY postdate DESC`; `SortIsNewestFirstPermutation` shows it is a newest-first permutation |
| WorkQuery.SelectedReleases | nzedb/controllers/ReqIDLocal.php:181-207 | the releases the batch query returns; `SelectionSound`, `SelectionComplete` and `LatestIsNewest` state which |
| WorkQuery.WorkOf | nzedb/controllers/ReqIDLocal.php:217-224 | the projection `r.id, r.name, r.categoryid, r.reqidstatus, g.name, g.id` through the LEFT JOIN; `WorkForSelected` ties it to the selection |
| WorkQuery.InsertPermutes | nzedb/controllers/ReqIDLocal.php:206 | inserting into the newest-first order keeps the same multiset of rows |
| WorkQuery.InsertNewestFirst | nzedb/controllers/ReqIDLocal.php:206 | inserting into a newest-first sequence keeps it newest first |
| WorkQuery.SortIsNewestFirstPermutation | nzedb/controllers/ReqIDLocal.php:206 | `ORDER BY postdate DESC` gives a newest-first permutation |
| WorkQuery.Selection | nzedb/controllers/ReqIDLocal.php:217-224 | the batch query returns one row per selected release |
| WorkQuery.SelectionSound | nzedb/controllers/ReqIDLocal.php:181-218 | every selected release is an eligible table row, and selected ids are distinct |
| WorkQuery.SelectionComplete | nzedb/controllers/ReqIDLocal.php:182-197 | `all` and `full` select every eligible row |
| WorkQuery.LatestTopN | nzedb/controllers/ReqIDLocal.php:206-207 | no eligible row left out by the numeric mode is newer than a row returned |
| WorkQuery.LatestIsNewest | nzedb/controllers/ReqIDLocal.php:199-207 | the numeric mode returns `min(n, eligible)` rows, newest first, and no eligible row left out is newer than a row returned |
| WorkQuery.RetryModesSkipSettled | nzedb/controllers/ReqIDLocal.php:188-204 | `full` and the numeric mode skip rows with `preid` set or a status outside {0, -1, -3} |
| WorkQuery.MatchedNeverSelected | nzedb/controllers/ReqIDLocal.php:183-203 | no mode selects a row whose `preid` is set |
| LocalLookup.FailureStatus | nzedb/controllers/ReqIDLocal.php:127 | the failure status is `REQID_NOLL` iff the row was `REQID_UPROC`, and otherwise `REQID_NONE` |
| LocalLookup.Found | nzedb/controllers/ReqIDLocal.php:111-118 | the stage result for a fetched row: `_stageLookup` of `_siftReqId` of its name; `RowAction` says what the loop does with it |
| LocalLookup.Write | nzedb/controllers/ReqIDLocal.php:120-128 | the table after one row's write: `RenameWhere` for a rename, `StatusWhere` for a miss on a non-zero id; each step of `StandaloneLocalLookup` is proved to make it |
| LocalLookup.ApplyBatch | nzedb/controllers/ReqIDLocal.php:111-133 | the table after the loop; `StandaloneLocalLookup` is proved to produce it and `BatchWritesEachRowOnce` and `RunOutcome` state its meaning |
| LocalLookup.RowAction | nzedb/controllers/ReqIDLocal.php:112-128 | a row is renamed iff the lookup gives a non-empty title; the rename carries that lookup result's title and id, a catalog row's, with category `determineCategory(title, gid)`; a miss writes the failure status |
| LocalLookup.RenameCount | nzedb/controllers/ReqIDLocal.php:125 | the renamed count never exceeds the rows fetched |
| LocalLookup.WorkFor | nzedb/controllers/ReqIDLocal.php:111 | the fetched row with a given id, or none when no fetched row has it |
| LocalLookup.BatchWritesEachRowOnce | nzedb/controllers/ReqIDLocal.php:111-132 | with distinct ids, after the loop each table row is changed by its own fetched row's action alone, or untouched if not fetched |
| LocalLookup.SelectionDistinct | nzedb/controllers/ReqIDLocal.php:217-224 | the work query returns each table row at most once |
| LocalLookup.WorkForSelected | nzedb/controllers/ReqIDLocal.php:217-224 | the fetched row carrying a table row's id is that row's projection, exactly when it was selected |
| LocalLookup.RunOutcome | nzedb/controllers/ReqIDLocal.php:101-132 | a run changes a selected row by the action computed from its own values and leaves every other row as it was |
| LocalLookup.RenamedRowSettled | nzedb/controllers/ReqIDLocal.php:486-509 | a renamed row has status `REQID_FOUND`, the new search name and the catalog id, and is not eligible again (in `all` once `preid` is non-zero) |
| LocalLookup.FailedRowRetried | nzedb/controllers/ReqIDLocal.php:127 | a row that fails stays eligible for the mode that selected it |
| LocalLookup.SecondRunSkipsRenamed | nzedb/controllers/ReqIDLocal.php:101-132 | a row a run renamed with a non-zero catalog id is not selected by any later run |
| LocalLookup.ReqIdLocal.constructor | nzedb/controllers/ReqIDLocal.php:77-85 | holds the given releases and groups tables |
| LocalLookup.ReqIdLocal.UpdateRelease | nzedb/controllers/ReqIDLocal.php:482-527 | the table afterwards is the rename of that row and nothing else, and ids stay unique |
| LocalLookup.ReqIdLocal.RequestIdNotFound | nzedb/controllers/ReqIDLocal.php:308-323 | id 0 leaves the table unchanged; otherwise only that row's `reqidstatus` changes |
| LocalLookup.ReqIdLocal.StandaloneLocalLookup | nzedb/controllers/ReqIDLocal.php:93-137 | `total` is the number of rows selected, `counted` the number renamed (at most `total`), and the table afterwards is `ApplyBatch` of the selection |

## Left out

- Database I/O: SQL text, `sprintf` and `escapeString` are replaced by predicates over in-memory tables. An escaping or injection problem is outside the model.
- Row order: table order stands for the unspecified order of a SELECT without ORDER BY, and `queryOneRow` is the first qualifying row in that order. Rows with equal `postdate` under `ORDER BY postdate DESC LIMIT n` also come back in an unspecified order; `SortByPostdate` breaks such ties by table order, so the LIMIT keeps the earlier table row. `LatestIsNewest` and `LatestTopN` hold whichever way ties are broken.
- Query failures: a `queryOneRow` error is treated as "no row". A request-ID `queryDirect` returning `false` is the input `stageQueryFails`, since the engine does not compute it. A work query returning `false` is only modelled as the negative-LIMIT case (empty selection). The UPDATEs made through `queryExec` (lines 315, 487, 498) are assumed to take effect: the source ignores their result and still counts the rename (line 125), so `RenamedRowSettled` and `SecondRunSkipsRenamed` hold only when those UPDATEs succeed.
- `_enumerateWork` and all console output (progress lines, totals, colour, elapsed time) are left out: they affect nothing in the tables.
- `UpdateRelease`: the `show` echo of changed names (`getNameByID`, `echoChangedReleaseName`) is left out: it is display only.
- The `$charGuid` clause of `_buildWorkQuery` is left out: as written it places `AND r.guid …` directly after `WHERE` and before `nzbstatus` with no connective, so the SQL is malformed.
- `Categorize::determineCategory` and `Groups::getIDByName` are function parameters (`Env.determineCategory`, `Catalog.groupIdOf`): their code is not part of this model.
- The two title regexes of `_multiLookup` are the parameters `titleRegex1` and `titleRegex2`. The model proves their order and the query condition they feed, not their internal structure.
- `Catalog.titleRegex2` has no `filename1` or `filename2` group in the source, and both regexes capture a non-empty `title` (`.+?`). The parameters are not constrained to this: a `titleRegex2` returning filenames, or a regex returning an empty title, is outside what the source can produce, and since "" also stands for NULL an empty title would match NULL filenames.
- Command-line parsing is done by the caller. `RunArgs` takes `$argv[1]` as `All`, `Full` or `Latest(n)` (a non-numeric word reads as `%d`, i.e. `Latest(0)`). It takes `$argv[2]` and `$argv[3]` as integers only when `is_numeric` holds, after `%d` truncation.
- The clock: `NOW()` is the parameter `now`, in seconds.
- `Text.DecimalValue`: PHP's `(int)` of a digit string too long for a PHP int saturates at `PHP_INT_MAX`, so different over-long request IDs collapse to one value. The model's value is unbounded and keeps them distinct.
- White space in rule 2 and rule 3 is taken as tab through carriage return and space. Locale-dependent PCRE classes are out of scope.
- SQL NULL columns are modelled as "" (titles, filenames) or `None` (metadata). `isset` of a NULL title and an empty title both fall through to `_multiLookup`, so outcomes are unchanged. A release whose group row is missing gets group name "" from the LEFT JOIN. For its `gid` the model passes the release's `group_id` where the source passes NULL to `determineCategory`.
- SQL string comparison is exact equality. MySQL collation (case- and trailing-space-insensitive `=`) is not modelled.
- `is_numeric($result['id'])` in `_stageLookup` always holds: catalog ids are integers.
- `misc/testing/Dev/test-nntp.php` is a network test script. It is not part of this model.
- Concurrency between batch runs, and rows changed by other processes during a run, are not modelled.
