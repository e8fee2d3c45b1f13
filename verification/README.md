# CI/CD pipeline failure prediction: the data-preparation core in Dafny

The repository builds training data for predicting CI failures. It does this in two
independent ways.

- **Approach 1** repairs a commit-change CSV export (`fix_csv_structure`). It derives
  per-row features from the repaired rows (`enhance_fixed_csv`). It then labels each commit
  from GitHub responses (`label.py`): it finds the repository, classifies the commit's
  workflow runs (or its combined commit status), and broadcasts the per-commit results back
  onto the table.
- **Approach 2** pulls the workflow runs of one repository page by page and merges them into
  a JSON store of runs (`github_actions_pull.py`). It then turns run conclusions into 0/1
  labels and mines one row per labelled commit of the local history (`mine.py`).

This project models the pure decisions inside those jobs. Every HTTP reply, every CSV-parser
result and the repository history come in as values or function parameters. Python's
behaviour is written out where it matters:

- truthiness;
- `==` across `int`/`bool`/`float`;
- `dict.get`;
- `{**a, **b}`;
- `str.split`, `str.replace`, `str.strip`, `str.lower` and `in`;
- the pandas operations `drop_duplicates(keep='first')`, `head(n)`, `groupby(...).size()`
  and `.any()`, and missing-value cells.

Modules:

- `Wrappers` (wrappers.dfy): `Option` and `Result`.
- `Text` (text.dfy): the Python string operations used.
- `Json` (json.dfy): scalar JSON values, truthiness, `==` and `dict.get`.
- `Distinct` (distinct.dfy): first-wins de-duplication by a key.
- `CsvRepair` (csv_repair.dfy): `fix_csv_structure`.
- `Features` (features.dfy): `enhance_fixed_csv`.
- `Labeler` (label.dfy): `label.py`.
- `RunStore` (runstore.dfy): `github_actions_pull.py`.
- `Miner` (miner.dfy): `mine.py`.

## Model

| member | source | states |
|---|---|---|
| CsvRepair.PadFields | Approach1/get_metadata_from_commit.py:69-73 | a short row keeps its fields as a prefix and is padded with "" to exactly 8 fields |
| CsvRepair.MergeOverflow | Approach1/get_metadata_from_commit.py:57-64 | a long row keeps fields 0..6, and field 7 is the ", "-join of fields 7 onwards |
| CsvRepair.RepairFields | Approach1/get_metadata_from_commit.py:55-76 | every parsed row comes out with 8 fields: an 8-field row unchanged, a long row merged, a short row padded |
| CsvRepair.FallbackAgrees | Approach1/get_metadata_from_commit.py:78-91 | the fallback for an unparsable line (split on ',') repairs like a parsed row with those fields |
| CsvRepair.OverflowKeepsText | Approach1/get_metadata_from_commit.py:57-64 | merging overflow fields loses no text: the ", "-join of the repaired row equals that of the original fields |
| CsvRepair.RepairLine | Approach1/get_metadata_from_commit.py:50-91 | every non-blank line yields exactly 8 fields, whether it parses or not |
| CsvRepair.SampleAsWrittenHidesShortRow | Approach1/get_metadata_from_commit.py:69-76 | as written, a 2-field line is reported as having 8 fields, because padding happens before the count is recorded |
| CsvRepair.SampleAsWritten | Approach1/get_metadata_from_commit.py:66-76 | the job's diagnostic keeps the line number and at most the first 100 characters of the line; its count is the parsed count for a long line and 8 for a padded short line |
| CsvRepair.Sample | Approach1/get_metadata_from_commit.py:66-67 | the intended diagnostic records the line number, the field count as parsed, and a prefix of the line of at most 100 characters |
| CsvRepair.FirstN | Approach1/get_metadata_from_commit.py:66-76 | the kept samples are a prefix of the problems: all of them when there are at most 10, exactly the first 10 otherwise |
| CsvRepair.FirstNExtend | Approach1/get_metadata_from_commit.py:66-67 | once 10 samples are recorded, further problems are dropped; before that, each one is appended |
| CsvRepair.RowsMatchNonBlank | Approach1/get_metadata_from_commit.py:42-47 | blank lines give no row; the k-th row is the repair of the k-th non-blank line, so row count equals non-blank line count |
| CsvRepair.ProblemFromItsLine | Approach1/get_metadata_from_commit.py:42-76 | every diagnostic of a file carries the number of a line of that file and is the diagnostic that line produces |
| CsvRepair.ProblemsAreIrregular | Approach1/get_metadata_from_commit.py:55-76 | in the job's diagnostics a line reported with more than 8 fields parsed into exactly that many, a line reported with 8 parsed into fewer than 8, and no count is below 8; samples are at most 100 characters |
| CsvRepair.ProblemsAreIrregularIntended | Approach1/get_metadata_from_commit.py:55-76 | with the intended diagnostic every reported count is the line's parsed count and is never 8 |
| CsvRepair.ProblemsCorrespond | Approach1/get_metadata_from_commit.py:66-76 | the job's diagnostics are the intended ones line for line, except that a short line's count is raised to 8 |
| CsvRepair.FixCsvStructure | Approach1/get_metadata_from_commit.py:39-91 | the line loop yields one 8-field row per non-blank line and at most 10 samples: the first 10 of the job's diagnostics, a short line's recorded with count 8 |
| Features.FromFields | Approach1/get_metadata_from_commit.py:14 | a repaired row read back under the eight header columns keeps its fields in order |
| Features.AnyKeywordIff | Approach1/get_metadata_from_commit.py:124 | `any(keyword in m ...)` holds iff some listed keyword occurs in m |
| Features.FixKeywordMeaning | Approach1/get_metadata_from_commit.py:117-124 | `has_fix_keyword(m)` iff one of the 19 keywords is a substring of lower(m) |
| Features.FixExample | Approach1/get_metadata_from_commit.py:117-124 | "Fixes bug #123" has a fix keyword |
| Features.NoFixWithoutLetters | Approach1/get_metadata_from_commit.py:117-124 | a message whose lower-cased text lacks all of f, b, h, r, l, s has no fix keyword |
| Features.NoFixExample | Approach1/get_metadata_from_commit.py:117-124 | the message "Update documentation" has no fix keyword |
| Features.GroupHasTestIff | Approach1/get_metadata_from_commit.py:157 | a commit's group has a test file iff some row with that hash names a test file |
| Features.EnhanceChunk | Approach1/get_metadata_from_commit.py:146-161 | a chunk keeps its row count, and each row gets its own flags and group aggregates |
| Features.GroupByCommit | Approach1/get_metadata_from_commit.py:153-158 | the one-pass grouping has exactly the non-missing hashes as keys; each size is that hash's row count (> 0); each test flag holds iff the group has a test file |
| Features.EnhanceChunkByGroups | Approach1/get_metadata_from_commit.py:146-161 | mapping the grouped dictionaries back onto the rows gives, for each row with a hash, the group's size and test flag; the record is otherwise unchanged and the temporary column is gone |
| Features.EnhanceFile | Approach1/get_metadata_from_commit.py:143-170 | the chunked pass keeps row count and records, and each row's fix flag is the flag of its own NOTE |
| Features.ChunkUndercount | Approach1/get_metadata_from_commit.py:139-154 | a row's files_changed is positive and at most its hash's count over the whole file, and equal to it when the file fits in one chunk |
| Features.CountHashPositive | Approach1/get_metadata_from_commit.py:153-154 | every row is counted in its own group |
| Features.RepairAndEnhanceRows | Approach1/get_metadata_from_commit.py:179-188 | repair then enhancement gives one record per non-blank line: its repaired fields, flagged iff its NOTE has a fix keyword |
| Features.SharedCommitExample | Approach1/get_metadata_from_commit.py:153-158 | two rows of commit "abc123", one a test file, both get files_changed 2 and changed_tests true |
| Labeler.ExtractGithubInfo | Approach1/label.py:55-70 | the result is None iff the id has neither ':' nor '/'; with a ':', the repo part holds no ':' |
| Labeler.ApacheIdRoundTrip | Approach1/label.py:57-59 | "org.apache:" + repo (+ further ':' parts) gives owner "apache" and that repo |
| Labeler.GroupIdRoundTrip | Approach1/label.py:60-65 | any other "group:artifact" gives owner = group with "org." and "com." removed, and repo = artifact |
| Labeler.SlashIdRoundTrip | Approach1/label.py:66-70 | "owner/repo" without ':' gives (owner, repo) |
| Labeler.ApacheExample | Approach1/label.py:57-59 | "org.apache:commons-lang" names apache/commons-lang |
| Labeler.SlashExample | Approach1/label.py:66-69 | "apache/kafka" names apache/kafka |
| Labeler.GroupExample | Approach1/label.py:60-65 | "com.google:guava" names google/guava |
| Labeler.RateLimitEvery50 | Approach1/label.py:29-34 | after n API calls the rate limit has been queried n div 50 times |
| Labeler.ConclusionsMembers | Approach1/label.py:179 | the conclusion list holds exactly the truthy conclusions of the runs |
| Labeler.CountPositive | Approach1/label.py:184-187 | `conclusions.count(x) > 0` iff x occurs |
| Labeler.CountsBounded | Approach1/label.py:184-187 | the counts of four distinct conclusions sum to at most the list length |
| Labeler.ConclusionPriority | Approach1/label.py:179-204 | failed iff some run failed; passed iff none failed and one succeeded; cancelled iff neither and one was cancelled; mixed iff none of those and some run has a conclusion; pending iff no run has one |
| Labeler.ConclusionCounts | Approach1/label.py:179-187 | each outcome count is positive iff some run has that conclusion |
| Labeler.FailureBeatsSuccess | Approach1/label.py:190-191 | [success, failure] is classified as failed |
| Labeler.ActionsSummary | Approach1/label.py:221-235 | the Actions summary has exactly the modelled keys |
| Labeler.SummaryCountsBounded | Approach1/label.py:184-187 | success + failure + cancelled + skipped counts are at most total_workflows |
| Labeler.CommitStatusChecks | Approach1/label.py:244-278 | has_ci holds iff a 200 reply lists statuses; for a 200 reply the conclusion is passed iff the state is success, failed iff it is failure or error, pending iff it is pending, unknown for any other or missing state, and status_checks is the number of statuses; a non-200 reply gives no_ci; an exception gives error |
| Labeler.StatusLabel | Approach1/label.py:252-274 | through the status fallback: FAILED iff state failure/error, PASSED iff success, NO_CI iff non-200, never CANCELLED |
| Labeler.CreateBuildLabel | Approach1/label.py:440-450 | the label is one of the five names for every input |
| Labeler.BuildLabelPreimage | Approach1/label.py:440-450 | FAILED, PASSED, CANCELLED and NO_CI come exactly from failed, passed, cancelled and no_ci; every other value gives UNKNOWN |
| Labeler.ActionsStatus | Approach1/label.py:147-242 | an exception gives error; a non-200 reply or no runs falls back to the status checks; otherwise the run summary with has_ci true and the run count |
| Labeler.FailedRunLabelsFailed | Approach1/label.py:151-191 | a 200 reply with a failed run labels the commit FAILED |
| Labeler.CountTestsPositive | Approach1/label.py:91-96 | the test-file count is positive iff some file is a test file |
| Labeler.CommitDetails | Approach1/label.py:72-125 | details exist iff the reply is a 200, and then carry exactly the modelled keys |
| Labeler.DetailsMeaning | Approach1/label.py:102-115 | has_test_changes iff some file is a test file; test files are at most files; is_merge iff two or more parents |
| Labeler.PullRequestInfo | Approach1/label.py:322-346 | has_pr holds iff a 200 reply lists a pull request |
| Labeler.WorkflowRunDetails | Approach1/label.py:280-283 | a falsy run id gives the empty dictionary; the keys stay within the run-detail keys |
| Labeler.MergeBuildColumns | Approach1/label.py:396-404 | in the merged dictionary, conclusion, has_ci and has_pr come from the Actions result and the PR reply |
| Labeler.MergeDetailColumns | Approach1/label.py:396-404 | in the merged dictionary, files_changed and has_test_changes come from the commit details |
| Labeler.EntryColumns | Approach1/label.py:370-404 | a stored commit's columns come from the response that owns them |
| Labeler.CommitDataLastWins | Approach1/label.py:360-404 | a hash is stored iff some pair with it was processed; the stored value is the last such pair's |
| Labeler.CommitDataSize | Approach1/label.py:360-404 | at most one stored commit per processed pair |
| Labeler.Head | Approach1/label.py:354-356 | pandas `head(n)` is a prefix of length min(n, len), or len + n for negative n |
| Labeler.UniqueCommits | Approach1/label.py:352-356 | the processed pairs are a prefix, of at most max_commits, of the first-wins distinct pairs |
| Labeler.UniqueCommitsFacts | Approach1/label.py:352-356 | processed pairs are distinct rows of the table; all pairs are processed when there are at most max_commits |
| Labeler.Broadcast | Approach1/label.py:433-452 | broadcasting keeps row count and source rows, and gives every row all 14 gha columns |
| Labeler.BroadcastDefaults | Approach1/label.py:433-437 | an unprocessed commit gets not_processed, 0 elsewhere and UNKNOWN; a processed one gets its stored values |
| Labeler.ProcessCommit | Approach1/label.py:363-404 | the loop body skips ids with no repository and commits without details; otherwise it stores the merged dictionary |
| Labeler.ProcessCommitsRemote | Approach1/label.py:348-452 | the result is the broadcast of the commit dictionary built over the unique pairs, with the input's row count |
| Distinct.FirstByKeyDistinct | Approach1/label.py:352 | first-wins de-duplication leaves pairwise different keys and the same key set |
| Distinct.FirstByKeyFirst | Approach2/mine.py:82 | every kept element is the first element of the input with its key |
| Distinct.FirstByKeyInOrder | Approach2/mine.py:82 | kept elements keep input order: of two kept elements, the earlier one is an earlier first occurrence |
| Distinct.FirstByKeyKeepsFirsts | Approach2/mine.py:82 | every first element of a key is kept |
| RunStore.Project | Approach2/github_actions_pull.py:25-33 | a stored record has exactly id, head_sha, conclusion, event and created_at, taken from the run |
| RunStore.ProjectAll | Approach2/github_actions_pull.py:25-33 | a page's records are its runs' projections, in page order |
| RunStore.PullFromMeaning | Approach2/github_actions_pull.py:16-36 | pages are requested consecutively; the walk stops at the first empty page or after page 30 and holds the records of the requested pages; it aborts iff some page before that raised |
| RunStore.PullRuns | Approach2/github_actions_pull.py:16-36 | the page loop requests at most 30 pages, each earlier page non-empty, and returns the concatenated records; it aborts iff a page raised |
| RunStore.PageLoop | Approach2/github_actions_pull.py:16-36 | the `while True` page loop with its early exits yields exactly the recursive walk from page 1 |
| RunStore.NewRunsMeaning | Approach2/github_actions_pull.py:48-51 | the added runs are the fetched runs at increasing positions, exactly those whose id is not among the stored truthy ids |
| RunStore.MergeRunsFacts | Approach2/github_actions_pull.py:48-54 | stored runs stay in front unchanged; added runs are fetched runs with fresh ids; size grows by at most the fetched count |
| RunStore.MergeRunsIdempotent | Approach2/github_actions_pull.py:48-54 | merging the same batch again adds nothing when all fetched ids are truthy |
| RunStore.BatchDuplicateKept | Approach2/github_actions_pull.py:48-54 | as written, a run fetched twice in one walk is stored twice |
| RunStore.MergeRunsDistinctFacts | Approach2/github_actions_pull.py:47-54 | the merge with unique ids keeps stored runs in front, adds only fetched runs, and keeps a duplicate-free store duplicate-free |
| RunStore.MergeRunsDistinctCovers | Approach2/github_actions_pull.py:47-54 | no fetched run is lost unless its id is already in the result |
| RunStore.BatchDuplicateDropped | Approach2/github_actions_pull.py:47-54 | the merge with unique ids stores a twice-fetched run once |
| RunStore.MergesAgree | Approach2/github_actions_pull.py:48-54 | on a batch without repeated ids the two merges coincide |
| RunStore.CollectRuns | Approach2/github_actions_pull.py:16-58 | an aborted walk leaves the store file untouched; otherwise the stored runs followed by every fetched run whose id is not already stored are written, the old runs as a prefix |
| RunStore.CollectRunsIntended | Approach2/github_actions_pull.py:16-58 | the same job with the merge that also skips ids added earlier in the batch: old runs stay a prefix, added runs are fetched runs with fresh ids, and a duplicate-free store stays duplicate-free |
| Miner.LoadLabelsCrash | Approach2/mine.py:9-11 | loading crashes iff some conclusion is truthy but not text |
| Miner.LoadLabelsKeys | Approach2/mine.py:9-13 | a sha is labelled iff it is truthy and some run for it concludes success or failure, case-insensitively |
| Miner.LoadLabelsLastWins | Approach2/mine.py:13 | a label is 0 or 1, and is the last qualifying run's |
| Miner.SumOr0SkipsMissing | Approach2/mine.py:49-50 | a file without a count adds nothing to a line sum |
| Miner.SumOr0NonNegative | Approach2/mine.py:49-50 | files whose counts are all non-negative give a non-negative line sum |
| Miner.IsTestIff | Approach2/mine.py:57-60 | a file is a test file iff "test" occurs in its lower-cased new or old path |
| Miner.TestCountBounded | Approach2/mine.py:62 | changed_tests is at most the number of files, and 0 iff no file is a test file |
| Miner.MessageFix | Approach2/mine.py:53-54 | the fix flag is 0 or 1, and it is 1 exactly when "fix" or "bug" occurs at some position of the lower-cased message |
| Miner.MessageFixImpliesKeyword | Approach2/mine.py:53-54 | a message the miner flags is also flagged by the Approach 1 keyword list |
| Miner.MineCommit | Approach2/mine.py:64-67 | a commit gives a row iff its hash is labelled |
| Miner.MineCommitMeaning | Approach2/mine.py:47-77 | a row has the commit's hash and label, files_changed = number of files, a 0/1 fix flag and changed_tests <= files_changed |
| Miner.MineRowsMeaning | Approach2/mine.py:45-77 | every row is the row of a labelled commit carrying its label; every labelled commit gives a row |
| Miner.MineJobFacts | Approach2/mine.py:79-82 | a successful job writes a non-empty table with distinct hashes, the same hash set as the mined rows, first occurrences only, each with its label |
| Miner.NoLabelsStops | Approach2/mine.py:28-30 | a run store that labels nothing stops the job before the history is read |
| Text.SplitJoin | Approach1/label.py:58 | the `str.split` pieces joined by the separator give back the string |
| Text.ReplaceAbsent | Approach1/label.py:63 | replacing a pattern that does not occur changes nothing |
| Text.StripEmptyIffBlank | Approach1/get_metadata_from_commit.py:44-47 | a line strips to empty iff it is all whitespace |

## Left out

- HTTP traffic (requests, sessions, GitHub endpoints and JSON shapes) is left out. Each reply is a value: a status code with the fields the code reads, or an exception.
- `check_rate_limit` sleeping and wall-clock arithmetic are left out. Only the count of rate-limit queries (every 50th call) is kept.
- Labeler.AverageDuration: the average run duration parses ISO timestamps and divides floats, so the durations come in as already-parsed optional reals, and nothing is proved about the average.
- `csv.reader` quoted-field parsing and the encoding probe are left out. The parse of a line is a parameter that returns fields or an exception.
- The `is_test_file` regular expressions are left out. Test-file detection is an uninterpreted predicate parameter.
- Features.EnhanceRow takes the fix-keyword test as a parameter. The whole pipeline passes `HasFixKeyword`, and RepairAndEnhanceRows states that link.
- pandas file streaming, CSV/JSON reading and writing, append/header modes and dtype inference are left out. Cells stay text, apart from the missing-value set that `str()` shows as "nan".
- Labeler.CommitDetails does not keep file_types, commit_message, author or date.
- Labeler.ActionsStatus does not keep workflow_names, workflow_events, run_details or latest_run_url, and the same goes for the status_contexts of CommitStatusChecks. `list(set(events))` has an unspecified order.
- The gha_workflow_names and gha_workflow_events string columns (label.py:454-460) are not modelled. Their join order depends on set iteration order, and the join raises on a None event.
- Labeler.PullRequestInfo keeps only has_pr and pr_number. The pr_state, pr_merged and pr_title of the first pull request (label.py:334-340) are not modelled, and no column of the labelled table reads them.
- Labeler.WorkflowRunDetails takes the run-details reply as a ready dictionary restricted to its keys. The job listing and its `jobs_response.json()` are not modelled.
- Labeler: NaN project ids or hashes in the input table are not modelled. `startswith` would raise on a float.
- Columns of the labelled table other than PROJECT_ID and COMMIT_HASH pass through unchanged and are not modelled.
- pydriller traversal is left out. The history is a sequence of commits, and which commits `only_commits` selects is left to the repository walker.
- Miner.LoadLabels: shas are dictionary keys compared structurally. Python would merge 1, True and 1.0 into one key; GitHub's head_sha is a string or null.
- `Text.Lower` lower-cases ASCII letters only.
- argparse, `input()` prompts, progress printing and the "Added"/"Wrote" and "Appended"/"Saved" messages are left out.
- data.py (a `to_numeric` coercion script) is left out.
- JSON values are scalars (text, integer, boolean, real, null). A stored run whose id is a list or an object is not modelled, and neither is a store file that does not hold a list of objects.
- RunStore.RaisesForStatus follows `raise_for_status`, which raises for codes 400–599 only. A 1xx or 3xx page reply is therefore read like a 2xx one.

## Findings

| source | as written | input that shows it | evidently intended | confidence | as-written member | corrected member |
|---|---|---|---|---|---|---|
| Approach1/get_metadata_from_commit.py:69-76 | a short row is padded before its field count is recorded, so the diagnostic always reports 8 fields | the line "p,f" is reported as having 8 fields instead of 2 | record the field count as parsed, as the overflow branch does | medium, not executed | CsvRepair.SampleAsWrittenHidesShortRow, CsvRepair.ProblemsAreIrregular | CsvRepair.Sample, CsvRepair.ProblemsAreIrregularIntended |
| Approach2/github_actions_pull.py:48-54 | new runs are checked against the stored ids only, so a run listed on two pages of one walk is stored twice | existing store [] and fetched runs [{id: 7}, {id: 7}] store two copies of run 7 | also treat ids added earlier in the same batch as taken, so the store never holds a run id twice | medium, not executed | RunStore.BatchDuplicateKept, RunStore.CollectRuns | RunStore.MergeRunsDistinctFacts, RunStore.CollectRunsIntended |
