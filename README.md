# Navigation prototype: evaluation scripts, view-model and haptics, in Dafny

This project models the evaluation core of an indoor navigation prototype. The prototype
logs interaction events (cold and warm start times, text-to-speech start latency,
reroute latency, TTS pre-warm) to per-session CSV files. Scripts then summarise them:

- `analyze_logs.py` loads every session log and computes per-session medians. It reports
  the median, IQR and a bootstrap 95% confidence interval for each metric of the latest
  session, and compares sessions with TTS pre-warm ON against OFF.
- `acceptance_eval.py` checks the latest session's medians against fixed targets.
- `score_surveys.py` loads survey CSVs robustly and scores MARS subscales and SUS.

The app side consists of the navigation view-model, which steps through route
instructions and logs what the user did, and the haptics service, which turns a direction
and a strength setting into a vibration pattern.

Modules, one per source file, plus three shared ones:

| file | module | models |
|---|---|---|
| `wrappers.dfy` | `Wrappers` | `Option`, `Result` |
| `pynum.dfy` | `PyNum` | Python `int()` on a float (truncation toward zero) and `max(lo, min(hi, x))` |
| `stats.dfy` | `Stats` | numpy's default ("linear") percentile and median; means; NaN as `None`, propagated by numpy and skipped by pandas |
| `event_log.dfy` | `EventLog` | one event-log row, a session log file (parsed or unreadable), `os.path.basename`, the lexicographically latest file |
| `analyze_logs.dfy` | `AnalyzeLogs` | `analyze_logs.py` |
| `acceptance_eval.dfy` | `AcceptanceEval` | `acceptance_eval.py` |
| `score_surveys.dfy` | `ScoreSurveys` | `score_surveys.py` |
| `nav_vm.dfy` | `NavVm` | `viewmodels/nav_vm.py` |
| `haptics.dfy` | `Haptics` | `services/haptics.py` |

Conventions:

- Numbers are exact reals, and NaN is `None`.
- A CSV file is its parsed content, or the fact that it could not be read.
- The numpy random generator is a parameter `draw: (nat, nat) -> nat`. Resample `k` takes
  element `draw(k, i) % |s|` at position `i`.
- The wall clock is a parameter of the methods that read it.
- The view-model's callbacks and log writes are recorded, in order, in a `trace` of effects.

## Model

| member | source | states |
|---|---|---|
| `PyNum.Trunc` | services/haptics.py:28 | `int(x)` truncates toward zero: for x >= 0 the result is the floor, for x < 0 the ceiling |
| `PyNum.TruncMonotone` | services/haptics.py:28 | truncation never reverses the order of two values |
| `PyNum.Clamp` | score_surveys.py:72-73 | `max(lo, min(hi, x))` lies in [lo, hi], is x when x is in range, and is the nearer bound otherwise |
| `Stats.Sort` | analyze_logs.py:77-78 | the sort that numpy's percentile performs: sorted and a permutation of its input |
| `Stats.SortedUnique` | analyze_logs.py:77-78 | two sorted permutations of the same multiset are equal, so the percentile depends only on the multiset |
| `Stats.InterpolateMonotone` | analyze_logs.py:78 | linear interpolation between order statistics is monotone in the virtual index |
| `Stats.PercentileMonotone` | analyze_logs.py:78 | P(p) <= P(q) whenever p <= q, so P25 <= P75 and P2.5 <= P97.5 |
| `Stats.MedianIsP50` | analyze_logs.py:77 | the median (middle element, or mean of the two middle ones) equals the 50th linear percentile |
| `Stats.PercentilePermutationInvariant` | analyze_logs.py:77-78 | median and every percentile are unchanged by reordering the sample |
| `Stats.PercentileWithin` | analyze_logs.py:80 | every percentile lies between the sample minimum and maximum |
| `Stats.MedianWithin` | analyze_logs.py:77 | the median lies between the sample minimum and maximum |
| `Stats.MeanWithin` | score_surveys.py:75 | a mean of values in [lo, hi] lies in [lo, hi] |
| `Stats.Present` | analyze_logs.py:74 | dropping NaN keeps exactly the numbers of the series, and no more entries than it had |
| `Stats.PresentCount` | analyze_logs.py:74 | dropping NaN keeps each number as many times as it occurs |
| `Stats.PresentAppend` | analyze_logs.py:74 | dropping NaN commutes with concatenation, so the kept numbers stay in order |
| `Stats.PresentNonEmpty` | analyze_logs.py:74-75 | after dropping NaN the series is empty iff every entry was NaN |
| `Stats.NpMedian` | analyze_logs.py:179 | `np.median` is defined iff the array is nonempty and holds no NaN |
| `Stats.NpPercentile` | analyze_logs.py:203 | `np.percentile` is defined iff the array holds no NaN |
| `Stats.SkipNaMedian` | analyze_logs.py:52 | pandas median skips NaN: defined iff some entry is a number |
| `Stats.SkipNaMean` | score_surveys.py:43 | pandas mean skips NaN: defined iff some entry is a number |
| `Stats.SkipNaMeanWithin` | score_surveys.py:43 | the NaN-skipping mean of values in [lo, hi] lies in [lo, hi] |
| `EventLog.Basename` | analyze_logs.py:37 | the session name is the part of the path after the last '/': it has no '/', and it is a suffix preceded by '/' unless it is the whole path |
| `EventLog.ValuesOf` | acceptance_eval.py:29-30 | the `value_ms` entries of the rows of one type, at most one per row; empty iff the log has no row of that type |
| `EventLog.ValuesOfAppend` | acceptance_eval.py:29-30 | selecting rows commutes with concatenating logs: each matching row contributes its value once, in log order |
| `EventLog.LexLeTotal` | acceptance_eval.py:24 | the string order `sorted` uses is total |
| `EventLog.LexLeTransitive` | acceptance_eval.py:24 | the string order `sorted` uses is transitive |
| `EventLog.LexLeAntisymmetric` | acceptance_eval.py:24 | two strings each sorting at or before the other are equal |
| `EventLog.LexLeAtFirstDifference` | acceptance_eval.py:24 | strings that agree up to one character are ordered by that character |
| `EventLog.LatestOfTwo` | acceptance_eval.py:24-26 | of two files with distinct, ordered paths, the second is the latest |
| `EventLog.Latest` | acceptance_eval.py:24-26 | `sorted(files)[-1]` is one of the files, and every file's path sorts at or before it |
| `AnalyzeLogs.Tag` | analyze_logs.py:36-37 | each row of a log is tagged with its file's session name, rows kept in order |
| `AnalyzeLogs.FramesEmpty` | analyze_logs.py:41-42 | no frame is collected iff no file is readable |
| `AnalyzeLogs.LoadSessions` | analyze_logs.py:32-43 | one warning per unreadable file, in order; fails iff no file is readable; otherwise the concatenation of the readable files' tagged rows |
| `AnalyzeLogs.CombinedRowsSound` | analyze_logs.py:34-43 | every combined row is an event of some readable file, tagged with that file's session name |
| `AnalyzeLogs.CombinedRowsComplete` | analyze_logs.py:34-43 | every event of every readable file appears in the combined table, tagged with its session |
| `AnalyzeLogs.SessionValues` | analyze_logs.py:49-52 | a session's values for one event type are exactly those of its rows of that type, at most one per row |
| `AnalyzeLogs.SessionValuesAppend` | analyze_logs.py:49-52 | selecting a session's rows commutes with concatenating frames: each row counts once, in order |
| `AnalyzeLogs.PerSessionMedian` | analyze_logs.py:48-52 | keys are the sessions with at least one row of the type; a session's median is defined iff one of those rows has a numeric value |
| `AnalyzeLogs.PerSessionMedianWithin` | analyze_logs.py:48-52 | a session's median lies between the smallest and the largest value that session logged for the type |
| `AnalyzeLogs.Resample` | analyze_logs.py:79 | a resample with replacement has the sample's size and draws only sample elements |
| `AnalyzeLogs.ResampleMedian` | analyze_logs.py:79 | a resample's median lies within the sample's range |
| `AnalyzeLogs.BootMedians` | analyze_logs.py:79 | `n_boot` bootstrap medians, each within the sample's range |
| `AnalyzeLogs.RobustStatsOf` | analyze_logs.py:73-81 | n counts the numeric values. With none, every statistic is NaN and n is 0. Otherwise the median is P50, IQR = P75 - P25 >= 0, and min <= CI low <= CI high <= max |
| `AnalyzeLogs.RobustStatsPermutationInvariant` | analyze_logs.py:74-78 | median, IQR and n depend only on the multiset of numeric values, not on their order or on the NaN entries |
| `AnalyzeLogs.SummaryTable.constructor` | analyze_logs.py:151 | the summary table starts empty |
| `AnalyzeLogs.SummaryTable.SaveSummaryRow` | analyze_logs.py:83-92 | appends exactly one row: the metric's name and its robust statistics |
| `AnalyzeLogs.SummarizeSession` | analyze_logs.py:150-155 | the summary table holds the four metrics in order, each summarised from that metric's values in the chosen session |
| `AnalyzeLogs.LatestSessionAsWritten` | analyze_logs.py:65-68 | as written: the latest file is read again with no guard; the read succeeds iff that file is readable, and then gives its rows |
| `AnalyzeLogs.ReadableFiles` | analyze_logs.py:34-40 | the files `load_sessions` can read, and only those |
| `AnalyzeLogs.LatestReadable` | analyze_logs.py:65-68 | corrected: once `load_sessions` has returned, the chosen session is a readable file and every readable file sorts at or before it |
| `AnalyzeLogs.LatestReadableAgrees` | analyze_logs.py:65-68 | whenever the latest file is readable (and paths are distinct, as glob's are), the corrected choice is the same file as the code's |
| `AnalyzeLogs.UnreadableLatestEndsScript` | analyze_logs.py:65-68 | run_1 readable and run_2 unreadable: `load_sessions` succeeds, the unguarded read of run_2 fails, the corrected choice is run_1 |
| `AnalyzeLogs.SessionHasPrewarm` | analyze_logs.py:163-168 | a session counts as ON iff its log is readable and has a `tts_prewarm_ms` row; unreadable means OFF |
| `AnalyzeLogs.SessionAbRow` | analyze_logs.py:173-180 | a session contributes an A/B row iff it has a TTS start row; the row carries its session name and is ON iff the log has a pre-warm row. Its median (np.median) is NaN iff one of the session's TTS start rows is blank, and otherwise lies between that session's smallest and largest TTS start latency |
| `AnalyzeLogs.ValuesOfAllPresent` | analyze_logs.py:174-179 | the selected values hold no NaN iff every row of that type has a numeric value, so one blank row makes `np.median` NaN |
| `AnalyzeLogs.AbRowsSound` | analyze_logs.py:170-180 | with unreadable logs skipped, every A/B row is the row of some readable session |
| `AnalyzeLogs.AbRowsComplete` | analyze_logs.py:170-180 | with unreadable logs skipped, every readable session with a TTS start row contributes its row |
| `AnalyzeLogs.CollectAbRows` | analyze_logs.py:170-180 | the loop as written: succeeds iff every log is readable, and then yields the A/B rows; otherwise fails at the first unreadable log |
| `AnalyzeLogs.CorruptLogAbortsAbLoop` | analyze_logs.py:171-172 | run_1 unreadable and run_2 readable: loading succeeds, the latest file (run_2) is readable, yet the A/B loop fails on run_1 |
| `AnalyzeLogs.GroupMedians` | analyze_logs.py:189-190 | a group holds exactly the per-session medians of that condition, at most one per row, and is empty iff no row has that condition |
| `AnalyzeLogs.GroupMediansAppend` | analyze_logs.py:189-190 | grouping commutes with concatenating rows: each session's median counts once, in order |
| `AnalyzeLogs.BootDiffs` | analyze_logs.py:193-199 | one bootstrap difference per iteration |
| `AnalyzeLogs.BootAb` | analyze_logs.py:193-199 | the loop computes the `n_boot` differences median(ON resample) - median(OFF resample) |
| `AnalyzeLogs.BootDiffsWithin` | analyze_logs.py:196-198 | each bootstrap difference is defined and lies between min(ON) - max(OFF) and max(ON) - min(OFF) |
| `AnalyzeLogs.ResampleMedianWithin` | analyze_logs.py:196-198 | a resample's median is defined and within the group's range |
| `AnalyzeLogs.RelChange` | analyze_logs.py:204 | the relative change is defined iff both group medians are and the OFF median is nonzero |
| `AnalyzeLogs.RelChangeSign` | analyze_logs.py:204 | with a positive OFF median, the change is negative iff ON is faster, and zero iff they are equal |
| `AnalyzeLogs.CompareAb` | analyze_logs.py:182-209 | a comparison is made iff both conditions occur. Its fields are the group medians, the median and 2.5/97.5 percentiles of the bootstrap differences, and the relative change of the two medians. The CI brackets the median difference. A group median is defined iff the group has no NaN, and then the CI lies within the cross-group range |
| `AnalyzeLogs.CiContainsMedian` | analyze_logs.py:202-203 | P2.5 <= median <= P97.5 of the bootstrap differences |
| `AnalyzeLogs.BootDiffsBounds` | analyze_logs.py:201-203 | the CI endpoints lie within min(ON) - max(OFF) and max(ON) - min(OFF) |
| `AcceptanceEval.TargetsTable` | acceptance_eval.py:17-22 | four targets: cold start 1500, warm start 800, TTS start 500, reroute 1000 ms |
| `AcceptanceEval.Med` | acceptance_eval.py:28-30 | NaN when the session has no row of the type; defined iff some row of the type has a value; then between that metric's min and max |
| `AcceptanceEval.Summary` | acceptance_eval.py:32 | one median per target metric |
| `AcceptanceEval.Verdict` | acceptance_eval.py:35 | exactly the metrics with a defined median are judged, each passing iff its median <= its target |
| `AcceptanceEval.Passed` | acceptance_eval.py:38 | the metrics judged true |
| `AcceptanceEval.OkRatio` | acceptance_eval.py:38 | in [0, 1]; 0 with nothing judged; 1 iff something is judged and all pass; 0 iff none passes |
| `AcceptanceEval.Evaluate` | acceptance_eval.py:24-38 | no files gives "No logs found". Otherwise only the latest file is read, and the run fails iff it is unreadable. On success the summary is that file's medians, the verdict is `Verdict` of that summary, and the ratio is `OkRatio` of that verdict, in [0, 1] |
| `AcceptanceEval.OnlyLatestMatters` | acceptance_eval.py:24-26 | two file lists with the same latest file give the same result |
| `AcceptanceEval.UndefinedMetricNotCounted` | acceptance_eval.py:35 | a metric absent from the session is left out of the verdict rather than failed |
| `AcceptanceEval.MedExampleDefined` | acceptance_eval.py:28-30 | three cold start samples a < c < b have median c |
| `AcceptanceEval.MedExampleUndefined` | acceptance_eval.py:28-30 | a metric whose only row has no value is NaN although the row exists |
| `AcceptanceEval.TwoMetricExample` | acceptance_eval.py:35-38 | cold 1100 passes, warm 925 fails, two undefined metrics are skipped: ratio 0.5 |
| `ScoreSurveys.LeadingSpaces` | score_surveys.py:26 | the length of the whitespace prefix |
| `ScoreSurveys.TrailingStart` | score_surveys.py:26 | where the whitespace suffix begins |
| `ScoreSurveys.Strip` | score_surveys.py:26 | `str.strip()`: neither end is whitespace, nothing is added, and an already stripped string is unchanged |
| `ScoreSurveys.RemoveBom` | score_surveys.py:26 | every BOM character is removed and all other characters are kept |
| `ScoreSurveys.UpperChar` | score_surveys.py:26 | upper-casing leaves no lower-case ASCII letter and preserves whitespace and BOM characters |
| `ScoreSurveys.ToUpper` | score_surveys.py:26 | upper-casing maps characters one by one |
| `ScoreSurveys.UpperKeepsShape` | score_surveys.py:26 | upper-casing preserves strippedness and the absence of a BOM, and is idempotent |
| `ScoreSurveys.NormalizeHeaderAsWrittenNotIdempotent` | score_surveys.py:26 | strip-then-remove-BOM turns BOM + " E1" into " E1", and a second pass changes it again, to "E1" |
| `ScoreSurveys.CleanHeader` | score_surveys.py:26 | a cleaned header has no surrounding whitespace, no BOM and no lower-case ASCII letter |
| `ScoreSurveys.CleanHeaderIdempotent` | score_surveys.py:26 | cleaning a cleaned header changes nothing |
| `ScoreSurveys.CleanHeaderAgreesWithoutBom` | score_surveys.py:26 | on headers without a BOM the cleaning agrees with the code as written |
| `ScoreSurveys.CleanHeaderExample` | score_surveys.py:25-26 | BOM + " e1 " is accepted as E1 |
| `ScoreSurveys.Coerce` | score_surveys.py:29 | coercion yields a number iff the cell is numeric, NaN otherwise |
| `ScoreSurveys.Cleaned` | score_surveys.py:26-29 | succeeds iff the cleaned headers are pairwise distinct; then headers are cleaned, the row count is kept, and every cell is coerced (corrected; see Findings) |
| `ScoreSurveys.CleanFrame` | score_surveys.py:26-30 | the header-cleaning and coercion loop computes `Cleaned` (corrected; see Findings) |
| `ScoreSurveys.LoadFrom` | score_surveys.py:22-33 | the first encoding whose attempt succeeds decides the table; if every attempt fails, the error names the path (corrected; see Findings) |
| `ScoreSurveys.ReadCsvRobust` | score_surveys.py:20-33 | tries utf-8-sig, utf-8, cp1252 and gbk in that order, as `LoadFrom` specifies (corrected; see Findings) |
| `ScoreSurveys.LoadOrder` | score_surveys.py:22-33 | a successful utf-8-sig attempt wins; otherwise utf-8 when it succeeds; all failing gives the error |
| `ScoreSurveys.ColumnIndex` | score_surveys.py:41-43 | a label selects its first column carrying that label |
| `ScoreSurveys.RowValues` | score_surveys.py:43 | a row's cells in the listed columns, in order |
| `ScoreSurveys.SubscaleColumnsRequired` | score_surveys.py:40-48 | the header gate guarantees every subscale column and S1 exist |
| `ScoreSurveys.MeanCols` | score_surveys.py:42-43 | a subscale mean is defined iff at least one of its cells is a number |
| `ScoreSurveys.MeanColsWithin` | score_surveys.py:42-43 | with every present cell in [lo, hi], the subscale mean lies in [lo, hi] |
| `ScoreSurveys.ScoreMars` | score_surveys.py:40-48 | scores are produced iff all 17 headers exist; Engagement, Functionality, Aesthetics and Information are each `MeanCols` of their own columns (E1-E5, F1-F4, A1-A3, I1-I4), and Overall is the NaN-skipping mean of S1 |
| `ScoreSurveys.ColumnWithin` | score_surveys.py:42-48 | a column of a table whose cells all lie in [lo, hi] stays in [lo, hi] |
| `ScoreSurveys.SubscaleWithin` | score_surveys.py:42-47 | subscale means of such a table lie in [lo, hi] |
| `ScoreSurveys.MarsWithinLikert` | score_surveys.py:42-48 | on 1..5 answers every MARS score that is defined lies in [1, 5] |
| `ScoreSurveys.OddItemAsWritten` | score_surveys.py:72 | an odd item contributes between 0 and 4 |
| `ScoreSurveys.EvenItemAsWritten` | score_surveys.py:73 | an even item contributes between 0 and 4 |
| `ScoreSurveys.BlankOddAnswerScoresBest` | score_surveys.py:72 | as written, a blank odd answer contributes 4, the same as an answer of 5, while an answer of 0 contributes 0 |
| `ScoreSurveys.OddItem` | score_surveys.py:72 | an odd item contributes 0..4, a blank counts as 0, and an answer v in 1..5 contributes v - 1 |
| `ScoreSurveys.EvenItem` | score_surveys.py:73 | an even item contributes 0..4, a blank contributes 4, and an answer v in 1..5 contributes 5 - v |
| `ScoreSurveys.BlankReadsAsZero` | score_surveys.py:72-73 | with the fix a blank scores like an answer of 0; even items and numeric odd answers score as written |
| `ScoreSurveys.OddTotal` | score_surveys.py:72 | five odd items add up to between 0 and 20 (corrected; see Findings) |
| `ScoreSurveys.EvenTotal` | score_surveys.py:73 | five even items add up to between 0 and 20 |
| `ScoreSurveys.OddTotalOfLikert` | score_surveys.py:72 | on complete 1..5 answers the odd total is the answer sum minus the count |
| `ScoreSurveys.EvenTotalOfLikert` | score_surveys.py:73 | on complete 1..5 answers the even total is 5 times the count minus the answer sum |
| `ScoreSurveys.SusItemsPresent` | score_surveys.py:68-69 | the header gate guarantees all ten item columns exist |
| `ScoreSurveys.SusScore` | score_surveys.py:72-74 | every SUS score lies in [0, 100] (corrected; see Findings) |
| `ScoreSurveys.SusScoreStandard` | score_surveys.py:72-74 | on complete 1..5 answers the score is the standard SUS formula 2.5 * ((sum(odd) - 5) + (25 - sum(even))) |
| `ScoreSurveys.ScoreSus` | score_surveys.py:68-74 | no scores iff a Q1..Q10 header is missing; otherwise one score per row, in row order (corrected; see Findings) |
| `ScoreSurveys.SusMean` | score_surveys.py:75 | NaN iff there are no scores; with scores in [0, 100] the mean is in [0, 100] |
| `NavVm.StartLatencyMs` | viewmodels/nav_vm.py:41 | the logged start latency is at least 1 ms, and equals the truncated measured latency when that is at least 1 |
| `NavVm.Logged` | viewmodels/nav_vm.py:37 | the log rows among the effects, in order: exactly the effects that are log writes |
| `NavVm.LoggedAppend` | viewmodels/nav_vm.py:37 | the log of two effect sequences run one after the other is the concatenation of their logs |
| `NavVm.StepLogsClick` | viewmodels/nav_vm.py:34-48 | a step writes exactly one log row: `click_next` labelled `step_<id>` |
| `NavVm.RerouteLogsClickThenLatency` | viewmodels/nav_vm.py:53-62 | a reroute writes exactly `click_reroute` and then `reroute_latency_ms` with the measured latency |
| `NavVm.LogGrowth` | viewmodels/nav_vm.py:29-62 | over a whole session log, a step appends its click and a reroute appends its click and latency, and nothing else is logged |
| `NavVm.StepKeepsLatenciesPositive` | viewmodels/nav_vm.py:29-50 | a step keeps every logged TTS start latency at 1 ms or more |
| `NavVm.RerouteKeepsLatenciesPositive` | viewmodels/nav_vm.py:52-62 | a reroute keeps every logged TTS start latency at 1 ms or more |
| `NavVm.Advance` | viewmodels/nav_vm.py:30-50 | before the end, the index advances by one; at the end, it stays and the answer is "arrived"; the answer is "arrived" iff the new index is at the end; the index never passes the end |
| `NavVm.Walk` | viewmodels/nav_vm.py:29-50 | k presses give k answers |
| `NavVm.WalkOutcomes` | viewmodels/nav_vm.py:29-50 | press j (from 0) answers "arrived" iff idx + j + 1 >= the number of steps |
| `NavVm.FreshRouteArrivesAtLastStep` | viewmodels/nav_vm.py:29-50 | on a fresh route of n steps, the first n - 1 presses answer "continue" and the n-th "arrived" |
| `NavVm.NavViewModel.constructor` | viewmodels/nav_vm.py:23-27 | a new view-model is at step 0 with no click time and an empty trace |
| `NavVm.NavViewModel.NextStep` | viewmodels/nav_vm.py:29-50 | index and answer follow `Advance`. Past the end nothing else happens. Otherwise the click time is recorded, and the trace gains text, progress (i+1, n), the click log, the speech request and the step's vibration |
| `NavVm.NavViewModel.OnTtsStart` | viewmodels/nav_vm.py:39-42 | logs a TTS start latency (at least 1 ms) iff a nonzero click time is recorded; otherwise nothing changes |
| `NavVm.NavViewModel.OnTtsDone` | viewmodels/nav_vm.py:44-45 | logs the truncated speech duration and changes nothing else |
| `NavVm.NavViewModel.Reroute` | viewmodels/nav_vm.py:52-62 | index back to 0 and click time recorded; the trace gains both log rows, progress (0, n), the fixed text, its speech and the "forward" vibration at the current strength |
| `NavVm.NavViewModel.SetAndLog` | main.py:121-122 | the shared settings dict gets the new value, so the haptic strength used by later steps and reroutes becomes the new one when the key is `haptic_strength` and stays otherwise; a `settings_<k>` row with the text value is logged; nothing else changes |
| `Haptics.BaseTable` | services/haptics.py:18-23 | the four base patterns: forward [200], left [120, 100, 120], right [300, 120, 300], arrive [600] |
| `Haptics.BasePattern` | services/haptics.py:26 | a known kind plays its base pattern and an unknown one [200]; always nonempty with positive durations |
| `Haptics.StrengthFactor` | services/haptics.py:27 | light is 0.6, strong 1.5, and normal or any other setting 1.0 |
| `Haptics.Scale` | services/haptics.py:28 | same length; each duration is the product truncated: r <= x * k < r + 1 |
| `Haptics.VibratePattern` | services/haptics.py:25-28 | one pulse per base pulse; each is the truncated scaled base duration and is positive |
| `Haptics.ScaleByOne` | services/haptics.py:28 | scaling by 1.0 returns the pattern unchanged |
| `Haptics.NormalIsBase` | services/haptics.py:27-28 | "normal", or any unrecognised strength, plays the base pattern unchanged |
| `Haptics.ScaleMonotone` | services/haptics.py:28 | a larger factor never shortens a pulse |
| `Haptics.StrengthOrdered` | services/haptics.py:18-28 | pulse by pulse, light <= normal <= strong |
| `Haptics.UnknownKindIsForward` | services/haptics.py:26 | an unknown direction vibrates like "forward" |
| `Haptics.LightLeft` | services/haptics.py:18-28 | "left" at light strength is [72, 60, 72] |
| `Haptics.StrongArrive` | services/haptics.py:18-28 | "arrive" at strong strength is [900] |

## Left out

- Reading and writing files, printing, charts (matplotlib), `to_csv` and console output
  are not modelled. A log file is its parsed rows or a read error. A survey CSV is a
  function from encoding to parsed table.
- The `glob` calls and the `sorted` call are not modelled: the file list is a parameter.
  Only the lexicographic choice of the latest file is modelled.
- The "No logs found" exit at analyze_logs.py:28-30 comes before `load_sessions`. It is
  not modelled separately; `LoadSessions` on an empty list fails as "no readable logs".
- Delimiter sniffing and byte decoding in `pd.read_csv(sep=None, engine="python")` are
  not modelled. The parse function decides, per encoding, whether a table comes back, and
  which cells are numeric.
- The survey scripts' `os.path.exists` checks are not modelled: a missing file is simply
  not scored.
- Duplicated headers are modelled only through the coercion failure they cause. Cleaning
  fails, which ends that encoding attempt. pandas' multi-column selection is not modelled.
- `ScoreSurveys.UpperChar`: upper-cases ASCII letters only. Unicode case mapping of other
  letters is not modelled. Headers that matter (E1..S1, Q1..Q10) are ASCII.
- Floating point is not modelled: all arithmetic is over exact reals. For the haptic base
  patterns the products with 0.6 and 1.5 are the same as the IEEE results, but in general
  rounding is not captured.
- NaN is `None`. Infinities are not modelled.
- Every `value_ms` cell is taken to be a number or blank. main.py:122 logs `settings_<k>`
  rows whose value is text; a log holding one makes pandas keep `value_ms` as strings, and
  the medians at acceptance_eval.py:30, analyze_logs.py:52 and analyze_logs.py:179 then
  raise. Only `robust_stats` (analyze_logs.py:74) coerces. That failure is not modelled.
- `EventLog.Basename`: splits at '/' only, as on POSIX. Windows paths, where
  `os.path.basename` also splits at '\\', are not modelled.
- `AnalyzeLogs.RelChange`: numpy gives ±inf or NaN when the OFF median is 0. The model
  leaves the value undefined in that case instead.
- The random generator seed (`default_rng(42)`) and its bit stream are not modelled. The
  draws are a parameter, and each statistic gets its own draw function. The model does
  not capture that all statistics share one stream.
- `SummarizeSession` takes the chosen session's events (`LatestReadable` is that choice). The
  `USE_LATEST_ONLY = False` branch (all sessions) and the chart filtering (analyze_logs.py:69-148)
  are not part of this model.
- Time (`time.perf_counter`, `time.sleep`), the logger's timestamps and the speech
  engine's threads are parameters or left out. Speech callbacks are separate methods
  (`OnTtsStart`, `OnTtsDone`) that the caller invokes. Their interleaving with other
  calls is not constrained.
- `services/tts_adapter.py`, `services/logger.py`, `services/power_probe.py`,
  `models/route_model.py` and `main.py` are not part of this model, except the Settings
  screen's `set_and_log` (main.py:121-122), which is `NavViewModel.SetAndLog` because the
  view-model is given the app's own settings dict (main.py:131). A logged row and a speech
  request are effects in the view-model's trace.
- The `_run` thread of services/haptics.py, which drives the device vibrator, is not
  modelled. The pattern it is given is.
- `ScoreSurveys.Cleaned`: cleans headers with `CleanHeader` (BOM removed before stripping),
  not the code's strip-then-remove order; see Findings.
- `ScoreSurveys.CleanFrame`: computes the corrected `Cleaned`, not the code's header order.
- `ScoreSurveys.LoadFrom`: an attempt succeeds or fails as with the corrected `Cleaned`.
- `ScoreSurveys.ReadCsvRobust`: as `LoadFrom`, over the corrected `Cleaned`.
- `ScoreSurveys.OddTotal`: sums the corrected `OddItem` (a blank counts 0), not the code's
  `r[q] or 0`, which scores a blank as 4; see Findings.
- `ScoreSurveys.SusScore`: built on the corrected `OddTotal`.
- `ScoreSurveys.ScoreSus`: scores rows with the corrected `SusScore`.

## Findings

| source | as written | input that shows it | evidently intended | confidence | as-written member | corrected member |
|---|---|---|---|---|---|---|
| score_surveys.py:26 | headers are stripped before the BOM is removed | a header cell that does not start the file (utf-8-sig removes only a BOM at the very start), e.g. BOM + " E1" after an ID column, becomes " E1", which fails the E1 header check; a second pass would give "E1" | remove the BOM, then strip and upper-case, so the result is idempotent and the header is accepted | not executed | `ScoreSurveys.NormalizeHeaderAsWrittenNotIdempotent` | `ScoreSurveys.CleanHeaderIdempotent` |
| analyze_logs.py:172 | the A/B loop reads every log with an unguarded `pd.read_csv` | logs run_1 (unreadable) and run_2 (readable): loading skips run_1 with a warning, the latest-session read of run_2 succeeds, then the A/B section aborts on run_1 | skip unreadable logs in the A/B loop, as `load_sessions` and `session_has_prewarm` do | not executed | `AnalyzeLogs.CorruptLogAbortsAbLoop` | `AnalyzeLogs.AbRowsComplete` |
| analyze_logs.py:68 | the latest file is read again with an unguarded `pd.read_csv` | logs run_1 (readable) and run_2 (unreadable): loading skips run_2 with a warning, then reading run_2 as the latest session ends the script | use the latest log that `load_sessions` could read | not executed | `AnalyzeLogs.UnreadableLatestEndsScript` | `AnalyzeLogs.LatestReadable` |
| score_surveys.py:72 | `r[q] or 0` leaves NaN in place because NaN is truthy, and `min(4, nan)` returns 4 | a SUS row whose Q1 cell is blank: Q1 contributes 4, the best score, as if the answer were 5 | a blank answer counts as 0, so an odd item contributes 0 | not executed | `ScoreSurveys.BlankOddAnswerScoresBest` | `ScoreSurveys.BlankReadsAsZero` |

The rest of the model uses the corrected definitions:

- `ScoreSurveys.Cleaned` uses `CleanHeader`.
- `ScoreSurveys.SusScore` uses `OddItem` and `EvenItem`.
- `AnalyzeLogs.SummarizeSession` takes the events of a chosen session; `LatestReadable` is
  the corrected choice of that session.
- `AnalyzeLogs.CompareAb` is stated over A/B rows such as those of `AbRows`. `AbRows`
  skips unreadable logs, as `AbRowsSound` and `AbRowsComplete` state.
