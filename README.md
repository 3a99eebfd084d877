# Monitoring plugin core, modelled in Dafny

This project models the logic of three Nagios/Icinga-style monitoring
plugins, together with the helper library they share.

- **`generic_plugin.dfy`** (module `GenericPlugin`) models the shared status
  primitives:
  - `rcstring` turns a return code 0..3 and a bracket style into a label
    such as `(OK)` or `[CRITICAL]`;
  - `check_threshold` turns a metric and optional warning/critical limits
    into a code, comparing with `gt` or `lt`;
  - `update_rc` is the "never downgrade" step.

  Folding `update_rc` over the codes of one run gives `Aggregate`.
- **`veeam_backup.dfy`** (module `VeeamBackup`) models the logic of the
  Veeam backup plugin:
  - it extracts the backups that belong to a job;
  - it judges each job from its first three `Stopped` sessions, in the
    order the server lists them, and counts the verdicts;
  - it chooses the exit status of the backup check;
  - it compares the current job list with the list the previous run saved
    in a state file, then overwrites that file;
  - it chooses the report and exit status of the job check.
- **`hpe_wsapi.dfy`** (module `HpeWsapi`) models the access-point loop of
  `checkAPs`:
  - each access point's raw status is mapped to a code and an `rcstring`
    label;
  - access points that are down are counted and raise the aggregate code;
  - one table row is built per access point;
  - the first output line is built;
  - a request error overrides the code and the line.
- **`py_text.dfy`** (module `PyText`) models the Python string behaviour
  that the plugins' results depend on: `str()` of a count, `', '.join`,
  `str.splitlines()`, and the file text that writing `name + '\n'` line by
  line produces.
- **`wrappers.dfy`** (module `Wrappers`) holds `Option` and `Result`.

## How the model represents the program

- Exceptions are values:
  - `KeyError` in `rcstring` is `None`.
  - The `IndexError` that `create_backup_check` raises is `Err(IndexError(job))`. It happens when a job has at least three sessions but fewer than three `Stopped` ones, and it ends the whole check.
- Printed lines and `sys.exit` statuses are returned together as a `Report`.
- The state file of `compare_jobs` is `Option<string>`: `None` when the file is absent, and its text otherwise. The file is read with `SplitLines`. The text written back is returned.
- `checkAPs` sets `rcode` and `icingaStatus` on each access-point dict. The model instead returns the annotated copies (`RatedAccessPoint`) in input order.
- The loops of the source are methods with loop invariants. Each one is proved equal to a recursive specification function. The lemmas are proved about those functions:
  - `ExtractBackupIds`, `CreateBackupCheck`, `CompareJobs` with `CollectMissing` and `WriteLines`;
  - `RateAccessPoints` and `CheckAps`.
- The source's labels in `compare_jobs` are inverted, and the model keeps them as written:
  - `added` holds the names that vanished since the previous run;
  - `removed` holds the names that appeared.

  The two warning messages of `output_job_check` confirm this reading.

## Model

| member | source | states |
|---|---|---|
| GenericPlugin.Closing | lib/generic_plugin.py:4-8 | a closing bracket exists exactly for `(`, `[` and `{`, and differs from the opening one |
| GenericPlugin.RcString | lib/generic_plugin.py:3-16 | a label exists exactly for codes 0..3 and the brackets `(`, `[`, `{`; there is none otherwise (KeyError) |
| GenericPlugin.RcStringShape | lib/generic_plugin.py:4-15 | a label is the opening bracket, then the severity name for the code, then the matching closing bracket |
| GenericPlugin.RcStringInjective | lib/generic_plugin.py:10-16 | a label determines both the code and the bracket style |
| GenericPlugin.CheckThreshold | lib/generic_plugin.py:19-39 | the result lies in 0..2. It is 2 exactly when a set critical limit is passed in the chosen direction. It is 1 exactly when that does not happen and a set warning limit is passed. An unset limit, or a comparison other than gt/lt, never triggers |
| GenericPlugin.CheckThresholdMonotone | lib/generic_plugin.py:21-35 | with gt a larger metric never gets a lower code; with lt a smaller one never does |
| GenericPlugin.CheckThresholdMirror | lib/generic_plugin.py:21-35 | lt with limits L equals gt on the negated metric with limits -L |
| GenericPlugin.UpdateRc | lib/generic_plugin.py:41-45 | the result is at least both arguments and equals one of them (the maximum) |
| GenericPlugin.UpdateRcLaws | lib/generic_plugin.py:41-45 | update_rc is commutative, associative and idempotent; 0 is its identity on codes >= 0 |
| GenericPlugin.Aggregate | lib/generic_plugin.py:41-45 | folding update_rc from 0 gives a value that is >= 0 and >= every code, and is either 0 or one of the codes |
| GenericPlugin.AggregateMonotone | lib/generic_plugin.py:41-45 | observing more codes never lowers the aggregate |
| GenericPlugin.AggregatePermutation | lib/generic_plugin.py:41-45 | any reordering of the codes gives the same aggregate |
| PyText.DigitChar | storage/veeam_backup.py:123 | the character for a digit is a decimal digit with that value |
| PyText.DecimalString | storage/veeam_backup.py:123 | str(n) is non-empty, all decimal digits, with no leading zero |
| PyText.DecimalRoundTrip | storage/veeam_backup.py:123 | reading back the decimal rendering gives n |
| PyText.DecimalStringInjective | storage/hpe_wsapi.py:146-148 | distinct counts are rendered differently |
| PyText.Join | storage/veeam_backup.py:173 | joining a one-element list gives that element |
| PyText.JoinSnoc | storage/veeam_backup.py:173-176 | joining one more element appends the separator and that element, so the joined names appear in list order, separated by ", " |
| PyText.FirstBreak | storage/veeam_backup.py:147 | the index of the first line boundary, or the length when there is none |
| PyText.SplitLines | storage/veeam_backup.py:147 | no line returned contains a line boundary; the list of lines is empty exactly when the text is empty |
| PyText.JoinLines | storage/veeam_backup.py:158-160 | the written text is empty exactly when there are no names |
| PyText.JoinLinesSnoc | storage/veeam_backup.py:159-160 | writing one more name extends the file at its end with that name and a newline |
| PyText.SplitJoinLines | storage/veeam_backup.py:147-160 | reading back with splitlines the file written line by line gives the same names, provided no name contains a line break |
| VeeamBackup.JobBackups | storage/veeam_backup.py:56-62 | the result is no longer than the input, and no extracted id has the all-zero job id |
| VeeamBackup.JobBackupsMembers | storage/veeam_backup.py:58-61 | an id is extracted exactly when some backup with a job projects to it |
| VeeamBackup.JobBackupsAppend | storage/veeam_backup.py:58-61 | extraction distributes over concatenation, so it keeps the list order |
| VeeamBackup.ExtractBackupIds | storage/veeam_backup.py:56-62 | the loop's list equals JobBackups of the input |
| VeeamBackup.StoppedResults | storage/veeam_backup.py:106-107 | there are never more Stopped results than sessions |
| VeeamBackup.StoppedResultsAppend | storage/veeam_backup.py:106-107 | selection distributes over concatenation, so the results keep the sessions' order |
| VeeamBackup.StoppedResultsMembers | storage/veeam_backup.py:106-107 | a result is selected exactly when some session in state Stopped carries it |
| VeeamBackup.Classify | storage/veeam_backup.py:109-117 | OK exactly when the first result is Success. Warning exactly when it is Failed and the second is Success. Critical in every other case |
| VeeamBackup.EvaluateJob | storage/veeam_backup.py:102-118 | a job is skipped exactly when it has fewer than 3 sessions. It aborts exactly when it has 3 or more sessions but fewer than 3 Stopped ones. Otherwise its row holds the name, the verdict of the first two Stopped results, and the first three joined by ", " |
| VeeamBackup.Rows | storage/veeam_backup.py:100-118 | there are never more result rows than jobs |
| VeeamBackup.CountVerdict | storage/veeam_backup.py:99-117 | a verdict is never counted more often than there are rows |
| VeeamBackup.CountsPartition | storage/veeam_backup.py:109-117 | every row is counted under exactly one verdict |
| VeeamBackup.Tally | storage/veeam_backup.py:99-119 | success + warning + critical == total_jobs == the number of result rows |
| VeeamBackup.CreateBackupCheck | storage/veeam_backup.py:98-120 | the check fails exactly when some job aborts, and the error names the first such job. Otherwise the rows are those of the evaluated jobs in order, and the counters are their tally |
| VeeamBackup.BackupExitCode | storage/veeam_backup.py:129-134 | 2 exactly when critical > 0; 1 exactly when critical == 0 and warning > 0; 0 otherwise |
| VeeamBackup.SummaryLine | storage/veeam_backup.py:123 | "(OK): " + str(success) + ", (WARNING): " + str(warning) + ", (CRITICAL): " + str(critical) + ", Jobs in Check: " + str(total_jobs) |
| VeeamBackup.JobLine | storage/veeam_backup.py:126 | "(" + the verdict upper-cased + ") Job: " + job name + "; Last Results: " + the three joined results |
| VeeamBackup.VersionLine | storage/veeam_backup.py:128 | "Veeam Version: " + the server version + "; Check Version: " + the check version; the same line ends the job check at :182 |
| VeeamBackup.OutputBackupCheck | storage/veeam_backup.py:122-134 | the report is the summary line, a blank line, one line per job in order, a blank line and the version line; the exit status is BackupExitCode |
| VeeamBackup.BackupExitIsWorstJob | storage/veeam_backup.py:129-134 | the exit status of the backup check is the update_rc aggregate of the jobs' codes |
| VeeamBackup.JobLabelIsRcString | storage/veeam_backup.py:126 | the bracketed verdict of a job line is the rcstring label of the verdict's code |
| VeeamBackup.Names | storage/veeam_backup.py:143-144 | the current list holds the ids' names, in order |
| VeeamBackup.Missing | storage/veeam_backup.py:148-153 | the difference is no longer than its first list |
| VeeamBackup.MissingMembers | storage/veeam_backup.py:148-153 | a name is in the difference exactly when it is in the first list and not in the second |
| VeeamBackup.MissingEmpty | storage/veeam_backup.py:148-153 | the difference is empty exactly when every name of the first list is in the second |
| VeeamBackup.MissingAppend | storage/veeam_backup.py:148-153 | the difference distributes over concatenation, so it keeps the first list's order |
| VeeamBackup.JobDiff | storage/veeam_backup.py:145-164 | without a state file: an empty current list, no appeared names, and every current name under `added`. With one: the current names; under `removed` the current names the split file lacks; under `added` the file's names the current list lacks, each in its own list's order |
| VeeamBackup.CompareJobs | storage/veeam_backup.py:136-164 | the result equals JobDiff of the names and the state file. The file is overwritten with each current name followed by a newline, on both paths |
| VeeamBackup.CollectMissing | storage/veeam_backup.py:148-153 | each loop that collects the names one list lacks yields Missing |
| VeeamBackup.WriteLines | storage/veeam_backup.py:158-160 | the text written line by line is JoinLines of the names |
| VeeamBackup.NextRunComparesWithThisRun | storage/veeam_backup.py:145-160 | the next run, reading the file this run wrote, compares against exactly this run's names, provided no name contains a line break |
| VeeamBackup.UnchangedJobsNoDifference | storage/veeam_backup.py:145-160 | with an unchanged job list the next run finds no name vanished and none appeared, provided no name contains a line break |
| VeeamBackup.JobDiffMembers | storage/veeam_backup.py:148-153 | a name is in `added` exactly when it is in the previous list and not the current one. It is in `removed` exactly when it is in the current list and not the previous one. Both hold provided no previous name contains a line break |
| VeeamBackup.JobDiffShape | storage/veeam_backup.py:154-164 | compare_jobs never yields an empty current list together with a non-empty removed list |
| VeeamBackup.DiffReport | storage/veeam_backup.py:170-183 | the exit status is 1 exactly when `added` or `removed` is non-empty, and 0 exactly when both are empty. A non-empty `added` is printed first, after the "entfernt" (removed) warning. A non-empty `removed` comes next, after the "hinzugef√ºgt" (added) warning. With both empty, the only message is the no-change line. The report ends with a blank line and the version line |
| VeeamBackup.OutputJobCheck | storage/veeam_backup.py:166-183 | empty current and removed lists give the first-run note with exit 0. A non-empty current list gives DiffReport. Any other input prints nothing and exits 0 |
| VeeamBackup.VanishedJobsLookLikeFirstRun | storage/veeam_backup.py:167-169 | a state file with "a" and no current jobs gives added == ["a"], yet the report is the first-run note with exit 0 |
| VeeamBackup.IntendedJobReport | storage/veeam_backup.py:166-183 | the corrected report: the first-run note exactly when there is no state file, and otherwise DiffReport of the comparison |
| VeeamBackup.IntendedWarnsIffJobsChanged | storage/veeam_backup.py:170-180 | with a state file, the corrected report warns exactly when some name is in one run and not the other |
| VeeamBackup.IntendedAgreesWithNonEmptyJobs | storage/veeam_backup.py:166-183 | with a non-empty current job list, the source's report and the corrected one are equal |
| HpeWsapi.StatusCode | storage/hpe_wsapi.py:119-125 | "Up" gives 0, "Down" gives 2, and any other or missing status gives 3 |
| HpeWsapi.TableRow | storage/hpe_wsapi.py:135-136 | a row has one cell per table column; the second is the raw status and the last is the label |
| HpeWsapi.Rate | storage/hpe_wsapi.py:124-127 | an access point's code is its status code, and its label is the rcstring of that code with the default bracket |
| HpeWsapi.RatedPrefix | storage/hpe_wsapi.py:122-127 | n access points give n ratings |
| HpeWsapi.RateAll | storage/hpe_wsapi.py:122-127 | there is one rating per access point |
| HpeWsapi.RatedPrefixAt | storage/hpe_wsapi.py:122-127 | the k-th rating is that of the k-th access point |
| HpeWsapi.TableRows | storage/hpe_wsapi.py:117-138 | there is one row per rated access point |
| HpeWsapi.TableRowsAt | storage/hpe_wsapi.py:138 | the k-th row is that of the k-th rated access point |
| HpeWsapi.DownPrefix | storage/hpe_wsapi.py:118-132 | the down count of a prefix never exceeds its length |
| HpeWsapi.CountDown | storage/hpe_wsapi.py:118-132 | the down count never exceeds the number of access points |
| HpeWsapi.CountDownPositive | storage/hpe_wsapi.py:130-147 | the down count is positive exactly when some access point reports Down |
| HpeWsapi.DownPrefixPositive | storage/hpe_wsapi.py:130-132 | the down count of a prefix is positive exactly when that prefix has a Down access point |
| HpeWsapi.DownPrefixOnlyPrefix | storage/hpe_wsapi.py:130-132 | the down count of a prefix depends only on that prefix |
| HpeWsapi.FormatCount | storage/hpe_wsapi.py:146 | the text is "None" exactly when the answer had no count; otherwise it reads back as the count |
| HpeWsapi.SummaryLine | storage/hpe_wsapi.py:146-150 | the line starts with "Number of access points: " + the formatted count, and it ends with ", all UP" exactly when no access point is down (otherwise ", DOWN: " + str(down) follows) |
| HpeWsapi.Truthy | storage/hpe_wsapi.py:156 | Python truthiness of the request error: present and not empty |
| HpeWsapi.SummaryRevealsDown | storage/hpe_wsapi.py:146-150 | the first output line determines the number of down access points |
| HpeWsapi.RateAccessPoints | storage/hpe_wsapi.py:117-138 | the loop yields the ratings and the table rows in input order, and the down count. The aggregate is 2 when some access point is Down and 0 otherwise |
| HpeWsapi.CheckAps | storage/hpe_wsapi.py:111-160 | when there are no access points, it prints the "No Access Points" line and exits 0. Otherwise the detail is the header, one row per access point and the legend. With a truthy error the code is 3 and the output is the error. Without one, the code is 2 iff some access point is Down (else 0), and the output is the summary line with the down count |
| HpeWsapi.UnknownStatusDoesNotRaise | storage/hpe_wsapi.py:124-132 | an access point with an unknown status changes neither the down count nor whether any access point is down |
| HpeWsapi.TableRowOfAccessPoint | storage/hpe_wsapi.py:122-138 | the k-th table row is built from the k-th access point; it has its raw status, and its last cell is the rcstring label of its code |

## Left out

- Network and authentication are not modelled. This covers the Veeam REST calls and login (`login_to_rest_api`, `get_all_backups`, `get_all_jobs`, `get_backup_sessions`, `get_veeam_version`), the WSAPI session calls, the `apiRequest` call in `checkAPs`, and `lib/jsonapi.py`. `CheckAps` takes the parsed access points, the `count` field and the request error as parameters.
- `lib/datetime.py` is not part of this model: it wraps `datetime.timedelta` formatting and the wall clock.
- `plugin_output` is not defined in any file the model draws on, so its output format is not modelled.
- Command-line parsing, `pprint` debug output and the main blocks of the scripts are glue and are not modelled. Neither are the HTTP status checks that print an error and exit 2.
- The `tabulate` ASCII rendering is not modelled. The header, the rows and the legend are returned as a `Detail`.
- `print` and `sys.exit` are modelled as returned values (`Report`, `ApOutcome`). Process termination is not modelled.
- The state file's existence check, reading and writing are modelled as values, not as filesystem access. Text-mode newline translation is not modelled, nor is the lack of locking between concurrent runs. The directory and host parts of the file name are not modelled.
- `check_threshold`'s default comparison `gt` is the constant `DefaultComparison`. Every call names its comparison, because Dafny functions take no default arguments.
- The check version `checkVersion = '1.1'` that the main block passes to both report functions is a parameter of `OutputBackupCheck`, `DiffReport` and `OutputJobCheck`.
- Metrics and limits are `real`. Floating-point rounding and NaN are not modelled.
- Session records are reduced to their `state` and inner `result` strings. A missing key in an API record (a `KeyError` on `name`, `jobId`, `sessions`, `state` or `result`) is not modelled.
- HpeWsapi.CheckAps: an answer without an `aps` key and one with an empty list both take the early exit, so the model represents both with the empty sequence. An answer that is itself `None` is not modelled.
- HpeWsapi.CheckAps: the mutation of each access-point dict is modelled as the returned annotated copies, so aliasing of those dicts with the caller's answer is not modelled.
- HpeWsapi.CheckAps: the error is a string, or absent. `str(error)` of a non-string error value is not modelled.
- An access point with an unknown status gets code 3 and the label `(UNKNOWN)` (storage/hpe_wsapi.py:123-127). Only code 2 raises the aggregate `rcode` (:130-131), so that access point does not change the overall state. The model keeps this behaviour; see `UnknownStatusDoesNotRaise`.

## Findings

| source | as written | input that shows it | evidently intended | confidence | as-written member | corrected member |
|---|---|---|---|---|---|---|
| storage/veeam_backup.py:167-169 | `output_job_check` takes an empty current list with an empty `removed` list for a first run. That also happens when a state file exists and every job from the previous run has vanished. | state file "a\n" and no current jobs: `added` is ["a"], yet the report is the first-run note with exit 0 | a warning naming the vanished jobs, with exit 1; the first-run note only when there was no state file | medium, not executed | VeeamBackup.VanishedJobsLookLikeFirstRun | VeeamBackup.IntendedJobReport |
