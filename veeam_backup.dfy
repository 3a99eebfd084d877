/**
 * The logic of the backup-server plugin: which backups belong to a job,
 * how each job is judged from its first three Stopped sessions in server order, the exit
 * code of the backup check, and the job-list comparison against the state
 * file of the previous run.
 */
module VeeamBackup {
  import opened Wrappers
  import opened PyText
  import GenericPlugin

  /** Backups that belong to no job carry this job id. */
  const NullJobId := "00000000-0000-0000-0000-000000000000"

  /** A record of the backup list; `fields` stands for the attributes the plugin does not read. */
  datatype Backup = Backup(name: string, jobId: string, fields: map<string, string>)

  datatype BackupId = BackupId(name: string, jobId: string)

  predicate HasJob(b: Backup) {
    b.jobId != NullJobId
  }

  function Project(b: Backup): BackupId {
    BackupId(b.name, b.jobId)
  }

  // ---------------------------------------------------------------------
  // extract_backup_ids
  // ---------------------------------------------------------------------

  /** The backups bound to a job, projected to name and job id, in list order. */
  function JobBackups(backups: seq<Backup>): (ids: seq<BackupId>)
    ensures |ids| <= |backups|
    ensures forall k :: 0 <= k < |ids| ==> ids[k].jobId != NullJobId
  {
    if backups == [] then []
    else
      var last := backups[|backups| - 1];
      JobBackups(backups[..|backups| - 1]) + (if HasJob(last) then [Project(last)] else [])
  }

  /** An id is extracted exactly when some job-bound backup projects to it. */
  lemma {:induction false} JobBackupsMembers(backups: seq<Backup>, id: BackupId)
    ensures id in JobBackups(backups) <==> exists i :: 0 <= i < |backups| && HasJob(backups[i]) && Project(backups[i]) == id
  {
    if backups != [] {
      var init := backups[..|backups| - 1];
      JobBackupsMembers(init, id);
      if exists i :: 0 <= i < |init| && HasJob(init[i]) && Project(init[i]) == id {
        var i :| 0 <= i < |init| && HasJob(init[i]) && Project(init[i]) == id;
        assert backups[i] == init[i];
      }
      if exists i :: 0 <= i < |backups| && HasJob(backups[i]) && Project(backups[i]) == id {
        var i :| 0 <= i < |backups| && HasJob(backups[i]) && Project(backups[i]) == id;
        if i < |init| {
          assert init[i] == backups[i];
        }
      }
    }
  }

  /** Extraction distributes over concatenation, so it keeps the list order. */
  lemma {:induction false} JobBackupsAppend(a: seq<Backup>, b: seq<Backup>)
    ensures JobBackups(a + b) == JobBackups(a) + JobBackups(b)
    decreases |b|
  {
    if b == [] {
      assert a + b == a;
    } else {
      var b' := b[..|b| - 1];
      assert (a + b)[..|a + b| - 1] == a + b';
      assert (a + b)[|a + b| - 1] == b[|b| - 1];
      JobBackupsAppend(a, b');
    }
  }

  /** extract_backup_ids. */
  method ExtractBackupIds(backups: seq<Backup>) returns (ids: seq<BackupId>)
    ensures ids == JobBackups(backups)
  {
    ids := [];
    for i := 0 to |backups|
      invariant ids == JobBackups(backups[..i])
    {
      assert backups[..i + 1][..i] == backups[..i];
      var backup := backups[i];
      if backup.jobId != NullJobId {
        ids := ids + [BackupId(backup.name, backup.jobId)];
      }
    }
    assert backups[..|backups|] == backups;
  }

  // ---------------------------------------------------------------------
  // create_backup_check
  // ---------------------------------------------------------------------

  /** A session of a job: its state and the result recorded for it. */
  datatype Session = Session(state: string, result: string)

  /** A job's name and its sessions, in the order the server listed them. */
  datatype JobSessions = JobSessions(name: string, sessions: seq<Session>)

  /** How one job is judged; its text in the per-job result is "OK", "Warning" or "Critical". */
  datatype Verdict = JobOk | JobWarning | JobCritical

  datatype JobResult = JobResult(jobName: string, verdict: Verdict, last3Results: string)

  datatype Summary = Summary(totalJobs: nat, success: nat, warning: nat, critical: nat)

  datatype BackupCheck = BackupCheck(jobResults: seq<JobResult>, summary: Summary)

  /** The exception that aborts the whole check: a job with too few Stopped sessions to index. */
  datatype Fault = IndexError(jobName: string)

  /** The results of the Stopped sessions, in list order. */
  function StoppedResults(sessions: seq<Session>): (rs: seq<string>)
    ensures |rs| <= |sessions|
  {
    if sessions == [] then []
    else (if sessions[0].state == "Stopped" then [sessions[0].result] else []) + StoppedResults(sessions[1..])
  }

  /** Selection distributes over concatenation, so it keeps the sessions' order. */
  lemma {:induction false} StoppedResultsAppend(a: seq<Session>, b: seq<Session>)
    ensures StoppedResults(a + b) == StoppedResults(a) + StoppedResults(b)
  {
    if a != [] {
      assert (a + b)[1..] == a[1..] + b;
      StoppedResultsAppend(a[1..], b);
    } else {
      assert a + b == b;
    }
  }

  /** A result is selected exactly when some Stopped session carries it. */
  lemma {:induction false} StoppedResultsMembers(sessions: seq<Session>, r: string)
    ensures r in StoppedResults(sessions)
            <==> exists i :: 0 <= i < |sessions| && sessions[i].state == "Stopped" && sessions[i].result == r
  {
    if sessions != [] {
      var tail := sessions[1..];
      StoppedResultsMembers(tail, r);
      if exists i :: 0 <= i < |tail| && tail[i].state == "Stopped" && tail[i].result == r {
        var i :| 0 <= i < |tail| && tail[i].state == "Stopped" && tail[i].result == r;
        assert sessions[i + 1] == tail[i];
      }
      if exists i :: 0 <= i < |sessions| && sessions[i].state == "Stopped" && sessions[i].result == r {
        var i :| 0 <= i < |sessions| && sessions[i].state == "Stopped" && sessions[i].result == r;
        if i > 0 {
          assert tail[i - 1] == sessions[i];
        }
      }
    }
  }

  /** The verdict from the first two of the first three Stopped results. */
  function Classify(first: string, second: string): (v: Verdict)
    ensures v == JobOk <==> first == "Success"
    ensures v == JobWarning <==> first != "Success" && first == "Failed" && second == "Success"
    ensures v == JobCritical <==> first != "Success" && !(first == "Failed" && second == "Success")
  {
    if first == "Success" then JobOk
    else if first == "Failed" && second == "Success" then JobWarning
    else JobCritical
  }

  /** What one job contributes: nothing, an abort, or a result row. */
  datatype Step = Skipped | Crashed | Evaluated(row: JobResult)

  function EvaluateJob(job: JobSessions): (s: Step)
    ensures s.Skipped? <==> |job.sessions| < 3
    ensures s.Crashed? <==> |job.sessions| >= 3 && |StoppedResults(job.sessions)| < 3
    ensures s.Evaluated? ==>
              var rs := StoppedResults(job.sessions);
              s.row == JobResult(job.name, Classify(rs[0], rs[1]), Join(", ", rs[..3]))
  {
    if |job.sessions| < 3 then Skipped
    else
      var recent := StoppedResults(job.sessions);
      if |recent| < 3 then Crashed
      else
        assert recent[..3][1..][1..] == [recent[2]];
        Evaluated(JobResult(job.name, Classify(recent[0], recent[1]), recent[0] + ", " + recent[1] + ", " + recent[2]))
  }

  predicate Crashes(jobs: seq<JobSessions>) {
    exists i :: 0 <= i < |jobs| && EvaluateJob(jobs[i]).Crashed?
  }

  /** The result rows of the evaluated jobs, in list order. */
  function Rows(jobs: seq<JobSessions>): (rows: seq<JobResult>)
    ensures |rows| <= |jobs|
  {
    if jobs == [] then []
    else
      var s := EvaluateJob(jobs[|jobs| - 1]);
      Rows(jobs[..|jobs| - 1]) + (if s.Evaluated? then [s.row] else [])
  }

  function CountVerdict(rows: seq<JobResult>, v: Verdict): (n: nat)
    ensures n <= |rows|
  {
    if rows == [] then 0
    else CountVerdict(rows[..|rows| - 1], v) + (if rows[|rows| - 1].verdict == v then 1 else 0)
  }

  /** Every row is counted under exactly one verdict. */
  lemma {:induction false} CountsPartition(rows: seq<JobResult>)
    ensures CountVerdict(rows, JobOk) + CountVerdict(rows, JobWarning) + CountVerdict(rows, JobCritical) == |rows|
  {
    if rows != [] {
      CountsPartition(rows[..|rows| - 1]);
    }
  }

  /** The summary counters kept for a list of result rows. */
  function Tally(rows: seq<JobResult>): (s: Summary)
    ensures s.success + s.warning + s.critical == s.totalJobs == |rows|
  {
    CountsPartition(rows);
    Summary(|rows|, CountVerdict(rows, JobOk), CountVerdict(rows, JobWarning), CountVerdict(rows, JobCritical))
  }

  /** create_backup_check. */
  method CreateBackupCheck(backups: seq<JobSessions>) returns (r: Result<BackupCheck, Fault>)
    ensures r.Err? <==> Crashes(backups)
    ensures r.Err? ==>
              exists i :: 0 <= i < |backups| && EvaluateJob(backups[i]).Crashed? && r.error == IndexError(backups[i].name)
                          && forall k :: 0 <= k < i ==> !EvaluateJob(backups[k]).Crashed?
    ensures r.Ok? ==> r.value.jobResults == Rows(backups) && r.value.summary == Tally(Rows(backups))
  {
    var total, success, warning, critical := 0, 0, 0, 0;
    var jobResults: seq<JobResult> := [];
    for i := 0 to |backups|
      invariant forall k :: 0 <= k < i ==> !EvaluateJob(backups[k]).Crashed?
      invariant jobResults == Rows(backups[..i])
      invariant total == |jobResults|
      invariant success == CountVerdict(jobResults, JobOk)
      invariant warning == CountVerdict(jobResults, JobWarning)
      invariant critical == CountVerdict(jobResults, JobCritical)
    {
      assert backups[..i + 1][..i] == backups[..i];
      var jobName := backups[i].name;
      var sessions := backups[i].sessions;
      if |sessions| < 3 {
        continue;
      }
      var recentResults := StoppedResults(sessions);
      if |recentResults| < 3 {
        return Err(IndexError(jobName));
      }
      var last3Results := recentResults[0] + ", " + recentResults[1] + ", " + recentResults[2];
      var jobResult;
      if recentResults[0] == "Success" {
        jobResult := JobOk;
        success := success + 1;
      } else if recentResults[0] == "Failed" && recentResults[1] == "Success" {
        jobResult := JobWarning;
        warning := warning + 1;
      } else {
        jobResult := JobCritical;
        critical := critical + 1;
      }
      jobResults := jobResults + [JobResult(jobName, jobResult, last3Results)];
      total := total + 1;
    }
    assert backups[..|backups|] == backups;
    r := Ok(BackupCheck(jobResults, Summary(total, success, warning, critical)));
  }

  // ---------------------------------------------------------------------
  // output_backup_check
  // ---------------------------------------------------------------------

  /** The plugin's printed lines and its exit status. */
  datatype Report = Report(lines: seq<string>, exitCode: int)

  /** The return code a verdict stands for. */
  function Severity(v: Verdict): int {
    match v
    case JobOk => GenericPlugin.OK
    case JobWarning => GenericPlugin.WARNING
    case JobCritical => GenericPlugin.CRITICAL
  }

  /** A verdict's text, upper-cased as the per-job line prints it. */
  function UpperLabel(v: Verdict): string {
    match v
    case JobOk => "OK"
    case JobWarning => "WARNING"
    case JobCritical => "CRITICAL"
  }

  /** The bracketed label of a job line is the rcstring label of the verdict's return code. */
  lemma JobLabelIsRcString(v: Verdict)
    ensures GenericPlugin.RcString(Severity(v), '(') == Some("(" + UpperLabel(v) + ")")
  {
  }

  function SummaryLine(s: Summary): string {
    "(OK): " + DecimalString(s.success) + ", (WARNING): " + DecimalString(s.warning)
    + ", (CRITICAL): " + DecimalString(s.critical) + ", Jobs in Check: " + DecimalString(s.totalJobs)
  }

  function JobLine(j: JobResult): string {
    "(" + UpperLabel(j.verdict) + ") Job: " + j.jobName + "; Last Results: " + j.last3Results
  }

  function VersionLine(veeamVersion: string, checkVersion: string): string {
    "Veeam Version: " + veeamVersion + "; Check Version: " + checkVersion
  }

  /** The exit status of the backup check. */
  function BackupExitCode(s: Summary): (code: int)
    ensures code == GenericPlugin.CRITICAL <==> s.critical > 0
    ensures code == GenericPlugin.WARNING <==> s.critical == 0 && s.warning > 0
    ensures code == GenericPlugin.OK <==> s.critical == 0 && s.warning == 0
  {
    if s.critical > 0 then GenericPlugin.CRITICAL
    else if s.warning > 0 then GenericPlugin.WARNING
    else GenericPlugin.OK
  }

  /** output_backup_check, with the printed lines and the exit status returned. */
  function OutputBackupCheck(check: BackupCheck, veeamVersion: string, checkVersion: string): (rep: Report)
    ensures |rep.lines| == |check.jobResults| + 4
    ensures rep.lines[0] == SummaryLine(check.summary) && rep.lines[1] == ""
    ensures forall i :: 0 <= i < |check.jobResults| ==> rep.lines[i + 2] == JobLine(check.jobResults[i])
    ensures rep.lines[|rep.lines| - 2] == "" && rep.lines[|rep.lines| - 1] == VersionLine(veeamVersion, checkVersion)
    ensures rep.exitCode == BackupExitCode(check.summary)
  {
    var jobLines := seq(|check.jobResults|, i requires 0 <= i < |check.jobResults| => JobLine(check.jobResults[i]));
    Report([SummaryLine(check.summary), ""] + jobLines + ["", VersionLine(veeamVersion, checkVersion)],
           BackupExitCode(check.summary))
  }

  /** The return codes of the result rows, in order. */
  function Severities(rows: seq<JobResult>): (codes: seq<int>)
    ensures |codes| == |rows|
    ensures forall k :: 0 <= k < |rows| ==> codes[k] == Severity(rows[k].verdict)
  {
    if rows == [] then [] else Severities(rows[..|rows| - 1]) + [Severity(rows[|rows| - 1].verdict)]
  }

  /** The backup check exits with the worst job's code, the update_rc aggregate of all rows. */
  lemma {:induction false} BackupExitIsWorstJob(rows: seq<JobResult>)
    ensures BackupExitCode(Tally(rows)) == GenericPlugin.Aggregate(Severities(rows))
  {
    if rows != [] {
      var init := rows[..|rows| - 1];
      BackupExitIsWorstJob(init);
      assert Severities(rows)[..|rows| - 1] == Severities(init);
    }
  }

  // ---------------------------------------------------------------------
  // compare_jobs
  // ---------------------------------------------------------------------

  /**
   * The result of compare_jobs under the source's own labels: `added` holds
   * the names that VANISHED since the previous run and `removed` the names
   * that APPEARED.
   */
  datatype JobCheck = JobCheck(current: seq<string>, removed: seq<string>, added: seq<string>)

  function Names(ids: seq<BackupId>): (names: seq<string>)
    ensures |names| == |ids| && forall k :: 0 <= k < |ids| ==> names[k] == ids[k].name
  {
    seq(|ids|, k requires 0 <= k < |ids| => ids[k].name)
  }

  /** The elements of xs that are not in ys, in xs order, duplicates kept. */
  function Missing(xs: seq<string>, ys: seq<string>): (r: seq<string>)
    ensures |r| <= |xs|
  {
    if xs == [] then []
    else
      var last := xs[|xs| - 1];
      Missing(xs[..|xs| - 1], ys) + (if last in ys then [] else [last])
  }

  /** An element is missing exactly when it occurs in xs and not in ys. */
  lemma {:induction false} MissingMembers(xs: seq<string>, ys: seq<string>, x: string)
    ensures x in Missing(xs, ys) <==> x in xs && x !in ys
  {
    if xs != [] {
      var init := xs[..|xs| - 1];
      MissingMembers(init, ys, x);
      assert xs == init + [xs[|xs| - 1]];
    }
  }

  /** Nothing is missing exactly when every element of xs occurs in ys. */
  lemma MissingEmpty(xs: seq<string>, ys: seq<string>)
    ensures Missing(xs, ys) == [] <==> forall x :: x in xs ==> x in ys
  {
    var r := Missing(xs, ys);
    if r != [] {
      MissingMembers(xs, ys, r[0]);
    } else {
      forall x | x in xs
        ensures x in ys
      {
        MissingMembers(xs, ys, x);
      }
    }
  }

  /** Missing distributes over concatenation of its first argument, so it keeps the order. */
  lemma {:induction false} MissingAppend(a: seq<string>, b: seq<string>, ys: seq<string>)
    ensures Missing(a + b, ys) == Missing(a, ys) + Missing(b, ys)
    decreases |b|
  {
    if b == [] {
      assert a + b == a;
    } else {
      var b' := b[..|b| - 1];
      assert (a + b)[..|a + b| - 1] == a + b';
      assert (a + b)[|a + b| - 1] == b[|b| - 1];
      MissingAppend(a, b', ys);
    }
  }

  /**
   * The comparison compare_jobs makes of the current names with the state
   * file (None when there is none), under the source's labels.
   */
  function JobDiff(current: seq<string>, stateFile: Option<string>): (check: JobCheck)
  {
    match stateFile
    case None => JobCheck([], [], current)
    case Some(content) =>
      var previous := SplitLines(content);
      JobCheck(current, Missing(current, previous), Missing(previous, current))
  }

  /**
   * compare_jobs: the comparison, and the contents the state file is
   * overwritten with (one name per line), on every path.
   */
  method CompareJobs(ids: seq<BackupId>, stateFile: Option<string>) returns (check: JobCheck, written: string)
    ensures check == JobDiff(Names(ids), stateFile)
    ensures written == JoinLines(Names(ids))
  {
    var currentJobs: seq<string> := [];
    var removedJobs: seq<string> := [];
    var addedJobs: seq<string> := [];
    var newFile := false;
    for i := 0 to |ids|
      invariant currentJobs == Names(ids[..i])
    {
      currentJobs := currentJobs + [ids[i].name];
    }
    assert ids[..|ids|] == ids;
    match stateFile {
      case Some(content) =>
        var previousJobs := SplitLines(content);
        addedJobs := CollectMissing(previousJobs, currentJobs);
        removedJobs := CollectMissing(currentJobs, previousJobs);
      case None =>
        for i := 0 to |currentJobs|
          invariant addedJobs == currentJobs[..i]
        {
          addedJobs := addedJobs + [currentJobs[i]];
        }
        assert currentJobs[..|currentJobs|] == currentJobs;
        newFile := true;
    }
    written := WriteLines(currentJobs);
    if !newFile {
      check := JobCheck(currentJobs, removedJobs, addedJobs);
    } else {
      check := JobCheck([], removedJobs, addedJobs);
    }
  }

  /** The loops of compare_jobs that keep, in order, the entries of xs that ys lacks. */
  method CollectMissing(xs: seq<string>, ys: seq<string>) returns (r: seq<string>)
    ensures r == Missing(xs, ys)
  {
    r := [];
    for i := 0 to |xs|
      invariant r == Missing(xs[..i], ys)
    {
      assert xs[..i + 1][..i] == xs[..i];
      if xs[i] !in ys {
        r := r + [xs[i]];
      }
    }
    assert xs[..|xs|] == xs;
  }

  /** The state-file write of compare_jobs: every name followed by a newline. */
  method WriteLines(lines: seq<string>) returns (written: string)
    ensures written == JoinLines(lines)
  {
    written := "";
    for i := 0 to |lines|
      invariant written == JoinLines(lines[..i])
    {
      JoinLinesSnoc(lines[..i], lines[i]);
      assert lines[..i + 1] == lines[..i] + [lines[i]];
      written := written + lines[i] + "\n";
    }
    assert lines[..|lines|] == lines;
  }

  /**
   * The next run, given the file this run wrote, compares against exactly
   * this run's names.
   */
  lemma NextRunComparesWithThisRun(previous: seq<string>, current: seq<string>)
    requires forall k :: 0 <= k < |previous| ==> NoLineBreak(previous[k])
    ensures JobDiff(current, Some(JoinLines(previous)))
            == JobCheck(current, Missing(current, previous), Missing(previous, current))
  {
    SplitJoinLines(previous);
  }

  /** With an unchanged job list the next run reports nothing vanished and nothing appeared. */
  lemma UnchangedJobsNoDifference(names: seq<string>)
    requires forall k :: 0 <= k < |names| ==> NoLineBreak(names[k])
    ensures JobDiff(names, Some(JoinLines(names))).added == []
    ensures JobDiff(names, Some(JoinLines(names))).removed == []
  {
    NextRunComparesWithThisRun(names, names);
    MissingEmpty(names, names);
  }

  /** A job appears in neither list exactly when it is in both runs or in neither. */
  lemma JobDiffMembers(current: seq<string>, previous: seq<string>, x: string)
    requires forall k :: 0 <= k < |previous| ==> NoLineBreak(previous[k])
    ensures var check := JobDiff(current, Some(JoinLines(previous)));
            (x in check.added <==> x in previous && x !in current)
            && (x in check.removed <==> x in current && x !in previous)
  {
    NextRunComparesWithThisRun(previous, current);
    MissingMembers(previous, current, x);
    MissingMembers(current, previous, x);
  }

  /** compare_jobs never yields an empty current list together with a non-empty removed list. */
  lemma JobDiffShape(current: seq<string>, stateFile: Option<string>)
    ensures JobDiff(current, stateFile).current == [] ==> JobDiff(current, stateFile).removed == []
  {
  }

  // ---------------------------------------------------------------------
  // output_job_check
  // ---------------------------------------------------------------------

  const FirstRunNote := "[ Note: First Runtime of Check ]"
  const VanishedPrefix := "(WARNING) Jobs seit letztem Check entfernt: "
  const AppearedPrefix := "(WARNING) Jobs seit letztem Check hinzugef\U{221A}\U{BA}gt: "
  const NoChangeLine := "(OK) Keine neuen / entfernten Jobs gefunden"

  /** The report of a comparison that had a previous list and current names. */
  function DiffReport(check: JobCheck, veeamVersion: string, checkVersion: string): (rep: Report)
    ensures rep.exitCode == GenericPlugin.WARNING <==> check.added != [] || check.removed != []
    ensures rep.exitCode == GenericPlugin.OK <==> check.added == [] && check.removed == []
    ensures |rep.lines| == (if check.added != [] && check.removed != [] then 4 else 3)
    ensures check.added != [] ==> rep.lines[0] == VanishedPrefix + Join(", ", check.added)
    ensures check.removed != [] ==>
              rep.lines[if check.added != [] then 1 else 0] == AppearedPrefix + Join(", ", check.removed)
    ensures check.added == [] && check.removed == [] ==> rep.lines[0] == NoChangeLine
    ensures rep.lines[|rep.lines| - 2..] == ["", VersionLine(veeamVersion, checkVersion)]
  {
    var vanished := if |check.added| > 0 then [VanishedPrefix + Join(", ", check.added)] else [];
    var appeared := if |check.removed| > 0 then [AppearedPrefix + Join(", ", check.removed)] else [];
    var noChange := if |check.added| == 0 && |check.removed| == 0 then [NoChangeLine] else [];
    var exitCode := if |check.added| > 0 || |check.removed| > 0 then GenericPlugin.WARNING else GenericPlugin.OK;
    Report(vanished + appeared + noChange + ["", VersionLine(veeamVersion, checkVersion)], exitCode)
  }

  /**
   * output_job_check as written: an empty current list with an empty removed
   * list is taken for a first run; a call with neither that nor current names
   * prints nothing and the plugin ends with status 0.
   */
  function OutputJobCheck(check: JobCheck, veeamVersion: string, checkVersion: string): (rep: Report)
    ensures check.current == [] && check.removed == [] ==> rep == Report([FirstRunNote], GenericPlugin.OK)
    ensures check.current != [] ==> rep == DiffReport(check, veeamVersion, checkVersion)
    ensures check.current == [] && check.removed != [] ==> rep == Report([], GenericPlugin.OK)
  {
    if |check.current| == 0 && |check.removed| == 0 then Report([FirstRunNote], GenericPlugin.OK)
    else if |check.current| > 0 then DiffReport(check, veeamVersion, checkVersion)
    else Report([], GenericPlugin.OK)
  }

  /** When every job of the previous run has vanished, the check claims a first run and exits OK. */
  lemma VanishedJobsLookLikeFirstRun(veeamVersion: string, checkVersion: string)
    ensures JobDiff([], Some("a\n")).added == ["a"]
    ensures OutputJobCheck(JobDiff([], Some("a\n")), veeamVersion, checkVersion) == Report([FirstRunNote], GenericPlugin.OK)
  {
    assert JoinLines(["a"]) == "a\n";
    NextRunComparesWithThisRun(["a"], []);
  }

  /**
   * The job report as evidently intended: the first-run note only when there
   * was no state file; otherwise a warning exactly when the job set changed.
   */
  function IntendedJobReport(current: seq<string>, stateFile: Option<string>, veeamVersion: string, checkVersion: string): (rep: Report)
    ensures stateFile.None? ==> rep == Report([FirstRunNote], GenericPlugin.OK)
    ensures stateFile.Some? ==> rep == DiffReport(JobDiff(current, stateFile), veeamVersion, checkVersion)
  {
    match stateFile
    case None => Report([FirstRunNote], GenericPlugin.OK)
    case Some(_) => DiffReport(JobDiff(current, stateFile), veeamVersion, checkVersion)
  }

  /** With a state file, the intended report warns exactly when some job vanished or appeared. */
  lemma IntendedWarnsIffJobsChanged(current: seq<string>, content: string, veeamVersion: string, checkVersion: string)
    ensures var previous := SplitLines(content);
            IntendedJobReport(current, Some(content), veeamVersion, checkVersion).exitCode == GenericPlugin.WARNING
            <==> exists x :: (x in previous && x !in current) || (x in current && x !in previous)
  {
    var previous := SplitLines(content);
    MissingEmpty(previous, current);
    MissingEmpty(current, previous);
  }

  /** Whenever the current job list is not empty, the source and the intended report agree. */
  lemma IntendedAgreesWithNonEmptyJobs(current: seq<string>, stateFile: Option<string>, veeamVersion: string, checkVersion: string)
    requires current != []
    ensures OutputJobCheck(JobDiff(current, stateFile), veeamVersion, checkVersion)
            == IntendedJobReport(current, stateFile, veeamVersion, checkVersion)
  {
  }
}
