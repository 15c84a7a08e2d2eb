/** Closing a run whose runner died: what recovery writes, what it may not touch, and
    why it does not matter when recovery itself dies. */
module Recovery {
  import opened Common
  import opened BuildReport
  import opened BuildSession

  datatype Recovery = Nothing | Refused | Recovered(report: Report)

  const REASON: string := "previous runner stopped without recording a terminal state"

  function AbandonStages(ss: seq<StageRecord>): seq<StageRecord> {
    seq(|ss|, i requires 0 <= i < |ss| => ss[i].(status := Abandon(ss[i].status)))
  }

  function AbandonVariants(vs: seq<VariantRecord>): seq<VariantRecord> {
    seq(|vs|, i requires 0 <= i < |vs| => vs[i].(status := Abandon(vs[i].status)))
  }

  function AbandonReport(r: Report): Report {
    Report(Abandoned, "complete", None, AbandonStages(r.stages), AbandonVariants(r.variants), Some(REASON))
  }

  // ---------------------------------------------------------------- the four writes

  function Logged(s: DiskState, dir: Dir): DiskState
    requires dir in s.runs
  {
    s.(runs := s.runs[dir := s.runs[dir].(events := s.runs[dir].events + [LogRecord(None, RunAbandoned)])])
  }

  function Summarized(s: DiskState, dir: Dir, r: Report): DiskState
    requires dir in s.runs
  {
    s.(runs := s.runs[dir := s.runs[dir].(summary := Some(r))])
  }

  function Resulted(s: DiskState, dir: Dir, r: Report): DiskState
    requires dir in s.runs
  {
    s.(runs := s.runs[dir := s.runs[dir].(result := Some(r))])
  }

  function Pointed(s: DiskState, dir: Dir, r: Report): DiskState {
    s.(pointer := Some(LatestPointer(r, dir)))
  }

  /** The run that needs recovery: selected, still running, below the state root. */
  predicate Stale(s: DiskState, root: Dir, byTime: seq<Dir>) {
    var d := Selected(s, byTime);
    d.Some? && s.runs[d.value].summary.value.status.Running? && root <= d.value
  }

  /** Recovery finds nothing to do, in whatever order it sees the runs. */
  ghost predicate NeverStale(s: DiskState, root: Dir) {
    forall byTime :: !Stale(s, root, byTime)
  }

  /** The durable states recovery goes through, the starting one excluded. */
  function Steps(s: DiskState, dir: Dir, r: Report): seq<DiskState>
    requires dir in s.runs
  {
    var s1 := Logged(s, dir);
    var s2 := Summarized(s1, dir, r);
    var s3 := Resulted(s2, dir, r);
    [s1, s2, s3, Pointed(s3, dir, r)]
  }

  /** `abandon_stale_run` */
  method AbandonStaleRun(disk: Disk, root: Dir, byTime: seq<Dir>) returns (r: Recovery)
    modifies disk
    ensures r.Recovered? <==> Stale(old(disk.State()), root, byTime)
    ensures r.Refused? <==>
      var d := Selected(old(disk.State()), byTime);
      d.Some? && !(root <= d.value) && old(disk.runs)[d.value].summary.value.status.Running?
    ensures !r.Recovered? ==> disk.State() == old(disk.State()) && disk.history == old(disk.history)
    ensures r.Recovered? ==>
      var s, dir := old(disk.State()), Selected(old(disk.State()), byTime).value;
      && r.report == AbandonReport(s.runs[dir].summary.value)
      && disk.history == old(disk.history) + Steps(s, dir, r.report)
      && disk.State() == Steps(s, dir, r.report)[3]
  {
    var loaded := LatestReport(disk, byTime);
    if loaded.None? { return Nothing; }
    var (report, dir) := loaded.value;
    if !report.status.Running? { return Nothing; }
    if !(root <= dir) { return Refused; }
    var stages := report.stages;
    for i := 0 to |stages|
      invariant |stages| == |report.stages|
      invariant forall j :: 0 <= j < |stages| ==>
        stages[j] == if j < i then report.stages[j].(status := Abandon(report.stages[j].status)) else report.stages[j]
    {
      if stages[i].status.Running? { stages := stages[i := stages[i].(status := Abandoned)]; }
    }
    var variants := report.variants;
    for i := 0 to |variants|
      invariant |variants| == |report.variants|
      invariant forall j :: 0 <= j < |variants| ==>
        variants[j] ==
          if j < i then report.variants[j].(status := Abandon(report.variants[j].status)) else report.variants[j]
    {
      if variants[i].status.Running? { variants := variants[i := variants[i].(status := Abandoned)]; }
    }
    assert stages == AbandonStages(report.stages) && variants == AbandonVariants(report.variants);
    report := Report(Abandoned, "complete", None, stages, variants, Some(REASON));
    disk.AppendEvent(dir, LogRecord(None, RunAbandoned));
    disk.WriteSummary(dir, report);
    disk.WriteResult(dir, report);
    disk.WritePointer(LatestPointer(report, dir));
    return Recovered(report);
  }

  // ---------------------------------------------------------------- what recovery leaves

  /** Nothing is left running, and no record that was terminal or pending changes. */
  lemma NothingLeftRunning(r: Report)
    ensures var a := AbandonReport(r);
      && a.status.Abandoned? && a.currentStage.None? && |a.stages| == |r.stages| && |a.variants| == |r.variants|
      && (forall i :: 0 <= i < |a.stages| ==> !a.stages[i].status.Running?)
      && (forall i :: 0 <= i < |a.stages| && !r.stages[i].status.Running? ==> a.stages[i] == r.stages[i])
      && (forall i :: 0 <= i < |a.variants| ==> !a.variants[i].status.Running?)
      && (forall i :: 0 <= i < |a.variants| && !r.variants[i].status.Running? ==> a.variants[i] == r.variants[i])
  {
  }

  /** `latest.json` selects `dir`, whose summary is `r` or what recovery makes of it. */
  ghost predicate Recovering(s: DiskState, dir: Dir, r: Report) {
    && s.pointer.Some? && s.pointer.value.summary == dir && HasSummary(s.runs, dir)
    && (s.runs[dir].summary.value == r || s.runs[dir].summary.value == AbandonReport(r))
  }

  lemma PointerSelects(s: DiskState, dir: Dir, byTime: seq<Dir>)
    requires s.pointer.Some? && s.pointer.value.summary == dir && HasSummary(s.runs, dir)
    ensures Selected(s, byTime) == Some(dir)
  {
  }

  /** A recovery that dies at any step leaves a state from which recovery can start again. */
  lemma RecoveryMayCrash(s: DiskState, root: Dir, byTime: seq<Dir>, dir: Dir, r: Report, k: nat)
    requires Recovering(s, dir, r) && r.status.Running? && Stale(s, root, byTime) && k < 4
    ensures Selected(s, byTime) == Some(dir) && s.runs[dir].summary.value == r
    ensures Recovering(Steps(s, dir, AbandonReport(r))[k], dir, r)
    ensures Steps(s, dir, AbandonReport(r))[3].runs[dir].summary == Some(AbandonReport(r))
  {
    PointerSelects(s, dir, byTime);
  }

  /** However often recovery dies and is started again, the recovery that finds nothing
      left to do finds the report abandoned; a completed one is followed by nothing. */
  lemma RecoveryConverges(s: DiskState, root: Dir, byTime: seq<Dir>, dir: Dir, r: Report)
    requires Recovering(s, dir, r) && r.status.Running? && root <= dir
    ensures !Stale(s, root, byTime) ==> s.runs[dir].summary == Some(AbandonReport(r))
    ensures Stale(s, root, byTime) ==> NeverStale(Steps(s, dir, AbandonReport(r))[3], root)
  {
    PointerSelects(s, dir, byTime);
    if Stale(s, root, byTime) {
      forall byTime' ensures !Stale(Steps(s, dir, AbandonReport(r))[3], root, byTime') {
        PointerSelects(Steps(s, dir, AbandonReport(r))[3], dir, byTime');
      }
    }
  }

  /** One durable state per attempt, after the one recovery started from: each attempt found
      the report still running and got as far as one of its four writes. */
  ghost predicate Attempts(chain: seq<DiskState>, root: Dir, byTime: seq<Dir>, dir: Dir, r: Report) {
    var n := |chain|;
    if n == 0 then false
    else if n == 1 then true
    else
      && Attempts(chain[..n - 1], root, byTime, dir, r)
      && AttemptedAgain(chain[n - 2], chain[n - 1], root, byTime, dir, r)
  }

  ghost predicate AttemptedAgain(s: DiskState, s': DiskState, root: Dir, byTime: seq<Dir>, dir: Dir, r: Report) {
    && Stale(s, root, byTime) && dir in s.runs
    && exists k: nat :: k < 4 && s' == Steps(s, dir, AbandonReport(r))[k]
  }

  function Closings(n: nat): (lines: seq<LogRecord>)
    ensures |lines| == n
  {
    seq(n, i => LogRecord(None, RunAbandoned))
  }

  /** `s` became `s'` by lines that recovery appended to the log of `dir`. */
  ghost predicate Appended(s: DiskState, s': DiskState, dir: Dir, n: nat) {
    && s'.runs.Keys == s.runs.Keys
    && (dir in s.runs ==> s'.runs[dir].events == s.runs[dir].events + Closings(n))
    && (forall d | d in s.runs && d != dir :: s'.runs[d] == s.runs[d])
  }

  lemma OneAttempt(s: DiskState, s': DiskState, root: Dir, byTime: seq<Dir>, dir: Dir, r: Report)
    requires r.status.Running? && Recovering(s, dir, r) && AttemptedAgain(s, s', root, byTime, dir, r)
    ensures Recovering(s', dir, r) && Appended(s, s', dir, 1)
  {
    var k: nat :| k < 4 && s' == Steps(s, dir, AbandonReport(r))[k];
    RecoveryMayCrash(s, root, byTime, dir, r, k);
    assert Closings(1) == [LogRecord(None, RunAbandoned)];
    assert s'.runs.Keys == s.runs.Keys;
  }

  /** After any number of attempts, crashed or not, the run is still the selected one, its
      summary is the original or the abandoned report, never anything between; every attempt
      has added one line to the log and nothing else has changed in it, nor in any other run. */
  lemma {:induction false} CrashedRecoveries(chain: seq<DiskState>, root: Dir, byTime: seq<Dir>, dir: Dir, r: Report)
    requires r.status.Running? && Attempts(chain, root, byTime, dir, r) && Recovering(chain[0], dir, r)
    ensures Recovering(chain[|chain| - 1], dir, r)
    ensures Appended(chain[0], chain[|chain| - 1], dir, |chain| - 1)
  {
    hide Recovering, AttemptedAgain;
    var n := |chain|;
    if n == 1 {
      assert forall log: seq<LogRecord> :: log + Closings(0) == log;
    } else {
      CrashedRecoveries(chain[..n - 1], root, byTime, dir, r);
      OneAttempt(chain[n - 2], chain[n - 1], root, byTime, dir, r);
      assert Closings(n - 1) == Closings(n - 2) + Closings(1);
    }
  }

  lemma AbandonTwice(v: View)
    ensures Apply(Apply(v, RunAbandoned), RunAbandoned) == Apply(v, RunAbandoned)
  {
    var w := Apply(v, RunAbandoned);
    assert Apply(w, RunAbandoned).stages == w.stages;
    assert Apply(w, RunAbandoned).variants == w.variants;
  }

  /** The closing lines that crashed attempts left behind do not change what the log tells. */
  lemma {:induction false} ClosingsReplayAsOne(planned: seq<VariantView>, log: seq<LogRecord>, n: nat)
    requires n > 0
    ensures Replay(planned, log + Closings(n)) == Apply(Replay(planned, log), RunAbandoned)
  {
    var line := LogRecord(None, RunAbandoned);
    assert log + Closings(n) == (log + Closings(n - 1)) + [line];
    ReplayStep(planned, log + Closings(n - 1), line);
    if n == 1 {
      assert log + Closings(0) == log;
    } else {
      ClosingsReplayAsOne(planned, log, n - 1);
      AbandonTwice(Replay(planned, log));
    }
  }

  /** A second call does nothing. */
  method RecoverTwice(disk: Disk, root: Dir, byTime: seq<Dir>, byTime': seq<Dir>)
    returns (first: Recovery, second: Recovery)
    modifies disk
    ensures first.Recovered? ==> second.Nothing? && |disk.history| == |old(disk.history)| + 4
  {
    first := AbandonStaleRun(disk, root, byTime);
    if first.Recovered? {
      ghost var dir := Selected(old(disk.State()), byTime).value;
      PointerSelects(disk.State(), dir, byTime');
    }
    second := AbandonStaleRun(disk, root, byTime');
  }

  // ---------------------------------------------------------------- recovery after a crashed session

  lemma AbandonedViews(r: Report)
    ensures Project(AbandonReport(r)) == Apply(Project(r), RunAbandoned)
  {
    var v := Apply(Project(r), RunAbandoned);
    assert StageViews(AbandonStages(r.stages)) == v.stages;
    assert VariantViews(AbandonVariants(r.variants)) == v.variants;
  }

  /** The abandoned report is the replay of the closed log, or of the log without the one
      event that the crashed session had not yet summarized. */
  ghost predicate ClosedBehind(planned: seq<VariantView>, log: seq<LogRecord>, r: Report, n: nat) {
    || Project(AbandonReport(r)) == Replay(planned, log + Closings(n))
    || (log != [] && Project(AbandonReport(r)) == Replay(planned, log[..|log| - 1] + Closings(n)))
  }

  /** Closing lines appended to a crash-consistent log tell of the abandoned report. */
  lemma ClosedLog(planned: seq<VariantView>, f: RunFiles, r: Report, n: nat)
    requires n > 0 && f.summary == Some(r) && (InStep(planned, f) || OneAhead(planned, f))
    ensures ClosedBehind(planned, f.events, r, n)
  {
    hide Apply, Project, Replay, AbandonReport;
    AbandonedViews(r);
    ClosingsReplayAsOne(planned, f.events, n);
    if f.events != [] { ClosingsReplayAsOne(planned, f.events[..|f.events| - 1], n); }
  }

  /** From a crash-consistent state whose latest.json names the run, recovery selects that
      run; the report it writes is the replay of the log, closed by `run_abandoned`. */
  lemma CrashThenRecover(s: DiskState, dir: Dir, planned: seq<VariantView>, root: Dir, byTime: seq<Dir>)
    requires CrashConsistent(s, dir, planned) && root <= dir && PointsTo(s, dir)
    ensures HasSummary(s.runs, dir) && Selected(s, byTime) == Some(dir)
    ensures Stale(s, root, byTime) <==> s.runs[dir].summary.value.status.Running?
    ensures Recovering(s, dir, s.runs[dir].summary.value)
    ensures ClosedBehind(planned, s.runs[dir].events, s.runs[dir].summary.value, 1)
  {
    PointerSelects(s, dir, byTime);
    ClosedLog(planned, s.runs[dir], s.runs[dir].summary.value, 1);
  }

  /** The same, after any number of recoveries that died: once an attempt has left nothing
      to do, the summary is the abandoned report, and it is the replay of the log with all
      the closing lines the attempts have left in it. */
  lemma CrashesThenRecovered(
    chain: seq<DiskState>, dir: Dir, planned: seq<VariantView>, root: Dir, byTime: seq<Dir>, r: Report)
    requires Attempts(chain, root, byTime, dir, r) && r.status.Running? && root <= dir
    requires CrashConsistent(chain[0], dir, planned) && PointsTo(chain[0], dir)
    requires chain[0].runs[dir].summary == Some(r)
    requires !Stale(chain[|chain| - 1], root, byTime)
    ensures var last, log := chain[|chain| - 1], chain[0].runs[dir].events;
      && dir in last.runs && last.runs[dir].summary == Some(AbandonReport(r))
      && last.runs[dir].events == log + Closings(|chain| - 1)
      && ClosedBehind(planned, log, r, |chain| - 1)
  {
    CrashedRecoveries(chain, root, byTime, dir, r);
    RecoveryConverges(chain[|chain| - 1], root, byTime, dir, r);
    ClosedLog(planned, chain[0].runs[dir], r, |chain| - 1);
  }

  /** State `j` of a session, at or after its first write of latest.json. */
  ghost predicate CrashPoint(run: Session, j: nat)
    reads run, run.disk
  {
    run.Valid() && j < |run.disk.history| && exists i: nat :: i <= j && PointsTo(run.disk.history[i], run.dir)
  }

  lemma CrashPointSelected(run: Session, j: nat)
    requires CrashPoint(run, j)
    ensures PointsTo(run.disk.history[j], run.dir) && CrashConsistent(run.disk.history[j], run.dir, run.planned)
  {
    var i: nat :| i <= j && PointsTo(run.disk.history[i], run.dir);
  }

  /** Whatever a session has done, and wherever it died after it first wrote latest.json:
      however often recovery dies as well, once nothing is left to do the run's summary is
      the abandoned report, and tells what the log tells. */
  lemma SessionCrashRecovered(run: Session, j: nat, chain: seq<DiskState>, root: Dir, byTime: seq<Dir>, r: Report)
    requires CrashPoint(run, j) && root <= run.dir && chain != [] && chain[0] == run.disk.history[j]
    requires run.dir in chain[0].runs && chain[0].runs[run.dir].summary == Some(r) && r.status.Running?
    requires Attempts(chain, root, byTime, run.dir, r) && !Stale(chain[|chain| - 1], root, byTime)
    ensures var last, log := chain[|chain| - 1], chain[0].runs[run.dir].events;
      && run.dir in last.runs && last.runs[run.dir].summary == Some(AbandonReport(r))
      && last.runs[run.dir].events == log + Closings(|chain| - 1)
      && ClosedBehind(run.planned, log, r, |chain| - 1)
  {
    CrashPointSelected(run, j);
    CrashesThenRecovered(chain, run.dir, run.planned, root, byTime, r);
  }

  /** Recovery of a disk in the state that a session's death at point `j` left it in. */
  method RecoverSession(ghost run: Session, ghost j: nat, disk: Disk, root: Dir, byTime: seq<Dir>)
    returns (r: Recovery)
    requires CrashPoint(run, j) && root <= run.dir && disk != run.disk && disk.State() == run.disk.history[j]
    modifies disk
    ensures HasSummary(old(disk.runs), run.dir)
    ensures var was := old(disk.runs)[run.dir];
      && (r.Recovered? <==> was.summary.value.status.Running?)
      && (!r.Recovered? ==> r.Nothing? && disk.State() == old(disk.State()))
      && (r.Recovered? ==>
            && r.report == AbandonReport(was.summary.value)
            && ClosedBehind(run.planned, was.events, was.summary.value, 1)
            && run.dir in disk.runs && disk.runs - {run.dir} == old(disk.runs) - {run.dir}
            && disk.runs[run.dir] == RunFiles(was.events + Closings(1), Some(r.report), Some(r.report))
            && disk.pointer == Some(LatestPointer(r.report, run.dir)))
  {
    CrashPointSelected(run, j);
    CrashThenRecover(disk.State(), run.dir, run.planned, root, byTime);
    hide Session.Valid;
    hide CrashConsistent;
    hide ClosedBehind;
    hide AbandonReport;
    ghost var s := disk.State();
    r := AbandonStaleRun(disk, root, byTime);
    assert Closings(1) == [LogRecord(None, RunAbandoned)];
    if r.Recovered? {
      assert disk.State() == Steps(s, run.dir, r.report)[3];
    }
  }

  // ---------------------------------------------------------------- how complete a recovery is

  /** As long as the report is still running, attempts have touched nothing but the log. */
  lemma {:induction false} OnlyLogged(chain: seq<DiskState>, root: Dir, byTime: seq<Dir>, dir: Dir, r: Report)
    requires r.status.Running? && Attempts(chain, root, byTime, dir, r) && Recovering(chain[0], dir, r)
    requires Stale(chain[|chain| - 1], root, byTime)
    ensures var last := chain[|chain| - 1];
      && last.pointer == chain[0].pointer && dir in last.runs && last.runs[dir].result == chain[0].runs[dir].result
  {
    var n := |chain|;
    if n > 1 {
      var s, s' := chain[n - 2], chain[n - 1];
      CrashedRecoveries(chain[..n - 1], root, byTime, dir, r);
      OnlyLogged(chain[..n - 1], root, byTime, dir, r);
      OneAttempt(s, s', root, byTime, dir, r);
      PointerSelects(s', dir, byTime);
      var k: nat :| k < 4 && s' == Steps(s, dir, AbandonReport(r))[k];
      assert k == 0;
    }
  }

  /** Summary, result and latest.json all show the report. */
  ghost predicate Agreed(s: DiskState, dir: Dir, r: Report) {
    && dir in s.runs && s.runs[dir].summary == Some(r) && s.runs[dir].result == Some(r)
    && s.pointer == Some(LatestPointer(r, dir))
  }

  /** An attempt that died after replacing the summary is never taken up again.  So
      latest.json shows the abandoned report exactly if the last attempt reached its
      fourth write, and result.txt exactly if it reached its third, unless they did so
      before recovery began; while latest.json shows a running run, all three files agree on
      the abandoned report exactly if the last attempt finished. */
  lemma RecoveryCompletes(chain: seq<DiskState>, root: Dir, byTime: seq<Dir>, dir: Dir, r: Report)
    requires r.status.Running? && Attempts(chain, root, byTime, dir, r) && Recovering(chain[0], dir, r)
    requires |chain| > 1 && !Stale(chain[|chain| - 1], root, byTime)
    ensures NeverStale(chain[|chain| - 1], root)
    ensures dir in chain[|chain| - 2].runs && dir in chain[|chain| - 1].runs
    ensures var a, prev, last := AbandonReport(r), chain[|chain| - 2], chain[|chain| - 1];
      && (last.pointer == Some(LatestPointer(a, dir)) <==>
            last == Steps(prev, dir, a)[3] || chain[0].pointer == Some(LatestPointer(a, dir)))
      && (last.runs[dir].result == Some(a) <==>
            last == Steps(prev, dir, a)[2] || last == Steps(prev, dir, a)[3] || chain[0].runs[dir].result == Some(a))
      && (chain[0].pointer.value.status.Running? ==>
            (Agreed(last, dir, a) <==> last == Steps(prev, dir, a)[3]))
  {
    var n := |chain|;
    var s, s', a := chain[n - 2], chain[n - 1], AbandonReport(r);
    CrashedRecoveries(chain[..n - 1], root, byTime, dir, r);
    OnlyLogged(chain[..n - 1], root, byTime, dir, r);
    OneAttempt(s, s', root, byTime, dir, r);
    PointerSelects(s, dir, byTime);
    PointerSelects(s', dir, byTime);
    var k: nat :| k < 4 && s' == Steps(s, dir, a)[k];
    forall byTime' ensures !Stale(s', root, byTime') { PointerSelects(s', dir, byTime'); }
    assert LatestPointer(a, dir).status.Abandoned?;
    assert s.pointer == chain[0].pointer && s.runs[dir].result == chain[0].runs[dir].result;
  }
}
