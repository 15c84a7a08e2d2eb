/** The durable build session: a run/variant/stage state machine that logs an event and
    then replaces the summary, so that at every crash point the log and the summary
    tell the same story up to the last event. */
module BuildSession {
  import opened Common
  import opened BuildArtifacts
  import opened BuildReport

  // ---------------------------------------------------------------- replay

  datatype VariantView = VariantView(line: string, profile: string, status: Status)
  datatype StageView = StageView(name: string, status: Status)

  /** The statuses a report carries. */
  datatype View = View(
    status: Status, phase: string, currentStage: Option<string>, stages: seq<StageView>, variants: seq<VariantView>)

  function StageViews(stages: seq<StageRecord>): seq<StageView> {
    seq(|stages|, i requires 0 <= i < |stages| => StageView(stages[i].name, stages[i].status))
  }

  function VariantViews(variants: seq<VariantRecord>): seq<VariantView> {
    seq(|variants|, i requires 0 <= i < |variants| =>
      VariantView(variants[i].line, variants[i].profile, variants[i].status))
  }

  function Project(r: Report): View {
    View(r.status, r.phase, r.currentStage, StageViews(r.stages), VariantViews(r.variants))
  }

  /** The variant a line and profile name: the first that matches. */
  function FindVariant(vs: seq<VariantView>, line: string, profile: string): (i: nat)
    ensures i <= |vs|
    ensures i < |vs| ==> vs[i].line == line && vs[i].profile == profile
  {
    if vs == [] then 0
    else if vs[0].line == line && vs[0].profile == profile then 0
    else 1 + FindVariant(vs[1..], line, profile)
  }

  function SetVariant(vs: seq<VariantView>, line: string, profile: string, s: Status): seq<VariantView> {
    var i := FindVariant(vs, line, profile);
    if i < |vs| then vs[i := vs[i].(status := s)] else vs
  }

  function SetLastStage(ss: seq<StageView>, s: Status): seq<StageView> {
    if ss == [] then [] else ss[|ss| - 1 := ss[|ss| - 1].(status := s)]
  }

  /** The status a variant ends with when the run finishes. */
  function ClosedBy(run: Status, variant: Status): Status {
    if run.Prepared? && variant.Pending? then Skipped
    else if (run.Failed? || run.Interrupted?) && variant.Running? then run
    else variant
  }

  function CloseVariants(vs: seq<VariantView>, run: Status): seq<VariantView> {
    seq(|vs|, i requires 0 <= i < |vs| => vs[i].(status := ClosedBy(run, vs[i].status)))
  }

  function Abandon(s: Status): Status { if s.Running? then Abandoned else s }

  function Apply(v: View, e: Event): View {
    match e
    case RunStarted => v.(status := Running, phase := "starting")
    case PhaseChanged(phase) => v.(phase := phase)
    case InputsPlanned(_) => v
    case StageStarted(stage, _, _) => v.(currentStage := Some(stage), stages := v.stages + [StageView(stage, Running)])
    case StageFinished(_, status, _) => v.(currentStage := None, stages := SetLastStage(v.stages, status))
    case VariantStarted(line, profile) => v.(variants := SetVariant(v.variants, line, profile, Running))
    case VariantFinished(line, profile, status) => v.(variants := SetVariant(v.variants, line, profile, status))
    case RunFinished(status) =>
      v.(status := status, phase := "complete", currentStage := None, variants := CloseVariants(v.variants, status))
    case RunAbandoned =>
      View(Abandoned, "complete", None,
           seq(|v.stages|, i requires 0 <= i < |v.stages| => v.stages[i].(status := Abandon(v.stages[i].status))),
           seq(|v.variants|, i requires 0 <= i < |v.variants| =>
             v.variants[i].(status := Abandon(v.variants[i].status))))
  }

  /** Replaying the log over the planned variants. */
  function Replay(planned: seq<VariantView>, events: seq<LogRecord>): View {
    if events == [] then View(Pending, "", None, [], planned)
    else Apply(Replay(planned, events[..|events| - 1]), events[|events| - 1].event)
  }

  lemma ReplayStep(planned: seq<VariantView>, events: seq<LogRecord>, r: LogRecord)
    ensures Replay(planned, events + [r]) == Apply(Replay(planned, events), r.event)
  {
    assert (events + [r])[..|events|] == events;
  }

  // ---------------------------------------------------------------- what a log tells

  /** Event `i` is the last one of its sort. */
  ghost predicate LastOf(events: seq<LogRecord>, i: nat, sort: Event -> bool) {
    i < |events| && sort(events[i].event) && forall j :: i < j < |events| ==> !sort(events[j].event)
  }

  lemma LastOfFront(events: seq<LogRecord>, i: nat, sort: Event -> bool)
    requires LastOf(events, i, sort) && i < |events| - 1
    ensures LastOf(events[..|events| - 1], i, sort) && events[..|events| - 1][i] == events[i]
    ensures !sort(events[|events| - 1].event)
  {
  }

  predicate EndsRun(e: Event) { e.RunFinished? || e.RunAbandoned? }

  predicate SetsStatus(e: Event) { e.RunStarted? || EndsRun(e) }

  predicate SetsPhase(e: Event) { e.PhaseChanged? || SetsStatus(e) }

  predicate SetsStage(e: Event) { e.StageStarted? || e.StageFinished? || EndsRun(e) }

  /** Events after which variant `(line, profile)` may have another status. */
  predicate SetsVariant(e: Event, line: string, profile: string) {
    || (e.VariantStarted? && e.line == line && e.profile == profile)
    || (e.VariantFinished? && e.line == line && e.profile == profile)
    || EndsRun(e)
  }

  function StatusGiven(e: Event): Status {
    match e
    case RunFinished(status) => status
    case RunAbandoned => Abandoned
    case _ => Running
  }

  function PhaseGiven(e: Event): string {
    match e
    case PhaseChanged(phase) => phase
    case RunStarted => "starting"
    case _ => "complete"
  }

  function StageGiven(e: Event): Option<string> {
    match e
    case StageStarted(stage, _, _) => Some(stage)
    case _ => None
  }

  /** The last run event gives the run's status. */
  lemma {:induction false} StatusTold(planned: seq<VariantView>, events: seq<LogRecord>, i: nat)
    requires LastOf(events, i, SetsStatus)
    ensures Replay(planned, events).status == StatusGiven(events[i].event)
  {
    if i < |events| - 1 {
      LastOfFront(events, i, SetsStatus);
      StatusTold(planned, events[..|events| - 1], i);
    }
  }

  /** The last event that enters a phase gives the phase. */
  lemma {:induction false} PhaseTold(planned: seq<VariantView>, events: seq<LogRecord>, i: nat)
    requires LastOf(events, i, SetsPhase)
    ensures Replay(planned, events).phase == PhaseGiven(events[i].event)
  {
    if i < |events| - 1 {
      LastOfFront(events, i, SetsPhase);
      PhaseTold(planned, events[..|events| - 1], i);
    }
  }

  /** A stage is current exactly if it has started and neither it nor the run has ended since. */
  lemma {:induction false} StageTold(planned: seq<VariantView>, events: seq<LogRecord>, i: nat)
    requires LastOf(events, i, SetsStage)
    ensures Replay(planned, events).currentStage == StageGiven(events[i].event)
  {
    if i < |events| - 1 {
      LastOfFront(events, i, SetsStage);
      StageTold(planned, events[..|events| - 1], i);
    }
  }

  function StageNames(events: seq<LogRecord>): seq<string> {
    if events == [] then []
    else
      var e := events[|events| - 1].event;
      StageNames(events[..|events| - 1]) + (if e.StageStarted? then [e.stage] else [])
  }

  /** There is one stage record for every stage that started, in the order of the starts. */
  lemma {:induction false} StagesTold(planned: seq<VariantView>, events: seq<LogRecord>)
    ensures var ss := Replay(planned, events).stages;
      |ss| == |StageNames(events)| && forall k :: 0 <= k < |ss| ==> ss[k].name == StageNames(events)[k]
  {
    if events != [] { StagesTold(planned, events[..|events| - 1]); }
  }

  /** The last stage that started has the status its end gave it; without an end, it is running. */
  lemma {:induction false} StageStatusTold(planned: seq<VariantView>, events: seq<LogRecord>, i: nat)
    requires LastOf(events, i, (e: Event) => e.StageStarted? || e.StageFinished? || e.RunAbandoned?)
    requires !events[i].event.RunAbandoned? && StageNames(events) != []
    ensures var ss := Replay(planned, events).stages;
      ss != [] && ss[|ss| - 1].status
      == match events[i].event
         case StageFinished(_, status, _) => status
         case _ => Running
  {
    StagesTold(planned, events);
    StagesTold(planned, events[..|events| - 1]);
    if i < |events| - 1 {
      LastOfFront(events, i, (e: Event) => e.StageStarted? || e.StageFinished? || e.RunAbandoned?);
      StageStatusTold(planned, events[..|events| - 1], i);
    }
  }

  /** The variants keep their places, lines and profiles. */
  lemma {:induction false} VariantsKept(planned: seq<VariantView>, events: seq<LogRecord>)
    ensures var vs := Replay(planned, events).variants;
      |vs| == |planned|
      && forall k :: 0 <= k < |vs| ==> vs[k].line == planned[k].line && vs[k].profile == planned[k].profile
  {
    if events != [] { VariantsKept(planned, events[..|events| - 1]); }
  }

  ghost predicate DistinctViews(vs: seq<VariantView>) {
    forall i, j :: 0 <= i < j < |vs| ==> vs[i].line != vs[j].line || vs[i].profile != vs[j].profile
  }

  lemma {:induction false} FindsView(vs: seq<VariantView>, k: nat)
    requires k < |vs| && DistinctViews(vs)
    ensures FindVariant(vs, vs[k].line, vs[k].profile) == k
  {
    if k > 0 { FindsView(vs[1..], k - 1); }
  }

  /** While the run goes on, the last event of a planned variant gives its status. */
  lemma {:induction false} VariantTold(planned: seq<VariantView>, events: seq<LogRecord>, k: nat, i: nat)
    requires DistinctViews(planned) && k < |planned|
    requires LastOf(events, i, e => SetsVariant(e, planned[k].line, planned[k].profile)) && !EndsRun(events[i].event)
    ensures |Replay(planned, events).variants| == |planned|
    ensures Replay(planned, events).variants[k].status
      == match events[i].event
         case VariantFinished(_, _, status) => status
         case _ => Running
  {
    var front := events[..|events| - 1];
    VariantsKept(planned, events);
    VariantsKept(planned, front);
    FindsView(Replay(planned, front).variants, k);
    if i < |events| - 1 {
      LastOfFront(events, i, e => SetsVariant(e, planned[k].line, planned[k].profile));
      VariantTold(planned, front, k, i);
    }
  }

  // ---------------------------------------------------------------- crash consistency

  ghost predicate Numbered(events: seq<LogRecord>) {
    forall i :: 0 <= i < |events| ==> events[i].sequence == Some(i + 1)
  }

  /** Log and summary agree exactly. */
  ghost predicate InStep(planned: seq<VariantView>, f: RunFiles) {
    f.summary.Some? && Replay(planned, f.events) == Project(f.summary.value)
  }

  /** So the durable summary shows what the log tells: the status, phase and current stage
      the last such events gave, a record for every stage started, and for every planned
      variant the status of its last event. */
  lemma SummaryShowsLog(planned: seq<VariantView>, f: RunFiles, i: nat)
    requires InStep(planned, f) && i < |f.events|
    ensures var r, e := f.summary.value, f.events[i].event;
      && (LastOf(f.events, i, SetsStatus) ==> r.status == StatusGiven(e))
      && (LastOf(f.events, i, SetsPhase) ==> r.phase == PhaseGiven(e))
      && (LastOf(f.events, i, SetsStage) ==> r.currentStage == StageGiven(e))
      && |r.stages| == |StageNames(f.events)|
      && (forall k :: 0 <= k < |r.stages| ==> r.stages[k].name == StageNames(f.events)[k])
  {
    var r := f.summary.value;
    if LastOf(f.events, i, SetsStatus) { StatusTold(planned, f.events, i); }
    if LastOf(f.events, i, SetsPhase) { PhaseTold(planned, f.events, i); }
    if LastOf(f.events, i, SetsStage) { StageTold(planned, f.events, i); }
    StagesTold(planned, f.events);
    assert |StageViews(r.stages)| == |r.stages|;
    forall k | 0 <= k < |r.stages| ensures r.stages[k].name == StageNames(f.events)[k] {
      assert StageViews(r.stages)[k].name == r.stages[k].name;
    }
  }

  lemma SummaryShowsVariant(planned: seq<VariantView>, f: RunFiles, k: nat, i: nat)
    requires InStep(planned, f) && DistinctViews(planned) && k < |planned|
    requires LastOf(f.events, i, e => SetsVariant(e, planned[k].line, planned[k].profile))
    requires !EndsRun(f.events[i].event)
    ensures |f.summary.value.variants| == |planned|
    ensures var v := f.summary.value.variants[k];
      && v.line == planned[k].line && v.profile == planned[k].profile
      && v.status == (match f.events[i].event case VariantFinished(_, _, status) => status case _ => Running)
  {
    VariantTold(planned, f.events, k, i);
    VariantsKept(planned, f.events);
    var vs := f.summary.value.variants;
    assert |VariantViews(vs)| == |vs| && VariantViews(vs)[k] == VariantView(vs[k].line, vs[k].profile, vs[k].status);
  }

  /** The log is one event ahead of the summary; before the first summary it is that event. */
  ghost predicate OneAhead(planned: seq<VariantView>, f: RunFiles) {
    f.events != [] && (f.summary.None? ==> |f.events| == 1)
    && (f.summary.Some? ==> Replay(planned, f.events[..|f.events| - 1]) == Project(f.summary.value))
  }

  ghost predicate CrashConsistent(s: DiskState, dir: Dir, planned: seq<VariantView>) {
    && (dir in s.runs ==>
          var f := s.runs[dir];
          Numbered(f.events) && ((f.events == [] && f.summary.None?) || InStep(planned, f) || OneAhead(planned, f)))
    && (PointsTo(s, dir) ==> HasSummary(s.runs, dir))
  }

  ghost predicate AlwaysConsistent(history: seq<DiskState>, dir: Dir, planned: seq<VariantView>) {
    forall i :: 0 <= i < |history| ==> CrashConsistent(history[i], dir, planned)
  }

  /** Once latest.json names the run, it goes on naming it. */
  ghost predicate StaysSelected(history: seq<DiskState>, dir: Dir) {
    forall i, j :: 0 <= i <= j < |history| && PointsTo(history[i], dir) ==> PointsTo(history[j], dir)
  }

  /** An appended event leaves the log exactly one event ahead of the summary. */
  lemma LogKeepsConsistent(s: DiskState, s': DiskState, dir: Dir, planned: seq<VariantView>, r: LogRecord)
    requires CrashConsistent(s, dir, planned) && dir in s.runs
    requires InStep(planned, s.runs[dir]) || (s.runs[dir].events == [] && s.runs[dir].summary.None?)
    requires r.sequence == Some(|s.runs[dir].events| + 1)
    requires s' == s.(runs := s.runs[dir := s.runs[dir].(events := s.runs[dir].events + [r])])
    ensures Numbered(s'.runs[dir].events) && OneAhead(planned, s'.runs[dir])
    ensures CrashConsistent(s', dir, planned)
  {
    var f := s'.runs[dir];
    assert f.events[..|f.events| - 1] == s.runs[dir].events;
  }

  // ---------------------------------------------------------------- the session

  /** How a stage's command can end. */
  datatype Exec = Exited(rc: int, cancelled: bool) | OsError(message: string, code: Option<int>)

  datatype Error = Interrupt(message: string) | StageFailure(message: string) | RunnerError(message: string)

  function StatusFor(e: Error): Status { if e.Interrupt? then Interrupted else Failed }

  function Message(e: Error): string { e.message }

  /** The status of a finished stage. */
  function StageStatus(x: Exec): Status {
    match x
    case OsError(_, _) => Failed
    case Exited(rc, cancelled) => if cancelled || rc < 0 then Interrupted else if rc == 0 then Passed else Failed
  }

  ghost predicate Unused(history: seq<DiskState>, dir: Dir) {
    forall i :: 0 <= i < |history| ==>
      dir !in history[i].runs && !PointsTo(history[i], dir)
  }

  lemma UnusedIsConsistent(history: seq<DiskState>, dir: Dir, planned: seq<VariantView>)
    requires Unused(history, dir)
    ensures AlwaysConsistent(history, dir, planned) && StaysSelected(history, dir)
  {
  }

  lemma VariantUpdated(vs: seq<VariantRecord>, i: nat, v: VariantRecord)
    requires i < |vs|
    ensures VariantViews(vs[i := v]) == VariantViews(vs)[i := VariantView(v.line, v.profile, v.status)]
  {
  }

  lemma StageAdded(ss: seq<StageRecord>, s: StageRecord)
    ensures StageViews(ss + [s]) == StageViews(ss) + [StageView(s.name, s.status)]
  {
  }

  lemma LastStageUpdated(ss: seq<StageRecord>, s: StageRecord)
    requires ss != [] && s.name == ss[|ss| - 1].name
    ensures StageViews(ss[|ss| - 1 := s]) == SetLastStage(StageViews(ss), s.status)
  {
  }

  function CloseRecords(vs: seq<VariantRecord>, run: Status): seq<VariantRecord> {
    seq(|vs|, i requires 0 <= i < |vs| => vs[i].(status := ClosedBy(run, vs[i].status)))
  }

  /** Finishing a prepared run skips what is pending; finishing a failed or interrupted one
      gives its status to what is running; nothing else changes. */
  lemma FinishLeaves(vs: seq<VariantRecord>, run: Status)
    ensures var after := CloseRecords(vs, run);
      && |after| == |vs|
      && (forall i :: 0 <= i < |vs| ==> after[i] == vs[i].(status := after[i].status))
      && (run.Prepared? ==> forall i :: 0 <= i < |vs| ==>
            after[i].status == if vs[i].status.Pending? then Skipped else vs[i].status)
      && (run.Failed? || run.Interrupted? ==> forall i :: 0 <= i < |vs| ==>
            after[i].status == if vs[i].status.Running? then run else vs[i].status)
      && (!run.Prepared? && !run.Failed? && !run.Interrupted? ==> after == vs)
  {
  }

  lemma RecordsClosed(vs: seq<VariantRecord>, run: Status)
    ensures VariantViews(CloseRecords(vs, run)) == CloseVariants(VariantViews(vs), run)
  {
  }

  /** The record of a stage whose command ended like this: it failed if the command could not
      be run or exited with a positive code, was interrupted if it was cancelled or killed,
      and passed otherwise. */
  ghost predicate EndedAs(s: StageRecord, x: Exec) {
    match x
    case OsError(message, code) => s.status.Failed? && s.returncode == code && s.error == Some(message)
    case Exited(rc, cancelled) =>
      && s.returncode == Some(rc) && s.error.None?
      && (s.status.Interrupted? <==> cancelled || rc < 0)
      && (s.status.Passed? <==> !cancelled && rc == 0)
      && (s.status.Failed? <==> !cancelled && rc > 0)
  }

  /** One finished record of the stage has been added, and nothing else changed. */
  ghost predicate StageRan(before: Report, after: Report, name: string, line: string, profile: string, x: Exec) {
    && after == before.(currentStage := None, stages := after.stages) && |after.stages| == |before.stages| + 1
    && before.stages == after.stages[..|before.stages|]
    && var s := after.stages[|before.stages|];
       s.name == name && s.line == line && s.profile == profile && EndedAs(s, x)
  }

  /** The record of a stage whose command has ended. */
  function Finished(entry: StageRecord, x: Exec): StageRecord {
    match x
    case OsError(message, code) => entry.(status := Failed, returncode := code, error := Some(message))
    case Exited(rc, _) => entry.(status := StageStatus(x), returncode := Some(rc))
  }

  lemma FinishedFits(entry: StageRecord, x: Exec)
    requires entry.error.None?
    ensures EndedAs(Finished(entry, x), x) && Finished(entry, x).status == StageStatus(x)
  {
  }

  /** The error a stage raises: one that passed raises none, unless the checkout has changed. */
  ghost predicate StageRaises(status: Status, name: string, e: Option<Error>) {
    match status
    case Passed => e.None? || e == Some(RunnerError("checkout changed"))
    case Failed => e == Some(StageFailure(name))
    case Interrupted => e == Some(Interrupt(name))
    case _ => false
  }

  class Session {
    const disk: Disk
    const dir: Dir
    ghost const planned: seq<VariantView>
    ghost const begun: seq<DiskState>  // the history when the run started
    /** Nothing outside the run goes wrong: commands pass, the checkout stays as it is, pinned
        inputs are at hand and no signal arrives. */
    const calm: bool
    var report: Report
    var sequence: nat

    /** The run starts: its log gets `run_started`, then its first summary is saved. */
    constructor (disk: Disk, dir: Dir, variants: seq<VariantRecord>, calm: bool)
      requires Unused(disk.history, dir) && disk.history != [] && disk.history[|disk.history| - 1] == disk.State()
      requires forall v :: v in variants ==> v.status.Pending?
      modifies disk
      ensures this.disk == disk && this.dir == dir && this.planned == VariantViews(variants) && this.calm == calm
      ensures Settled() && report == Report(Running, "starting", None, [], variants, None)
      ensures OnlyThisRun(old(disk.runs), old(disk.history))
    {
      this.disk, this.dir, this.planned, this.begun := disk, dir, VariantViews(variants), disk.history;
      this.calm := calm;
      report := Report(Running, "starting", None, [], variants, None);
      sequence := 0;
      new;
      UnusedIsConsistent(disk.history, dir, planned);
      disk.CreateRun(dir);
      LogEvent(RunStarted);
      assert StageViews([]) == [];
      Save();
    }

    ghost predicate Valid()
      reads `sequence, disk
    {
      && dir in disk.runs && sequence == |disk.runs[dir].events|
      && CrashConsistent(disk.State(), dir, planned)
      && AlwaysConsistent(disk.history, dir, planned) && StaysSelected(disk.history, dir)
      && begun <= disk.history && disk.history != [] && disk.history[|disk.history| - 1] == disk.State()
    }

    /** What the log tells. */
    ghost function Story(): View
      reads disk
    {
      if dir in disk.runs then Replay(planned, disk.runs[dir].events) else Replay(planned, [])
    }

    /** Log, summary and pointer on disk agree. */
    ghost predicate Durable()
      reads `sequence, disk
    {
      && Valid() && InStep(planned, disk.runs[dir])
      && disk.pointer == Some(LatestPointer(disk.runs[dir].summary.value, dir))
    }

    /** Between operations: so does the report in memory. */
    ghost predicate Settled()
      reads this, disk
    {
      Durable() && Project(report) == Story()
    }

    /** Other runs are untouched, and every durable state since is in the history. */
    ghost predicate OnlyThisRun(runs: map<Dir, RunFiles>, history: seq<DiskState>)
      reads disk
    {
      disk.runs - {dir} == runs - {dir} && history <= disk.history
    }

    /** `event` */
    method LogEvent(e: Event)
      requires Valid()
      requires InStep(planned, disk.runs[dir]) || (disk.runs[dir].events == [] && disk.runs[dir].summary.None?)
      modifies `sequence, disk
      ensures Valid() && Story() == Apply(old(Story()), e) && OnlyThisRun(old(disk.runs), old(disk.history))
    {
      sequence := sequence + 1;
      var r := LogRecord(Some(sequence), e);
      ghost var before := disk.State();
      disk.AppendEvent(dir, r);
      ReplayStep(planned, before.runs[dir].events, r);
      hide Replay;
      LogKeepsConsistent(before, disk.State(), dir, planned, r);
    }

    /** `save`: the summary first, then the pointer. */
    method Save()
      requires Valid() && Project(report) == Story()
      modifies disk
      ensures Settled() && Story() == old(Story()) && disk.runs[dir].summary == Some(report)
      ensures OnlyThisRun(old(disk.runs), old(disk.history))
    {
      hide Replay;
      hide Project;
      disk.WriteSummary(dir, report);
      assert InStep(planned, disk.runs[dir]);
      assert CrashConsistent(disk.State(), dir, planned);
      disk.WritePointer(LatestPointer(report, dir));
    }

    /** A save between operations, of a report whose statuses have not changed. */
    method SaveProgress()
      requires Settled()
      modifies disk
      ensures Settled() && Story() == old(Story()) && OnlyThisRun(old(disk.runs), old(disk.history))
    {
      Save();
    }

    /** Every change of status: log it, then save the report that already shows it. */
    method LogAndSave(e: Event)
      requires Durable() && Project(report) == Apply(Story(), e)
      modifies `sequence, disk
      ensures Settled() && OnlyThisRun(old(disk.runs), old(disk.history))
    {
      hide Replay;
      hide Apply;
      hide Project;
      hide CrashConsistent;
      hide AlwaysConsistent;
      LogEvent(e);
      Save();
    }

    /** `set_phase` */
    method SetPhase(phase: string)
      requires Settled()
      modifies this, disk
      ensures Settled() && report == old(report).(phase := phase)
      ensures OnlyThisRun(old(disk.runs), old(disk.history))
    {
      if report.phase == phase { return; }
      hide Durable;
      hide Replay;
      report := report.(phase := phase);
      LogAndSave(PhaseChanged(phase));
    }

    /** An event without effect on statuses. */
    method PlanInputs(count: nat)
      requires Settled()
      modifies this, disk
      ensures Settled() && report == old(report)
      ensures OnlyThisRun(old(disk.runs), old(disk.history))
    {
      hide Durable;
      hide Replay;
      LogAndSave(InputsPlanned(count));
    }

    function Index(line: string, profile: string): nat
      reads this
    {
      FindVariant(VariantViews(report.variants), line, profile)
    }

    /** Entering `variant` */
    method BeginVariant(line: string, profile: string) returns (i: nat)
      requires Settled() && Index(line, profile) < |report.variants|
      modifies this, disk
      ensures Settled() && i == old(Index(line, profile)) == Index(line, profile)
      ensures report == old(report).(variants := old(report).variants[i := old(report).variants[i].(status := Running)])
      ensures OnlyThisRun(old(disk.runs), old(disk.history))
    {
      hide Durable;
      hide Replay;
      i := Index(line, profile);
      var v := report.variants[i].(status := Running);
      VariantUpdated(report.variants, i, v);
      SameMatch(VariantViews(report.variants), i, Running, line, profile);
      report := report.(variants := report.variants[i := v]);
      LogAndSave(VariantStarted(line, profile));
    }

    /** Leaving `variant`, normally or by an exception. */
    method EndVariant(i: nat, line: string, profile: string, error: Option<Error>)
      requires Settled() && i == Index(line, profile) < |report.variants|
      modifies this, disk
      ensures Settled() && report == old(report).(variants := old(report).variants[i :=
        if error.None? then old(report).variants[i].(status := Built)
        else old(report).variants[i].(status := StatusFor(error.value), error := Some(error.value.message))])
      ensures error.Some? ==>
        report.variants[i].status == if error.value.Interrupt? then Interrupted else Failed
      ensures OnlyThisRun(old(disk.runs), old(disk.history))
    {
      hide Durable;
      hide Replay;
      var status, v := Built, report.variants[i];
      if error.Some? {
        status := StatusFor(error.value);
        v := v.(error := Some(Message(error.value)));
      }
      v := v.(status := status);
      VariantUpdated(report.variants, i, v);
      report := report.(variants := report.variants[i := v]);
      LogAndSave(VariantFinished(line, profile, status));
    }

    /** Artifacts are recorded in memory; the next save makes them durable. */
    method SetArtifacts(i: nat, artifacts: seq<Artifact>)
      requires Settled() && i < |report.variants|
      modifies this`report
      ensures Settled()
      ensures report == old(report).(variants := old(report).variants[i :=
        old(report).variants[i].(artifacts := artifacts)])
    {
      VariantUpdated(report.variants, i, report.variants[i].(artifacts := artifacts));
      assert VariantViews(report.variants)[i := VariantViews(report.variants)[i]] == VariantViews(report.variants);
      report := report.(variants := report.variants[i := report.variants[i].(artifacts := artifacts)]);
    }

    /** `check_source`: whether the checkout is still the one the run started with. */
    method CheckSource() returns (ok: bool)
      ensures calm ==> ok
    {
      ok :| calm ==> ok;
    }

    /** `_execute`: the command's end is not determined here; progress saves happen meanwhile. */
    method Execute() returns (x: Exec)
      requires Settled()
      modifies disk
      ensures Settled() && Story() == old(Story())
      ensures calm ==> x == Exited(0, false)
      ensures OnlyThisRun(old(disk.runs), old(disk.history))
    {
      var saves: nat :| true;
      for i := 0 to saves
        invariant Settled() && Story() == old(Story())
        invariant OnlyThisRun(old(disk.runs), old(disk.history))
      {
        SaveProgress();
      }
      x :| calm ==> x == Exited(0, false);
    }

    /** The first half of `stage`: a running record is added. */
    method OpenStage(entry: StageRecord)
      requires Settled() && entry.status.Running?
      modifies this, disk
      ensures Settled() && OnlyThisRun(old(disk.runs), old(disk.history))
      ensures report == old(report).(currentStage := Some(entry.name), stages := old(report).stages + [entry])
    {
      hide Durable;
      hide Replay;
      StageAdded(report.stages, entry);
      report := report.(stages := report.stages + [entry], currentStage := Some(entry.name));
      LogAndSave(StageStarted(entry.name, entry.line, entry.profile));
    }

    /** The second half: the last record gets its final status. */
    method CloseStage(entry: StageRecord)
      requires Settled() && report.stages != [] && report.stages[|report.stages| - 1].name == entry.name
      modifies this, disk
      ensures Settled() && OnlyThisRun(old(disk.runs), old(disk.history))
      ensures report == old(report).(currentStage := None,
        stages := old(report).stages[|old(report).stages| - 1 := entry])
    {
      hide Durable;
      hide Replay;
      LastStageUpdated(report.stages, entry);
      report := report.(stages := report.stages[|report.stages| - 1 := entry], currentStage := None);
      LogAndSave(StageFinished(entry.name, entry.status, entry.returncode));
    }

    /** The part of `stage` between the two looks at the checkout. */
    method RecordStage(name: string, line: string, profile: string) returns (status: Status, ghost x: Exec)
      requires Settled()
      modifies this, disk
      ensures Settled()
      ensures StageRan(old(report), report, name, line, profile, x) && (calm ==> x == Exited(0, false))
      ensures status == report.stages[|old(report).stages|].status
      ensures status.Passed? || status.Failed? || status.Interrupted?
      ensures calm ==> status.Passed?
      ensures OnlyThisRun(old(disk.runs), old(disk.history))
    {
      hide Settled;
      var entry := StageRecord(name, line, profile, Running, None, None);
      OpenStage(entry);
      var end := Execute();
      FinishedFits(entry, end);
      hide EndedAs;
      entry := Finished(entry, end);
      CloseStage(entry);
      return entry.status, end;
    }

    /** `stage`: one finished record is added, or none when the checkout had already changed.
        `x` is how the command ended. */
    method Stage(name: string, line: string, profile: string) returns (e: Option<Error>, ghost x: Option<Exec>)
      requires Settled()
      modifies this, disk
      ensures Settled()
      ensures x.Some? ==>
        && StageRan(old(report), report, name, line, profile, x.value)
        && StageRaises(report.stages[|old(report).stages|].status, name, e)
      ensures x.None? ==> report == old(report) && e == Some(RunnerError("checkout changed"))
      ensures calm ==> e.None?
      ensures OnlyThisRun(old(disk.runs), old(disk.history))
    {
      hide EndedAs;
      x := None;
      var same := CheckSource();
      if !same { return Some(RunnerError("checkout changed")), x; }
      hide Settled;
      var status;
      ghost var end;
      status, end := RecordStage(name, line, profile);
      x := Some(end);
      if status.Interrupted? { return Some(Interrupt(name)), x; }
      if status.Failed? { return Some(StageFailure(name)), x; }
      same := CheckSource();
      if !same { return Some(RunnerError("checkout changed")), x; }
      return None, x;
    }

    /** The caller may set the report's own status in memory before it finishes the run. */
    method SetStatus(status: Status)
      requires Settled()
      modifies this`report
      ensures report == old(report).(status := status) && ReadyToFinish()
    {
      report := report.(status := status);
    }

    ghost predicate ReadyToFinish()
      reads this, disk
    {
      Durable() && Project(report).(status := Story().status) == Story()
    }

    /** The result text of the report that has just been saved. */
    method PublishResult()
      requires Settled()
      modifies disk
      ensures Settled() && disk.runs[dir].result == Some(report)
      ensures OnlyThisRun(old(disk.runs), old(disk.history))
    {
      hide Replay;
      hide Project;
      disk.WriteResult(dir, report);
    }

    /** `finish` */
    method Finish(status: Status, error: Option<string>)
      requires ReadyToFinish()
      modifies this, disk
      ensures Settled()
      ensures report == old(report).(status := status, phase := "complete", currentStage := None,
        variants := CloseRecords(old(report).variants, status),
        error := if error.Some? then error else old(report).error)
      ensures disk.runs[dir].result == Some(report)
      ensures OnlyThisRun(old(disk.runs), old(disk.history))
    {
      hide Replay;
      RecordsClosed(report.variants, status);
      report := report.(status := status, phase := "complete", currentStage := None,
        variants := CloseRecords(report.variants, status),
        error := if error.Some? then error else report.error);
      LogAndSave(RunFinished(status));
      PublishResult();
    }
  }

  lemma {:induction false} SameMatch(vs: seq<VariantView>, i: nat, s: Status, line: string, profile: string)
    requires i == FindVariant(vs, line, profile) < |vs|
    ensures FindVariant(vs[i := vs[i].(status := s)], line, profile) == i
  {
    if i > 0 {
      assert vs[i := vs[i].(status := s)][1..] == vs[1..][i - 1 := vs[1..][i - 1].(status := s)];
      SameMatch(vs[1..], i - 1, s, line, profile);
    }
  }
}
