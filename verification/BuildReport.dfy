/** Durable build reports: an append-only event log, an atomically replaced summary, a
    pointer to the selected run, and what a reader selects. */
module BuildReport {
  import opened Common
  import opened BuildArtifacts

  /** A run's attempt directory, as path components; its summary lies directly inside. */
  type Dir = seq<string>

  datatype Status =
    | Pending | Running | Passed | Built | Prepared | Skipped | Failed | Interrupted | Abandoned

  datatype StageRecord = StageRecord(
    name: string, line: string, profile: string, status: Status, returncode: Option<int>, error: Option<string>)

  datatype VariantRecord = VariantRecord(
    line: string, profile: string, targets: seq<Target>, status: Status,
    artifacts: seq<Artifact>, error: Option<string>)

  datatype Report = Report(
    status: Status, phase: string, currentStage: Option<string>,
    stages: seq<StageRecord>, variants: seq<VariantRecord>, error: Option<string>)

  datatype Event =
    | RunStarted
    | PhaseChanged(phase: string)
    | InputsPlanned(count: nat)
    | StageStarted(stage: string, line: string, profile: string)
    | StageFinished(stage: string, status: Status, returncode: Option<int>)
    | VariantStarted(line: string, profile: string)
    | VariantFinished(line: string, profile: string, status: Status)
    | RunFinished(status: Status)
    | RunAbandoned

  /** One line of events.jsonl; the line that recovery writes carries no sequence number. */
  datatype LogRecord = LogRecord(sequence: Option<nat>, event: Event)

  datatype Pointer = Pointer(
    status: Status, phase: string, currentStage: Option<string>, counts: map<Status, nat>, summary: Dir)

  datatype RunFiles = RunFiles(events: seq<LogRecord>, summary: Option<Report>, result: Option<Report>)

  datatype DiskState = DiskState(runs: map<Dir, RunFiles>, pointer: Option<Pointer>)

  function CountStatus(variants: seq<VariantRecord>, s: Status): nat {
    if variants == [] then 0
    else CountStatus(variants[..|variants| - 1], s) + (if variants[|variants| - 1].status == s then 1 else 0)
  }

  /** `latest_pointer` */
  function LatestPointer(r: Report, dir: Dir): Pointer {
    Pointer(r.status, r.phase, r.currentStage,
            map s | s in (set v | v in r.variants :: v.status) :: CountStatus(r.variants, s), dir)
  }

  /** The variants that have a status. */
  ghost function WithStatus(variants: seq<VariantRecord>, s: Status): set<int> {
    set i | 0 <= i < |variants| && variants[i].status == s
  }

  lemma WithStatusStep(front: seq<VariantRecord>, last: VariantRecord, s: Status)
    ensures WithStatus(front + [last], s) == WithStatus(front, s) + (if last.status == s then {|front|} else {})
  {
  }

  lemma {:induction false} CountsVariants(variants: seq<VariantRecord>, s: Status)
    ensures CountStatus(variants, s) == |WithStatus(variants, s)|
  {
    if variants != [] {
      var front, last := variants[..|variants| - 1], variants[|variants| - 1];
      CountsVariants(front, s);
      WithStatusStep(front, last, s);
      assert variants == front + [last];
    }
  }

  /** latest.json counts, for each status that occurs, the variants that have it. */
  lemma PointerCounts(r: Report, dir: Dir, s: Status)
    ensures var p := LatestPointer(r, dir);
      && p.status == r.status && p.phase == r.phase && p.currentStage == r.currentStage && p.summary == dir
      && (s in p.counts <==> exists i :: 0 <= i < |r.variants| && r.variants[i].status == s)
      && (s in p.counts ==> p.counts[s] == |WithStatus(r.variants, s)|)
  {
    CountsVariants(r.variants, s);
  }

  /** The state directory.  `history` lists every durable state it went through, so each
      element is what a crash at that moment leaves behind. */
  class Disk {
    var runs: map<Dir, RunFiles>
    var pointer: Option<Pointer>
    ghost var history: seq<DiskState>

    constructor (runs: map<Dir, RunFiles>, pointer: Option<Pointer>)
      ensures State() == DiskState(runs, pointer) && history == [State()]
    {
      this.runs, this.pointer := runs, pointer;
      history := [DiskState(runs, pointer)];
    }

    ghost function State(): DiskState
      reads this
    {
      DiskState(runs, pointer)
    }

    method CreateRun(dir: Dir)
      requires dir !in runs
      modifies this
      ensures State() == old(State()).(runs := old(runs)[dir := RunFiles([], None, None)])
      ensures history == old(history) + [State()]
    {
      runs := runs[dir := RunFiles([], None, None)];
      history := history + [DiskState(runs, pointer)];
    }

    method AppendEvent(dir: Dir, r: LogRecord)
      requires dir in runs
      modifies this
      ensures State() == old(State()).(runs := old(runs)[dir := old(runs)[dir].(events := old(runs)[dir].events + [r])])
      ensures history == old(history) + [State()]
    {
      runs := runs[dir := runs[dir].(events := runs[dir].events + [r])];
      history := history + [DiskState(runs, pointer)];
    }

    /** `atomic_json` on summary.json */
    method WriteSummary(dir: Dir, report: Report)
      requires dir in runs
      modifies this
      ensures State() == old(State()).(runs := old(runs)[dir := old(runs)[dir].(summary := Some(report))])
      ensures history == old(history) + [State()]
    {
      runs := runs[dir := runs[dir].(summary := Some(report))];
      history := history + [DiskState(runs, pointer)];
    }

    /** `atomic_text` on result.txt */
    method WriteResult(dir: Dir, report: Report)
      requires dir in runs
      modifies this
      ensures State() == old(State()).(runs := old(runs)[dir := old(runs)[dir].(result := Some(report))])
      ensures history == old(history) + [State()]
    {
      runs := runs[dir := runs[dir].(result := Some(report))];
      history := history + [DiskState(runs, pointer)];
    }

    /** `atomic_json` on latest.json */
    method WritePointer(p: Pointer)
      modifies this
      ensures State() == old(State()).(pointer := Some(p))
      ensures history == old(history) + [State()]
    {
      pointer := Some(p);
      history := history + [DiskState(runs, pointer)];
    }
  }

  // ---------------------------------------------------------------- selection

  predicate HasSummary(runs: map<Dir, RunFiles>, dir: Dir) {
    dir in runs && runs[dir].summary.Some?
  }

  /** latest.json names the run in `dir`. */
  predicate PointsTo(s: DiskState, dir: Dir) {
    s.pointer.Some? && s.pointer.value.summary == dir
  }

  /** `_summary_candidates`: the run latest.json names, then the others by modification time. */
  function SummaryCandidates(s: DiskState, byTime: seq<Dir>): seq<Dir> {
    (if s.pointer.Some? then [s.pointer.value.summary] else []) + byTime
  }

  /** What `latest_report` selects: the first candidate that exists. */
  function Selected(s: DiskState, byTime: seq<Dir>): Option<Dir> {
    FirstPresent(s.runs, SummaryCandidates(s, byTime))
  }

  function FirstPresent(runs: map<Dir, RunFiles>, candidates: seq<Dir>): (r: Option<Dir>)
    ensures r.Some? ==> HasSummary(runs, r.value)
  {
    if candidates == [] then None
    else if HasSummary(runs, candidates[0]) then Some(candidates[0])
    else FirstPresent(runs, candidates[1..])
  }

  /** The run latest.json names is selected if it has a summary; otherwise the first in the
      order of time that has one; and none only if none has. */
  lemma SelectedIsFirst(s: DiskState, byTime: seq<Dir>)
    ensures forall d :: PointsTo(s, d) && HasSummary(s.runs, d) ==> Selected(s, byTime) == Some(d)
    ensures (forall d :: PointsTo(s, d) ==> !HasSummary(s.runs, d)) ==> FirstWithSummary(s, byTime, Selected(s, byTime))
  {
    FirstPresentIsFirst(s, byTime);
    if s.pointer.Some? {
      assert SummaryCandidates(s, byTime)[1..] == byTime;
    } else {
      assert SummaryCandidates(s, byTime) == byTime;
    }
  }

  ghost predicate FirstWithSummary(s: DiskState, byTime: seq<Dir>, r: Option<Dir>) {
    match r
    case None => forall d :: d in byTime ==> !HasSummary(s.runs, d)
    case Some(d) =>
      exists i :: 0 <= i < |byTime| && byTime[i] == d && HasSummary(s.runs, d)
        && forall j :: 0 <= j < i ==> !HasSummary(s.runs, byTime[j])
  }

  lemma {:induction false} FirstPresentIsFirst(s: DiskState, byTime: seq<Dir>)
    ensures FirstWithSummary(s, byTime, FirstPresent(s.runs, byTime))
  {
    if byTime != [] && !HasSummary(s.runs, byTime[0]) {
      FirstPresentIsFirst(s, byTime[1..]);
      var r := FirstPresent(s.runs, byTime[1..]);
      if r.Some? {
        var i :| 0 <= i < |byTime[1..]| && byTime[1..][i] == r.value
          && forall j :: 0 <= j < i ==> !HasSummary(s.runs, byTime[1..][j]);
        assert byTime[i + 1] == r.value;
        forall j | 0 <= j < i + 1 ensures !HasSummary(s.runs, byTime[j]) {
          if j > 0 { assert byTime[j] == byTime[1..][j - 1]; }
        }
      } else {
        forall d | d in byTime ensures !HasSummary(s.runs, d) {
          assert byTime == [byTime[0]] + byTime[1..];
        }
      }
    }
  }

  /** `latest_report` */
  method LatestReport(disk: Disk, byTime: seq<Dir>) returns (r: Option<(Report, Dir)>)
    ensures var sel := Selected(disk.State(), byTime);
      r == if sel.None? then None else Some((disk.runs[sel.value].summary.value, sel.value))
  {
    var candidates := SummaryCandidates(DiskState(disk.runs, disk.pointer), byTime);
    var seen: set<Dir> := {};
    for i := 0 to |candidates|
      invariant FirstPresent(disk.runs, candidates[i..]) == FirstPresent(disk.runs, candidates)
      invariant seen == {}
    {
      var d := candidates[i];
      assert candidates[i..][1..] == candidates[i + 1..];
      if d in seen || !HasSummary(disk.runs, d) { continue; }
      seen := seen + {d};
      return Some((disk.runs[d].summary.value, d));
    }
    return None;
  }
}
