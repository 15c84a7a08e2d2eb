/** The runner: preflight, input preparation and the builds of the planned variants, and
    what every handled end of a run leaves in its report. */
module BuildVariants {
  import opened Common
  import opened BuildArtifacts
  import opened BuildReport
  import opened BuildSession

  /** What a variant's build leaves to be inspected: its event records, unless they are
      unreadable or malformed, and its output tree. */
  datatype BuildOutput = BuildOutput(records: Option<seq<Record>>, tree: OutputTree)

  // ---------------------------------------------------------------- the plan

  function PlannedRow(line: string, profiles: seq<string>, targets: string -> seq<Target>): seq<VariantRecord> {
    seq(|profiles|, i requires 0 <= i < |profiles| =>
      VariantRecord(line, profiles[i], targets(profiles[i]), Pending, [], None))
  }

  /** `planned_variants`: every profile of every line, in order. */
  function PlannedVariants(lines: seq<string>, profiles: seq<string>, targets: string -> seq<Target>)
    : seq<VariantRecord>
  {
    if lines == [] then []
    else PlannedVariants(lines[..|lines| - 1], profiles, targets) + PlannedRow(lines[|lines| - 1], profiles, targets)
  }

  ghost predicate DistinctStrings(s: seq<string>) {
    forall i, j :: 0 <= i < j < |s| ==> s[i] != s[j]
  }

  ghost predicate DistinctVariants(vs: seq<VariantRecord>) {
    forall i, j :: 0 <= i < j < |vs| ==> vs[i].line != vs[j].line || vs[i].profile != vs[j].profile
  }

  lemma {:induction false} PlanLines(lines: seq<string>, profiles: seq<string>, targets: string -> seq<Target>)
    ensures forall v :: v in PlannedVariants(lines, profiles, targets) ==> v.line in lines && v.status.Pending?
  {
    if lines != [] {
      PlanLines(lines[..|lines| - 1], profiles, targets);
      assert lines == lines[..|lines| - 1] + [lines[|lines| - 1]];
    }
  }

  lemma {:induction false} PlanIsDistinct(lines: seq<string>, profiles: seq<string>, targets: string -> seq<Target>)
    requires DistinctStrings(lines) && DistinctStrings(profiles)
    ensures DistinctVariants(PlannedVariants(lines, profiles, targets))
  {
    if lines != [] {
      var front, last := lines[..|lines| - 1], lines[|lines| - 1];
      PlanIsDistinct(front, profiles, targets);
      PlanLines(front, profiles, targets);
      var a, b := PlannedVariants(front, profiles, targets), PlannedRow(last, profiles, targets);
      var plan: seq<VariantRecord> := a + b;
      forall i: nat, j: nat | 0 <= i < j < |plan|
        ensures plan[i].line != plan[j].line || plan[i].profile != plan[j].profile
      {
        if i < |a| <= j { assert a[i] in a; }
      }
    }
  }

  function Offset(lines: seq<string>, profiles: seq<string>, targets: string -> seq<Target>, l: nat): nat
    requires l <= |lines|
  {
    |PlannedVariants(lines[..l], profiles, targets)|
  }

  lemma OffsetEnds(lines: seq<string>, profiles: seq<string>, targets: string -> seq<Target>)
    ensures Offset(lines, profiles, targets, 0) == 0
    ensures Offset(lines, profiles, targets, |lines|) == |PlannedVariants(lines, profiles, targets)|
  {
    assert lines[..|lines|] == lines;
  }

  /** Where the variant of line `l` and profile `p` stands in the plan. */
  lemma {:induction false} PlanAt(
    lines: seq<string>, profiles: seq<string>, targets: string -> seq<Target>, l: nat, p: nat)
    requires l < |lines| && p < |profiles|
    ensures Offset(lines, profiles, targets, l + 1) == Offset(lines, profiles, targets, l) + |profiles|
    ensures Offset(lines, profiles, targets, l + 1) <= |PlannedVariants(lines, profiles, targets)|
    ensures PlannedVariants(lines, profiles, targets)[Offset(lines, profiles, targets, l) + p]
      == VariantRecord(lines[l], profiles[p], targets(profiles[p]), Pending, [], None)
  {
    assert lines[..l + 1][..l] == lines[..l];
    PlanPrefix(lines, profiles, targets, l + 1);
    var plan, upto := PlannedVariants(lines, profiles, targets), PlannedVariants(lines[..l + 1], profiles, targets);
    assert plan[Offset(lines, profiles, targets, l) + p] == upto[Offset(lines, profiles, targets, l) + p];
  }

  lemma {:induction false} PlanPrefix(lines: seq<string>, profiles: seq<string>, targets: string -> seq<Target>, l: nat)
    requires l <= |lines|
    ensures PlannedVariants(lines[..l], profiles, targets) <= PlannedVariants(lines, profiles, targets)
  {
    if l == |lines| {
      assert lines[..l] == lines;
    } else {
      var front := lines[..|lines| - 1];
      PlanPrefix(front, profiles, targets, l);
      assert front[..l] == lines[..l];
    }
  }

  // ---------------------------------------------------------------- how far a run has come

  /** Non-empty, present, as large as on disk, and covering every target of the variant. */
  ghost predicate GoodArtifacts(artifacts: seq<Artifact>, targets: seq<Target>, tree: OutputTree) {
    && artifacts != []
    && (forall a :: a in artifacts ==> a.present && a.path in tree.sizes && a.size == Some(tree.sizes[a.path]))
    && (forall t :: t in targets ==> Covered(artifacts, t))
  }

  /** Every planned build leaves what it must. */
  ghost predicate AllGood(plan: seq<VariantRecord>, world: (string, string) -> BuildOutput) {
    forall i :: 0 <= i < |plan| ==> GoodOutput(world(plan[i].line, plan[i].profile), plan[i].targets)
  }

  ghost predicate GoodOutput(output: BuildOutput, targets: seq<Target>) {
    output.records.Some? && GoodBuild(output.records.value, output.tree, targets)
  }

  ghost predicate BuiltWell(v: VariantRecord, world: (string, string) -> BuildOutput) {
    && v.status.Built? && GoodOutput(world(v.line, v.profile), v.targets)
    && GoodArtifacts(v.artifacts, v.targets, world(v.line, v.profile).tree)
  }

  ghost predicate SameVariant(v: VariantRecord, planned: VariantRecord) {
    v.line == planned.line && v.profile == planned.profile && v.targets == planned.targets
  }

  /** The first `k` planned variants are built, and `rest` says what the others are. */
  ghost predicate BuiltPrefix(
    vs: seq<VariantRecord>, plan: seq<VariantRecord>, world: (string, string) -> BuildOutput, k: nat)
  {
    && |vs| == |plan| && k <= |vs|
    && (forall i :: 0 <= i < |vs| ==> SameVariant(vs[i], plan[i]))
    && (forall i :: 0 <= i < k ==> BuiltWell(vs[i], world))
  }

  ghost predicate PendingFrom(vs: seq<VariantRecord>, k: nat) {
    forall i :: k <= i < |vs| ==> vs[i].status.Pending?
  }

  /** Stopped in variant `k`, which ended in status `s`. */
  ghost predicate StoppedIn(
    vs: seq<VariantRecord>, plan: seq<VariantRecord>, world: (string, string) -> BuildOutput, k: nat, s: Status)
  {
    BuiltPrefix(vs, plan, world, k) && k < |vs| && vs[k].status == s && PendingFrom(vs, k + 1)
  }

  /** Stopped between two variants, or in variant `k`. */
  ghost predicate StoppedAt(
    vs: seq<VariantRecord>, plan: seq<VariantRecord>, world: (string, string) -> BuildOutput, k: nat, s: Status)
  {
    (BuiltPrefix(vs, plan, world, k) && PendingFrom(vs, k)) || StoppedIn(vs, plan, world, k, s)
  }

  /** What a handled end of a run leaves. */
  ghost predicate FinalShape(r: Report, plan: seq<VariantRecord>, world: (string, string) -> BuildOutput) {
    match r.status
    case Built => BuiltPrefix(r.variants, plan, world, |plan|)
    case Prepared => BuiltPrefix(r.variants, plan, world, 0) && forall v :: v in r.variants ==> v.status.Skipped?
    case Failed => exists k: nat :: StoppedAt(r.variants, plan, world, k, Failed)
    case Interrupted => exists k: nat :: StoppedAt(r.variants, plan, world, k, Interrupted)
    case _ => false
  }

  lemma {:induction false} FindIsIndex(vs: seq<VariantRecord>, k: nat)
    requires k < |vs| && DistinctVariants(vs)
    ensures FindVariant(VariantViews(vs), vs[k].line, vs[k].profile) == k
  {
    var views := VariantViews(vs);
    assert views[1..] == VariantViews(vs[1..]);
    if k > 0 { FindIsIndex(vs[1..], k - 1); }
  }

  lemma SamePlanDistinct(vs: seq<VariantRecord>, plan: seq<VariantRecord>)
    requires DistinctVariants(plan) && |vs| == |plan| && forall i :: 0 <= i < |vs| ==> SameVariant(vs[i], plan[i])
    ensures DistinctVariants(vs)
  {
  }

  /** The final status is put on a run whose variants stopped in that shape. */
  lemma FinishKeepsShape(
    vs: seq<VariantRecord>, plan: seq<VariantRecord>, world: (string, string) -> BuildOutput, k: nat, s: Status)
    requires (s.Failed? || s.Interrupted?) && StoppedAt(vs, plan, world, k, s)
    ensures CloseRecords(vs, s) == vs
  {
    forall i | 0 <= i < |vs| ensures CloseRecords(vs, s)[i] == vs[i] {}
  }

  lemma NoneRunning(r: Report, plan: seq<VariantRecord>, world: (string, string) -> BuildOutput)
    requires FinalShape(r, plan, world)
    ensures forall i :: 0 <= i < |r.variants| ==> !r.variants[i].status.Running?
  {
    if r.status.Failed? || r.status.Interrupted? {
      var k: nat :| StoppedAt(r.variants, plan, world, k, r.status);
    }
  }

  /** The next planned variant is the one its line and profile name. */
  lemma NextVariant(vs: seq<VariantRecord>, plan: seq<VariantRecord>, world: (string, string) -> BuildOutput, k: nat)
    requires BuiltPrefix(vs, plan, world, k) && k < |plan| && DistinctVariants(plan)
    ensures |vs| == |plan| && SameVariant(vs[k], plan[k])
    ensures FindVariant(VariantViews(vs), plan[k].line, plan[k].profile) == k
  {
    SamePlanDistinct(vs, plan);
    FindIsIndex(vs, k);
  }

  lemma NextIsFound(
    vs: seq<VariantRecord>, v: VariantRecord, plan: seq<VariantRecord>, world: (string, string) -> BuildOutput, k: nat)
    requires BuiltPrefix(vs, plan, world, k) && k < |plan| && DistinctVariants(plan)
    requires |vs| == |plan| && SameVariant(v, plan[k])
    ensures FindVariant(VariantViews(vs[k := v]), plan[k].line, plan[k].profile) == k
  {
    SamePlanDistinct(vs[k := v], plan);
    FindIsIndex(vs[k := v], k);
  }

  lemma PendingIsStopped(
    vs: seq<VariantRecord>, plan: seq<VariantRecord>, world: (string, string) -> BuildOutput, k: nat, s: Status)
    requires BuiltPrefix(vs, plan, world, k) && PendingFrom(vs, k)
    ensures StoppedAt(vs, plan, world, k, s)
  {
  }

  /** However variant `k` ends, the variants are in the shape of a run that came that far. */
  lemma VariantEnds(
    vs: seq<VariantRecord>, v: VariantRecord, plan: seq<VariantRecord>, world: (string, string) -> BuildOutput, k: nat)
    requires BuiltPrefix(vs, plan, world, k) && PendingFrom(vs, k)
    requires k < |plan| && |vs| == |plan| && SameVariant(v, plan[k])
    ensures BuiltWell(v, world) ==> BuiltPrefix(vs[k := v], plan, world, k + 1) && PendingFrom(vs[k := v], k + 1)
    ensures StoppedIn(vs[k := v], plan, world, k, v.status)
  {
  }

  // ---------------------------------------------------------------- the runner

  class Runner {
    const run: Session
    const lines: seq<string>
    const profiles: seq<string>
    const targets: string -> seq<Target>
    const fetch: bool
    const prepareOnly: bool
    const world: (string, string) -> BuildOutput

    constructor (
      disk: Disk, dir: Dir, lines: seq<string>, profiles: seq<string>, targets: string -> seq<Target>,
      fetch: bool, prepareOnly: bool, world: (string, string) -> BuildOutput, calm: bool)
      requires DistinctStrings(lines) && DistinctStrings(profiles)
      requires Unused(disk.history, dir) && disk.history != [] && disk.history[|disk.history| - 1] == disk.State()
      modifies disk
      ensures fresh(run) && run.disk == disk && run.dir == dir && run.calm == calm
      ensures this.lines == lines && this.profiles == profiles && this.targets == targets
      ensures this.prepareOnly == prepareOnly && this.world == world
      ensures run.planned == VariantViews(Plan()) && run.OnlyThisRun(old(disk.runs), old(disk.history))
      ensures Ready() && BuiltSoFar(0)
    {
      PlanLines(lines, profiles, targets);
      PlanIsDistinct(lines, profiles, targets);
      run := new Session(disk, dir, PlannedVariants(lines, profiles, targets), calm);
      this.lines, this.profiles, this.targets := lines, profiles, targets;
      this.fetch, this.prepareOnly, this.world := fetch, prepareOnly, world;
    }

    ghost function Plan(): seq<VariantRecord> { PlannedVariants(lines, profiles, targets) }

    lemma PlanIs()
      ensures Plan() == PlannedVariants(lines, profiles, targets)
    {
    }

    ghost predicate Ready()
      reads run, run.disk
    {
      run.Settled() && run.report.status.Running? && DistinctVariants(Plan())
    }

    /** The first `k` variants are built and all others are pending. */
    ghost predicate BuiltSoFar(k: nat)
      reads run
    {
      BuiltPrefix(run.report.variants, Plan(), world, k) && PendingFrom(run.report.variants, k)
    }

    /** SIGTERM raises an interrupt wherever it arrives between two calls. */
    method Signal() returns (e: Option<Error>)
      ensures e.Some? ==> e.value.Interrupt?
      ensures run.calm ==> e.None?
    {
      var delivered: bool :| run.calm ==> !delivered;
      e := if delivered then Some(Interrupt("runner interrupted by signal")) else None;
    }

    /** A stage that leaves the variants alone. */
    method RunStage(name: string, line: string, profile: string, ghost k: nat) returns (e: Option<Error>)
      requires Ready() && BuiltSoFar(k)
      modifies run, run.disk
      ensures run.calm ==> e.None?
      ensures run.OnlyThisRun(old(run.disk.runs), old(run.disk.history))
      ensures Ready() && BuiltSoFar(k)
    {
      hide BuiltPrefix;
      hide PendingFrom;
      hide PlannedVariants;
      hide DistinctVariants;
      hide Session.Settled;
      e := Signal();
      if e.Some? { return; }
      ghost var x;
      e, x := run.Stage(name, line, profile);
    }

    /** `preflight` */
    method Preflight() returns (e: Option<Error>)
      requires Ready() && BuiltSoFar(0) && lines != [] && profiles != []
      modifies run, run.disk
      ensures run.calm ==> e.None?
      ensures run.OnlyThisRun(old(run.disk.runs), old(run.disk.history))
      ensures Ready() && BuiltSoFar(0)
    {
      hide BuiltPrefix;
      hide PendingFrom;
      hide PlannedVariants;
      hide DistinctVariants;
      hide Session.Settled;
      run.SetPhase("preflight");
      e := RunStage("materialize", lines[0], profiles[0], 0);
      if e.Some? { return; }
      for i := 0 to |lines|
        invariant Ready() && BuiltSoFar(0)
        invariant run.OnlyThisRun(old(run.disk.runs), old(run.disk.history))
      {
        e := RunStage("doctor-" + lines[i], lines[i], profiles[0], 0);
        if e.Some? { return; }
        e := RunStage("tools-" + lines[i], lines[i], profiles[0], 0);
        if e.Some? { return; }
      }
      e := None;
    }

    /** `prepare_asset`, as far as the session sees it: a failed stage only moves on to the
        next mirror; any other error, or running out of mirrors, ends the preparation. */
    method PrepareAsset() returns (e: Option<Error>)
      requires Ready() && BuiltSoFar(0) && lines != [] && profiles != []
      modifies run, run.disk
      ensures run.calm ==> e.None?
      ensures run.OnlyThisRun(old(run.disk.runs), old(run.disk.history))
      ensures Ready() && BuiltSoFar(0)
    {
      hide BuiltPrefix;
      hide PendingFrom;
      hide PlannedVariants;
      hide DistinctVariants;
      hide Session.Settled;
      var found: bool, mirrors: nat :| run.calm ==> found;
      if !found {
        if !fetch { return Some(RunnerError("missing pinned input")); }
        var acquired := false;
        for m := 0 to mirrors
          invariant Ready() && BuiltSoFar(0)
          invariant run.OnlyThisRun(old(run.disk.runs), old(run.disk.history))
        {
          e := RunStage("acquire", lines[0], profiles[0], 0);
          if e.None? {
            acquired := *;
            if acquired { break; }
            run.SaveProgress();
            e := Signal();
            if e.Some? { return; }
          } else if !e.value.StageFailure? {
            return;
          }
        }
        if !acquired { return Some(RunnerError("cannot acquire pinned input")); }
      }
      var installed: bool :| run.calm ==> installed;
      if !installed { return Some(RunnerError("cannot install pinned input")); }
      e := Signal();
    }

    /** `prepare_inputs` */
    method PrepareInputs() returns (e: Option<Error>)
      requires Ready() && BuiltSoFar(0) && lines != [] && profiles != []
      modifies run, run.disk
      ensures run.calm ==> e.None?
      ensures run.OnlyThisRun(old(run.disk.runs), old(run.disk.history))
      ensures Ready() && BuiltSoFar(0)
    {
      hide BuiltPrefix;
      hide PendingFrom;
      hide PlannedVariants;
      hide DistinctVariants;
      hide Session.Settled;
      run.SetPhase("input preparation");
      e := RunStage("modules", lines[0], profiles[0], 0);
      if e.Some? { return; }
      var readable: bool, assets: nat, missing: bool :| run.calm ==> readable && !missing;
      if !readable { return Some(RunnerError("cannot read the declared inputs")); }
      run.PlanInputs(assets);
      if !fetch && missing { return Some(RunnerError("pinned inputs missing")); }
      for i := 0 to assets
        invariant Ready() && BuiltSoFar(0)
        invariant run.OnlyThisRun(old(run.disk.runs), old(run.disk.history))
      {
        e := PrepareAsset();
        if e.Some? { return; }
        if i + 1 == assets || (i + 1) % 10 == 0 { run.SaveProgress(); }
      }
      run.SaveProgress();
      return None;
    }

    /** The checks on what a passed build left. */
    method InspectBuild(i: nat, line: string, profile: string) returns (e: Option<Error>)
      requires run.Settled() && i < |run.report.variants|
      modifies run`report
      ensures run.Settled()
      ensures run.report == old(run.report).(variants := old(run.report).variants[i :=
        old(run.report).variants[i].(artifacts := run.report.variants[i].artifacts)])
      ensures e.None? <==> GoodOutput(world(line, profile), run.report.variants[i].targets)
      ensures e.None? ==>
        GoodArtifacts(run.report.variants[i].artifacts, run.report.variants[i].targets, world(line, profile).tree)
      ensures e.Some? ==> e.value.RunnerError?
    {
      var output := world(line, profile);
      if output.records.None? { return Some(RunnerError("malformed build events")); }
      var found := BuildEventArtifacts(output.records.value, output.tree);
      if found.Err? { return Some(RunnerError("malformed build events")); }
      var artifacts, targets := found.value, run.report.variants[i].targets;
      ChecksFindGoodBuilds(output.records.value, output.tree, artifacts, targets);
      SizesKnown(Records(output.records.value), output.tree, artifacts);
      hide GoodBuild;
      hide Describes;
      hide Consistent;
      run.SetArtifacts(i, artifacts);
      e := CheckArtifacts(artifacts, output.tree, targets);
    }

    /** The checks on the inventory. */
    method CheckArtifacts(artifacts: seq<Artifact>, tree: OutputTree, targets: seq<Target>) returns (e: Option<Error>)
      requires forall a :: a in artifacts ==> a.size.Some?
      ensures e.None? <==> PassesChecks(artifacts, tree, targets)
      ensures e.None? ==> GoodArtifacts(artifacts, targets, tree)
      ensures e.Some? ==> e.value.RunnerError?
    {
      hide Covered;
      hide IsWheelOf;
      if artifacts == [] { return Some(RunnerError("no release wheels")); }
      for j := 0 to |artifacts|
        invariant forall x :: 0 <= x < j ==> artifacts[x].present
      {
        if !artifacts[j].present {
          assert artifacts[j] in artifacts;
          return Some(RunnerError("release wheels are not materialized"));
        }
      }
      var mismatches := ArtifactSizeMismatches(artifacts, tree);
      if mismatches.Err? || mismatches.value != [] { return Some(RunnerError("release wheel sizes differ")); }
      var uncovered := MissingWheelTargets(artifacts, targets);
      if uncovered != [] {
        assert uncovered[0] in uncovered;
        return Some(RunnerError("no release wheels for some targets"));
      }
      forall t | t in targets ensures Covered(artifacts, t) && exists a :: a in artifacts && IsWheelOf(a.path, t) {
        assert t !in uncovered;
      }
      return None;
    }

    /** The part of `build_variant` between the marks it leaves in the report. */
    method BuildAndInspect(i: nat, line: string, profile: string) returns (e: Option<Error>)
      requires run.Settled() && i < |run.report.variants|
      modifies run, run.disk
      ensures run.OnlyThisRun(old(run.disk.runs), old(run.disk.history))
      ensures run.Settled() && run.report.status == old(run.report.status)
      ensures |run.report.variants| == |old(run.report.variants)|
      ensures run.report.variants == old(run.report.variants)[i :=
        old(run.report.variants)[i].(artifacts := run.report.variants[i].artifacts)]
      ensures e.None? ==>
        GoodArtifacts(run.report.variants[i].artifacts, run.report.variants[i].targets, world(line, profile).tree)
      ensures e.None? ==> GoodOutput(world(line, profile), run.report.variants[i].targets)
      ensures run.calm && GoodOutput(world(line, profile), run.report.variants[i].targets) ==> e.None?
    {
      hide Session.Settled;
      hide GoodOutput;
      hide GoodArtifacts;
      ghost var x;
      e, x := run.Stage("build-" + line + "-" + profile, line, profile);
      if e.Some? { return; }
      e := InspectBuild(i, line, profile);
      if e.Some? { return; }
      e := Signal();
    }

    /** `build_variant` */
    method BuildVariant(line: string, profile: string, ghost k: nat) returns (e: Option<Error>)
      requires Ready() && BuiltSoFar(k) && k < |Plan()| && Plan()[k].line == line && Plan()[k].profile == profile
      modifies run, run.disk
      ensures run.OnlyThisRun(old(run.disk.runs), old(run.disk.history))
      ensures Ready()
      ensures e.None? ==> BuiltSoFar(k + 1)
      ensures e.Some? ==> StoppedIn(run.report.variants, Plan(), world, k, StatusFor(e.value))
      ensures e.Some? ==> run.report.variants[k].error == Some(Message(e.value))
      ensures run.calm && AllGood(Plan(), world) ==> e.None?
    {
      hide GoodOutput;
      hide Session.Settled;
      hide BuiltPrefix;
      hide PendingFrom;
      hide StoppedIn;
      hide GoodArtifacts;
      hide DistinctVariants;
      ghost var before := run.report.variants;
      NextVariant(before, Plan(), world, k);
      var i := run.BeginVariant(line, profile);
      e := BuildAndInspect(i, line, profile);
      ghost var v := run.report.variants[k];
      assert run.report.variants == before[k := v];
      NextIsFound(before, v, Plan(), world, k);
      run.EndVariant(i, line, profile, e);
      assert run.report.variants == before[k := run.report.variants[k]];
      VariantEnds(before, run.report.variants[k], Plan(), world, k);
    }

    /** `execute`: on success the report's own status is set, in memory only. */
    method Execute() returns (e: Option<Error>)
      requires Ready() && BuiltSoFar(0) && lines != [] && profiles != []
      modifies run, run.disk
      ensures run.calm && (prepareOnly || AllGood(Plan(), world)) ==> e.None?
      ensures run.OnlyThisRun(old(run.disk.runs), old(run.disk.history))
      ensures run.ReadyToFinish()
      ensures e.None? && prepareOnly ==> BuiltSoFar(0) && run.report.status.Prepared?
      ensures e.None? && !prepareOnly ==> BuiltSoFar(|Plan()|) && run.report.status.Built?
      ensures e.Some? ==> exists k: nat :: StoppedAt(run.report.variants, Plan(), world, k, StatusFor(e.value))
    {
      e := PrepareRun();
      if e.Some? { PendingIsStopped(run.report.variants, Plan(), world, 0, StatusFor(e.value)); return; }
      if prepareOnly {
        run.SetStatus(Prepared);
        return None;
      }
      e := BuildAll();
      if e.Some? { return; }
      run.SetStatus(Built);
      return None;
    }

    /** The planned variants, one after the other. */
    method BuildAll() returns (e: Option<Error>)
      requires Ready() && BuiltSoFar(0) && profiles != []
      modifies run, run.disk
      ensures run.calm && AllGood(Plan(), world) ==> e.None?
      ensures run.OnlyThisRun(old(run.disk.runs), old(run.disk.history))
      ensures Ready()
      ensures e.None? ==> BuiltSoFar(|Plan()|)
      ensures e.Some? ==> exists k: nat :: StoppedAt(run.report.variants, Plan(), world, k, StatusFor(e.value))
    {
      run.SetPhase("native builds");
      e := Signal();
      if e.Some? { PendingIsStopped(run.report.variants, Plan(), world, 0, StatusFor(e.value)); return; }
      hide *;
      OffsetEnds(lines, profiles, targets);
      PlanIs();
      for l := 0 to |lines|
        invariant Ready() && BuiltSoFar(Offset(lines, profiles, targets, l))
        invariant run.OnlyThisRun(old(run.disk.runs), old(run.disk.history))
      {
        e := BuildLine(l);
        if e.Some? { return; }
      }
      return None;
    }

    /** The planned variants of one line. */
    method BuildLine(l: nat) returns (e: Option<Error>)
      requires l < |lines| && profiles != []
      requires Ready() && BuiltSoFar(Offset(lines, profiles, targets, l))
      modifies run, run.disk
      ensures run.calm && AllGood(Plan(), world) ==> e.None?
      ensures run.OnlyThisRun(old(run.disk.runs), old(run.disk.history))
      ensures Ready()
      ensures e.None? ==> BuiltSoFar(Offset(lines, profiles, targets, l + 1))
      ensures e.Some? ==> exists k: nat :: StoppedAt(run.report.variants, Plan(), world, k, StatusFor(e.value))
    {
      hide BuiltPrefix;
      hide PendingFrom;
      hide StoppedIn;
      hide PlannedVariants;
      hide DistinctVariants;
      hide Session.Settled;
      hide Offset;
      PlanIs();
      PlanAt(lines, profiles, targets, l, 0);
      ghost var k := Offset(lines, profiles, targets, l);
      for p := 0 to |profiles|
        invariant Ready() && BuiltSoFar(k + p)
        invariant run.OnlyThisRun(old(run.disk.runs), old(run.disk.history))
      {
        PlanAt(lines, profiles, targets, l, p);
        e := Signal();
        if e.Some? {
          PendingIsStopped(run.report.variants, Plan(), world, k + p, StatusFor(e.value));
          return;
        }
        e := BuildVariant(lines[l], profiles[p], k + p);
        if e.Some? {
          assert StoppedAt(run.report.variants, Plan(), world, k + p, StatusFor(e.value));
          return;
        }
      }
      return None;
    }

    /** What comes before the first build: preflight, inputs and a last look at the sources. */
    method PrepareRun() returns (e: Option<Error>)
      requires Ready() && BuiltSoFar(0) && lines != [] && profiles != []
      modifies run, run.disk
      ensures run.calm ==> e.None?
      ensures run.OnlyThisRun(old(run.disk.runs), old(run.disk.history))
      ensures Ready() && BuiltSoFar(0)
    {
      hide BuiltPrefix;
      hide PendingFrom;
      hide PlannedVariants;
      hide DistinctVariants;
      hide Session.Settled;
      e := Preflight();
      if e.Some? { return; }
      e := PrepareInputs();
      if e.Some? { return; }
      var same := run.CheckSource();
      if !same { return Some(RunnerError("checkout changed")); }
      e := Signal();
    }

    /** The handled ends of `_run`, with its exit code. */
    method RunToEnd() returns (exitCode: int, ghost cause: Option<Error>)
      requires Ready() && BuiltSoFar(0) && lines != [] && profiles != []
      modifies run, run.disk
      ensures run.OnlyThisRun(old(run.disk.runs), old(run.disk.history))
      ensures run.Settled() && AlwaysConsistent(run.disk.history, run.dir, run.planned)
      ensures FinalShape(run.report, Plan(), world)
      ensures run.disk.runs[run.dir].result == Some(run.report)
      ensures run.report.currentStage.None? && run.report.phase == "complete"
      ensures forall i :: 0 <= i < |run.report.variants| ==> !run.report.variants[i].status.Running?
      ensures cause.Some? ==>
        && run.report.status == (if cause.value.Interrupt? then Interrupted else Failed)
        && run.report.error == Some(cause.value.message)
      ensures cause.None? <==> run.report.status.Built? || run.report.status.Prepared?
      ensures exitCode == (if run.report.status.Interrupted? then 130 else if run.report.status.Failed? then 1 else 0)
      ensures exitCode == 0 ==> run.report.status == (if prepareOnly then Prepared else Built)
      ensures run.calm && (prepareOnly || AllGood(Plan(), world)) ==> exitCode == 0
    {
      var e := Execute();
      cause := e;
      hide BuiltPrefix;
      hide PlannedVariants;
      hide StoppedAt;
      if e.Some? {
        ghost var k: nat :| StoppedAt(run.report.variants, Plan(), world, k, StatusFor(e.value));
        FinishKeepsShape(run.report.variants, Plan(), world, k, StatusFor(e.value));
        run.Finish(StatusFor(e.value), Some(Message(e.value)));
        exitCode := if e.value.Interrupt? then 130 else 1;
        assert StoppedAt(run.report.variants, Plan(), world, k, StatusFor(e.value));
      } else {
        run.Finish(run.report.status, None);
        exitCode := 0;
      }
      NoneRunning(run.report, Plan(), world);
    }
  }
}
