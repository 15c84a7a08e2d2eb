/** Merkle keys of committed plans: a round-based fixpoint over the plans'
    dependency relation, and what an equal key binds. */
module PlanKeys {
  import opened Common
  import opened Names
  import opened Digraph

  /** One dependency of a plan; an absent manifest is the empty string. */
  datatype Dep = Dep(name: string, target: string, key: string, manifest: string)

  /** One record of the hashed `inputs` list: a file, source, patch or wrapper of the
      plan's own, or a dependency. */
  datatype Input =
    | Own(kind: string, fields: seq<(string, string)>)
    | DepInput(name: string, target: string, key: string, packageKey: Option<string>,
               manifest: Option<string>, manifestSha: Option<string>)

  /** A committed plan.  `own` and `wrappers` are the records before and after its
      dependencies; `valid` says that schema and pinned digests check out. */
  datatype Plan = Plan(
    path: string, profile: string, line: string, package: string,
    deps: seq<Dep>, own: seq<Input>, wrappers: seq<Input>, valid: bool)

  /** What the tool computes with strings and bytes: the identifiers a dependency goes
      by, name normalisation, file digests, and SHA-256 of the canonical JSON. */
  datatype Env = Env(
    identifiers: Dep -> set<string>, normalize: string -> string,
    fileSha: string -> string, hash: seq<Input> -> string)

  datatype Package = Package(inputs: seq<Input>, merkle: string)

  datatype Outcome =
    | Snapshot(packages: map<string, Package>)
    | Ambiguous(path: string, dep: string)
    | Invalid(path: string)
    | Mismatch(path: string, dep: string)
    | Unresolved(paths: seq<string>)

  predicate StartsWith(s: string, prefix: string) { prefix <= s }

  function Prefix(p: Plan): string { p.profile + "/" + p.line + "/" }
  function PackageKey(p: Plan): string { Prefix(p) + p.package }

  predicate IsRepoPlanLabel(s: string) { StartsWith(s, "//plans:") }
  predicate IsActionLabel(s: string) { StartsWith(s, "action://") }

  // ---------------------------------------------------------------- matching

  /** `plan_index`: the keys of the index, in insertion order. */
  function IndexKeys(plans: seq<Plan>): seq<string> {
    if plans == [] then []
    else
      var front, k := IndexKeys(plans[..|plans| - 1]), PackageKey(plans[|plans| - 1]);
      if k in front then front else front + [k]
  }

  predicate Matches(env: Env, p: Plan, d: Dep, key: string) {
    && (d.manifest != "" ==> IsRepoPlanLabel(d.manifest) || IsActionLabel(d.manifest))
    && StartsWith(key, Prefix(p))
    && var rest := key[|Prefix(p)|..];
       rest in env.identifiers(d) || exists i :: i in env.identifiers(d) && env.normalize(rest) == env.normalize(i)
  }

  function Filter(env: Env, index: seq<string>, p: Plan, d: Dep): seq<string> {
    if index == [] then []
    else
      var k := index[|index| - 1];
      Filter(env, index[..|index| - 1], p, d) + (if Matches(env, p, d, k) then [k] else [])
  }

  function DependencyPlanKeys(env: Env, index: seq<string>, p: Plan, d: Dep): seq<string> {
    Sort(Filter(env, index, p, d), Itself)
  }

  lemma {:induction false} FilterCounts(env: Env, index: seq<string>, p: Plan, d: Dep, x: string)
    ensures multiset(Filter(env, index, p, d))[x] == if Matches(env, p, d, x) then multiset(index)[x] else 0
  {
    if index != [] {
      var front, k := index[..|index| - 1], index[|index| - 1];
      FilterCounts(env, front, p, d, x);
      assert index == front + [k];
    }
  }

  lemma MatchesFound(env: Env, index: seq<string>, p: Plan, d: Dep, x: string)
    ensures x in DependencyPlanKeys(env, index, p, d) <==> x in index && Matches(env, p, d, x)
  {
    var found := Filter(env, index, p, d);
    FilterCounts(env, index, p, d, x);
    SortIsSorted(found, Itself);
    assert x in multiset(Sort(found, Itself)) <==> x in multiset(found);
    assert x in index <==> x in multiset(index);
  }

  // ---------------------------------------------------------------- the specification

  ghost predicate DistinctKeys(plans: seq<Plan>) {
    forall i, j :: 0 <= i < j < |plans| ==> PackageKey(plans[i]) != PackageKey(plans[j])
  }

  ghost function Keys(plans: seq<Plan>): set<string> {
    set p | p in plans :: PackageKey(p)
  }

  ghost predicate LinksTo(env: Env, p: Plan, key: string) {
    exists d :: d in p.deps && Matches(env, p, d, key)
  }

  /** The committed plans that plan `p` depends on. */
  ghost function Links(env: Env, plans: seq<Plan>, p: Plan): set<string> {
    set k | k in Keys(plans) && LinksTo(env, p, k)
  }

  ghost function PlanOf(plans: seq<Plan>, key: string): Plan
    requires key in Keys(plans)
  {
    var p :| p in plans && PackageKey(p) == key; p
  }

  ghost function PlanGraph(env: Env, plans: seq<Plan>): Graph {
    map k | k in Keys(plans) :: Links(env, plans, PlanOf(plans, k))
  }

  function MatchOf(env: Env, index: seq<string>, p: Plan, d: Dep): Option<string> {
    var found := DependencyPlanKeys(env, index, p, d);
    if found == [] then None else Some(found[0])
  }

  /** The record a dependency contributes: a matched one enters under its computed key. */
  function InputFor(env: Env, index: seq<string>, p: Plan, computed: map<string, string>, d: Dep): Input {
    var m := MatchOf(env, index, p, d);
    DepInput(d.name, d.target, if m.Some? && m.value in computed then computed[m.value] else d.key, m,
             if d.manifest == "" then None
             else if IsRepoPlanLabel(d.manifest) then Some("plans/" + d.manifest[|"//plans:"|..])
             else Some(d.manifest),
             if IsRepoPlanLabel(d.manifest) then Some(env.fileSha(d.manifest)) else None)
  }

  function DepInputs(env: Env, index: seq<string>, p: Plan, computed: map<string, string>, deps: seq<Dep>): seq<Input> {
    if deps == [] then []
    else
      DepInputs(env, index, p, computed, deps[..|deps| - 1]) + [InputFor(env, index, p, computed, deps[|deps| - 1])]
  }

  function DepName(d: Dep): string { d.name }

  /** The list a plan's key hashes, given the keys of the plans it depends on. */
  function InputsOf(env: Env, index: seq<string>, p: Plan, computed: map<string, string>): seq<Input> {
    p.own + DepInputs(env, index, p, computed, Sort(p.deps, DepName)) + p.wrappers
  }

  /** A pinned key is an `action://` placeholder or the computed key itself. */
  predicate PinAgrees(env: Env, index: seq<string>, p: Plan, computed: map<string, string>, d: Dep) {
    var m := MatchOf(env, index, p, d);
    m.Some? && m.value in computed ==> StartsWith(d.key, "action://") || d.key == computed[m.value]
  }

  predicate Unambiguous(env: Env, index: seq<string>, p: Plan, d: Dep) {
    |DependencyPlanKeys(env, index, p, d)| <= 1
  }

  /** `p` raises no error when its dependencies have the keys in `computed`. */
  predicate Sound(env: Env, index: seq<string>, p: Plan, computed: map<string, string>) {
    && p.valid
    && forall d :: d in p.deps ==> Unambiguous(env, index, p, d) && PinAgrees(env, index, p, computed, d)
  }

  /** `m` gives each of its plans the hash of its own inputs and the keys `m` gives to
      the plans it depends on, all of which `m` covers. */
  ghost predicate MerkleOn(env: Env, plans: seq<Plan>, m: map<string, string>) {
    forall k :: k in m ==>
      && k in Keys(plans) && Links(env, plans, PlanOf(plans, k)) <= m.Keys
      && m[k] == env.hash(InputsOf(env, IndexKeys(plans), PlanOf(plans, k), m))
  }

  // ---------------------------------------------------------------- levels of the graph

  /** `k` and all it depends on resolve within `n` passes. */
  ghost predicate Resolves(g: Graph, k: string, n: nat)
    decreases n
  {
    k in g && n > 0 && forall d :: d in g[k] && d in g ==> Resolves(g, d, n - 1)
  }

  ghost predicate ChainFrom(g: Graph, k: string, links: nat) {
    exists p :: Walk(g, p) && p[0] == k && |p| == links + 1
  }

  lemma {:induction false} ResolvesLater(g: Graph, k: string, n: nat)
    requires Resolves(g, k, n)
    ensures Resolves(g, k, n + 1)
    decreases n
  {
    forall d | d in g[k] && d in g ensures Resolves(g, d, n) { ResolvesLater(g, d, n - 1); }
  }

  lemma {:induction false} ResolvedHasNoChain(g: Graph, k: string, n: nat, p: seq<string>)
    requires Resolves(g, k, n) && Walk(g, p) && p[0] == k
    ensures |p| <= n
    decreases n
  {
    if |p| > 1 {
      assert Edge(g, p[0], p[1]);
      assert Walk(g, p[1..]);
      ResolvedHasNoChain(g, p[1], n - 1, p[1..]);
    }
  }

  lemma {:induction false} UnresolvedHasChain(g: Graph, k: string, n: nat) returns (p: seq<string>)
    requires k in g && !Resolves(g, k, n)
    ensures Walk(g, p) && p[0] == k && |p| == n + 1
    decreases n
  {
    if n == 0 {
      p := [k];
    } else {
      var d :| d in g[k] && d in g && !Resolves(g, d, n - 1);
      var q := UnresolvedHasChain(g, d, n - 1);
      assert Edge(g, k, d);
      p := [k] + q;
    }
  }

  /** Resolving within `n` passes means that no chain of dependencies has `n` links. */
  lemma ResolvesIffNoChain(g: Graph, k: string, n: nat)
    requires k in g
    ensures Resolves(g, k, n) <==> !ChainFrom(g, k, n)
  {
    if Resolves(g, k, n) {
      if p :| Walk(g, p) && p[0] == k && |p| == n + 1 { ResolvedHasNoChain(g, k, n, p); }
    } else {
      var p := UnresolvedHasChain(g, k, n);
    }
  }

  lemma WalkStaysInGraph(g: Graph, p: seq<string>)
    requires Walk(g, p)
    ensures forall i :: 0 <= i < |p| ==> p[i] in g.Keys
  {
    forall i | 0 <= i < |p| ensures p[i] in g.Keys {
      if i > 0 { assert Edge(g, p[i - 1], p[i]); }
    }
  }

  ghost predicate Grounded(g: Graph, k: string) {
    exists n: nat :: Resolves(g, k, n)
  }

  /** A plan resolves in some pass exactly when it cannot reach a cycle. */
  lemma ResolvesIffNoCycle(g: Graph, k: string)
    requires k in g
    ensures Grounded(g, k) <==> !ReachesCycle(g, k)
  {
    if Grounded(g, k) {
      var n: nat :| Resolves(g, k, n);
      ResolvedReachesNoCycle(g, k, n);
    } else {
      UnresolvedReachesCycle(g, k);
    }
  }

  /** As many passes as there are plans resolve whatever can be resolved. */
  lemma UnresolvedReachesCycle(g: Graph, k: string)
    requires k in g && !Resolves(g, k, |g.Keys|)
    ensures ReachesCycle(g, k)
  {
    var p := UnresolvedHasChain(g, k, |g.Keys|);
    WalkStaysInGraph(g, p);
    if Distinct(p) { DistinctFits(p, g.Keys); }
    var i: nat, j: nat :| 0 <= i < j < |p| && p[i] == p[j];
    assert IsLasso(g, p[..j + 1], i) && p[..j + 1][0] == k;
  }

  lemma ResolvedReachesNoCycle(g: Graph, k: string, n: nat)
    requires Resolves(g, k, n)
    ensures !ReachesCycle(g, k)
  {
    if p: seq<string>, i: nat :| IsLasso(g, p, i) && p[0] == k {
      var q := LassoProlongs(g, p, i, n);
      ResolvedHasNoChain(g, k, n, q);
    }
  }

  // ---------------------------------------------------------------- dependence on computed keys

  lemma IndexHoldsKeys(plans: seq<Plan>)
    ensures forall k :: k in IndexKeys(plans) <==> k in Keys(plans)
  {
    if plans != [] {
      var front, last := plans[..|plans| - 1], plans[|plans| - 1];
      IndexHoldsKeys(front);
      assert plans == front + [last];
      assert Keys(plans) == Keys(front) + {PackageKey(last)};
    }
  }

  lemma MatchIsLink(env: Env, plans: seq<Plan>, p: Plan, d: Dep)
    requires d in p.deps
    ensures var m := MatchOf(env, IndexKeys(plans), p, d); m.Some? ==> m.value in Links(env, plans, p)
  {
    var found := DependencyPlanKeys(env, IndexKeys(plans), p, d);
    if found != [] {
      MatchesFound(env, IndexKeys(plans), p, d, found[0]);
      IndexHoldsKeys(plans);
    }
  }

  ghost predicate AgreeOn(m: map<string, string>, m': map<string, string>, keys: set<string>) {
    forall k :: k in keys ==> k in m && k in m' && m[k] == m'[k]
  }

  lemma {:induction false} DepInputsAgree(
    env: Env, plans: seq<Plan>, p: Plan, m: map<string, string>, m': map<string, string>, deps: seq<Dep>)
    requires AgreeOn(m, m', Links(env, plans, p)) && forall d :: d in deps ==> d in p.deps
    ensures DepInputs(env, IndexKeys(plans), p, m, deps) == DepInputs(env, IndexKeys(plans), p, m', deps)
  {
    if deps != [] {
      DepInputsAgree(env, plans, p, m, m', deps[..|deps| - 1]);
      MatchIsLink(env, plans, p, deps[|deps| - 1]);
    }
  }

  /** A plan's inputs and soundness depend only on the keys of the plans it links to. */
  lemma InputsAgree(env: Env, plans: seq<Plan>, p: Plan, m: map<string, string>, m': map<string, string>)
    requires AgreeOn(m, m', Links(env, plans, p))
    ensures InputsOf(env, IndexKeys(plans), p, m) == InputsOf(env, IndexKeys(plans), p, m')
    ensures Sound(env, IndexKeys(plans), p, m) <==> Sound(env, IndexKeys(plans), p, m')
  {
    var sorted := Sort(p.deps, DepName);
    SortIsSorted(p.deps, DepName);
    forall d | d in sorted ensures d in p.deps { assert d in multiset(sorted); }
    DepInputsAgree(env, plans, p, m, m', sorted);
    forall d | d in p.deps
      ensures PinAgrees(env, IndexKeys(plans), p, m, d) <==> PinAgrees(env, IndexKeys(plans), p, m', d)
    {
      MatchIsLink(env, plans, p, d);
    }
  }

  /** There is at most one acyclic way to assign keys. */
  lemma {:induction false} MerkleIsUnique(
    env: Env, plans: seq<Plan>, m: map<string, string>, m': map<string, string>, k: string, n: nat)
    requires MerkleOn(env, plans, m) && MerkleOn(env, plans, m') && k in m && k in m'
    requires Resolves(PlanGraph(env, plans), k, n)
    ensures m[k] == m'[k]
    decreases n
  {
    var g, p := PlanGraph(env, plans), PlanOf(plans, k);
    forall x | x in Links(env, plans, p) ensures x in m && x in m' && m[x] == m'[x] {
      assert x in g[k] && x in g;
      MerkleIsUnique(env, plans, m, m', x, n - 1);
    }
    InputsAgree(env, plans, p, m, m');
  }

  // ---------------------------------------------------------------- one plan

  datatype KeyResult = Key(package: Package) | Failed(error: Outcome)

  lemma DepInputsStep(
    env: Env, index: seq<string>, p: Plan, computed: map<string, string>, deps: seq<Dep>, i: nat)
    requires i < |deps|
    ensures DepInputs(env, index, p, computed, deps[..i + 1])
         == DepInputs(env, index, p, computed, deps[..i]) + [InputFor(env, index, p, computed, deps[i])]
  {
    assert deps[..i + 1][..i] == deps[..i];
  }

  lemma SortedDeps(p: Plan)
    ensures forall d :: d in Sort(p.deps, DepName) <==> d in p.deps
  {
    var deps := Sort(p.deps, DepName);
    SortIsSorted(p.deps, DepName);
    forall d ensures d in deps <==> d in p.deps { assert d in multiset(deps) <==> d in multiset(p.deps); }
  }

  /** `package_key_for_plan_with_deps` */
  method PackageKeyForPlan(env: Env, index: seq<string>, p: Plan, computed: map<string, string>)
    returns (r: KeyResult)
    ensures r.Key? <==> Sound(env, index, p, computed)
    ensures r.Key? ==>
      r.package == Package(InputsOf(env, index, p, computed), env.hash(InputsOf(env, index, p, computed)))
    ensures r.Failed? ==> r.error.Ambiguous? || r.error.Invalid? || r.error.Mismatch?
  {
    hide DependencyPlanKeys;
    hide DepInputs;
    hide Sort;
    if !p.valid { return Failed(Invalid(p.path)); }
    var deps := Sort(p.deps, DepName);
    SortedDeps(p);
    var inputs := p.own;
    assert DepInputs(env, index, p, computed, deps[..0]) == [] by { NoDepInputs(env, index, p, computed, deps); }
    for i := 0 to |deps|
      invariant inputs == p.own + DepInputs(env, index, p, computed, deps[..i])
      invariant forall j :: 0 <= j < i ==>
        Unambiguous(env, index, p, deps[j]) && PinAgrees(env, index, p, computed, deps[j])
    {
      var d := deps[i];
      assert d in p.deps by { assert d in deps; }
      var found := DependencyPlanKeys(env, index, p, d);
      if |found| > 1 { return Failed(Ambiguous(p.path, d.name)); }
      var key := d.key;
      if found != [] && found[0] in computed {
        if StartsWith(d.key, "action://") {
          key := computed[found[0]];
        } else if d.key != computed[found[0]] {
          return Failed(Mismatch(p.path, d.name));
        }
      }
      var m := if found == [] then None else Some(found[0]);
      var manifest, sha: Option<string> := None, None;
      if d.manifest != "" {
        if IsRepoPlanLabel(d.manifest) {
          manifest, sha := Some("plans/" + d.manifest[|"//plans:"|..]), Some(env.fileSha(d.manifest));
        } else {
          manifest := Some(d.manifest);
        }
      }
      var record := DepInput(d.name, d.target, key, m, manifest, sha);
      assert record == InputFor(env, index, p, computed, d);
      DepInputsStep(env, index, p, computed, deps, i);
      inputs := inputs + [record];
    }
    assert deps[..|deps|] == deps;
    inputs := inputs + p.wrappers;
    return Key(Package(inputs, env.hash(inputs)));
  }

  lemma NoDepInputs(env: Env, index: seq<string>, p: Plan, computed: map<string, string>, deps: seq<Dep>)
    ensures DepInputs(env, index, p, computed, deps[..0]) == []
  {
  }

  // ---------------------------------------------------------------- the fixpoint

  function KeyMap(packages: map<string, Package>): map<string, string> {
    map k | k in packages :: packages[k].merkle
  }

  ghost function Select(s: seq<Plan>, f: Plan -> bool): seq<Plan> {
    if s == [] then []
    else Select(s[..|s| - 1], f) + (if f(s[|s| - 1]) then [s[|s| - 1]] else [])
  }

  lemma {:induction false} SelectMembers(s: seq<Plan>, f: Plan -> bool)
    ensures forall p :: p in Select(s, f) <==> p in s && f(p)
  {
    if s != [] {
      SelectMembers(s[..|s| - 1], f);
      assert s == s[..|s| - 1] + [s[|s| - 1]];
    }
  }

  lemma {:induction false} SelectTwice(s: seq<Plan>, f: Plan -> bool, f': Plan -> bool, h: Plan -> bool)
    requires forall p :: p in s ==> (h(p) <==> f(p) && f'(p))
    ensures Select(Select(s, f), f') == Select(s, h)
  {
    if s != [] {
      var front, last := s[..|s| - 1], s[|s| - 1];
      SelectTwice(front, f, f', h);
      if f(last) {
        assert Select(s, f) == Select(front, f) + [last];
        assert Select(s, f)[..|Select(s, f)| - 1] == Select(front, f);
      } else {
        assert Select(s, f) == Select(front, f);
      }
    }
  }

  lemma {:induction false} SelectDistinct(s: seq<Plan>, f: Plan -> bool)
    requires DistinctKeys(s)
    ensures DistinctKeys(Select(s, f))
  {
    if s != [] {
      var front, last := s[..|s| - 1], s[|s| - 1];
      SelectDistinct(front, f);
      SelectMembers(front, f);
      forall p | p in front ensures PackageKey(p) != PackageKey(last) {}
    }
  }

  lemma PlanOfUnique(plans: seq<Plan>, p: Plan)
    requires DistinctKeys(plans) && p in plans
    ensures PackageKey(p) in Keys(plans) && PlanOf(plans, PackageKey(p)) == p
  {
  }

  /** The plans left pending after `n` passes. */
  ghost function Left(g: Graph, plans: seq<Plan>, n: nat): seq<Plan> {
    Select(plans, p => !Resolves(g, PackageKey(p), n))
  }

  ghost predicate Ready(env: Env, plans: seq<Plan>, p: Plan, computed: set<string>) {
    Links(env, plans, p) <= computed
  }

  /** Every package is the hash of its plan's inputs under the keys in `packages`. */
  ghost predicate Correct(env: Env, plans: seq<Plan>, packages: map<string, Package>) {
    forall k :: k in packages ==>
      && k in Keys(plans) && CorrectAt(env, plans, PlanOf(plans, k), packages[k], KeyMap(packages))
  }

  ghost predicate CorrectAt(env: Env, plans: seq<Plan>, p: Plan, v: Package, computed: map<string, string>) {
    && Links(env, plans, p) <= computed.Keys
    && v.inputs == InputsOf(env, IndexKeys(plans), p, computed)
    && v.merkle == env.hash(v.inputs)
    && Sound(env, IndexKeys(plans), p, computed)
  }

  ghost predicate Covers(g: Graph, packages: map<string, Package>, n: nat) {
    forall k :: k in packages <==> Resolves(g, k, n)
  }

  ghost predicate AfterPasses(env: Env, plans: seq<Plan>, packages: map<string, Package>, pending: seq<Plan>, n: nat) {
    && Covers(PlanGraph(env, plans), packages, n)
    && Correct(env, plans, packages)
    && pending == Left(PlanGraph(env, plans), plans, n)
  }

  /** Partway through a pass: the first `j` pending plans have been looked at. */
  ghost predicate Midway(
    env: Env, plans: seq<Plan>, packages0: map<string, Package>, packages: map<string, Package>,
    pending: seq<Plan>, next: seq<Plan>, j: nat)
    requires j <= |pending|
  {
    && (forall k :: k in packages <==>
          k in packages0
          || exists i :: 0 <= i < j && PackageKey(pending[i]) == k && Ready(env, plans, pending[i], packages0.Keys))
    && (forall k :: k in packages0 ==> packages[k] == packages0[k])
    && (forall i :: 0 <= i < j && Ready(env, plans, pending[i], packages0.Keys) ==>
          PackageKey(pending[i]) in packages
          && CorrectAt(env, plans, pending[i], packages[PackageKey(pending[i])], KeyMap(packages0)))
    && next == Select(pending[..j], p => !Ready(env, plans, p, packages0.Keys))
  }

  lemma KeyMapAgrees(env: Env, plans: seq<Plan>, p: Plan, v: Package, a: map<string, Package>, b: map<string, Package>)
    requires CorrectAt(env, plans, p, v, KeyMap(a)) && forall k :: k in a ==> k in b && a[k] == b[k]
    ensures CorrectAt(env, plans, p, v, KeyMap(b))
  {
    InputsAgree(env, plans, p, KeyMap(a), KeyMap(b));
  }

  lemma ReadyIsResolved(env: Env, plans: seq<Plan>, p: Plan, keys: set<string>, n: nat)
    requires DistinctKeys(plans) && p in plans
    requires forall k :: k in keys <==> Resolves(PlanGraph(env, plans), k, n)
    ensures Ready(env, plans, p, keys) <==> Resolves(PlanGraph(env, plans), PackageKey(p), n + 1)
  {
    PlanOfUnique(plans, p);
    var g, k := PlanGraph(env, plans), PackageKey(p);
    assert g[k] == Links(env, plans, p);
  }

  /** A completed pass resolves exactly what one more link allows. */
  lemma PassEnds(
    env: Env, plans: seq<Plan>, packages0: map<string, Package>, packages: map<string, Package>,
    pending: seq<Plan>, next: seq<Plan>, n: nat)
    requires DistinctKeys(plans) && AfterPasses(env, plans, packages0, pending, n)
    requires Midway(env, plans, packages0, packages, pending, next, |pending|)
    ensures AfterPasses(env, plans, packages, next, n + 1)
  {
    hide Midway;
    hide CorrectAt;
    hide PlanGraph;
    hide Left;
    assert Covers(PlanGraph(env, plans), packages, n + 1) by {
      forall k ensures k in packages <==> Resolves(PlanGraph(env, plans), k, n + 1) {
        PassResolves(env, plans, packages0, packages, pending, next, n, k);
      }
    }
    hide Covers;
    assert Correct(env, plans, packages) by {
      forall k | k in packages
        ensures k in Keys(plans) && CorrectAt(env, plans, PlanOf(plans, k), packages[k], KeyMap(packages))
      {
        PassIsCorrect(env, plans, packages0, packages, pending, next, n, k);
      }
    }
    hide Correct;
    PassLeaves(env, plans, packages0, packages, pending, next, n);
  }

  lemma PassLeaves(
    env: Env, plans: seq<Plan>, packages0: map<string, Package>, packages: map<string, Package>,
    pending: seq<Plan>, next: seq<Plan>, n: nat)
    requires DistinctKeys(plans) && AfterPasses(env, plans, packages0, pending, n)
    requires Midway(env, plans, packages0, packages, pending, next, |pending|)
    ensures next == Left(PlanGraph(env, plans), plans, n + 1)
  {
    hide CorrectAt;
    hide DistinctKeys;
    var g := PlanGraph(env, plans);
    assert pending[..|pending|] == pending;
    forall p | p in plans
      ensures !Resolves(g, PackageKey(p), n + 1)
         <==> !Resolves(g, PackageKey(p), n) && !Ready(env, plans, p, packages0.Keys)
    {
      ReadyIsResolved(env, plans, p, packages0.Keys, n);
      if Resolves(g, PackageKey(p), n) { ResolvesLater(g, PackageKey(p), n); }
    }
    SelectTwice(plans, p => !Resolves(g, PackageKey(p), n), p => !Ready(env, plans, p, packages0.Keys),
                p => !Resolves(g, PackageKey(p), n + 1));
  }

  lemma PassResolves(
    env: Env, plans: seq<Plan>, packages0: map<string, Package>, packages: map<string, Package>,
    pending: seq<Plan>, next: seq<Plan>, n: nat, k: string)
    requires DistinctKeys(plans) && AfterPasses(env, plans, packages0, pending, n)
    requires Midway(env, plans, packages0, packages, pending, next, |pending|)
    ensures k in packages <==> Resolves(PlanGraph(env, plans), k, n + 1)
  {
    var g := PlanGraph(env, plans);
    SelectMembers(plans, p => !Resolves(g, PackageKey(p), n));
    if k in packages0 {
      ResolvesLater(g, k, n);
    } else if k in Keys(plans) {
      var p :| p in plans && PackageKey(p) == k;
      PlanOfUnique(plans, p);
      ReadyIsResolved(env, plans, p, packages0.Keys, n);
      assert p in pending;
      var i :| 0 <= i < |pending| && pending[i] == p;
      if k in packages {
        var j :| 0 <= j < |pending| && PackageKey(pending[j]) == k && Ready(env, plans, pending[j], packages0.Keys);
        assert pending[j] in pending;
        PlanOfUnique(plans, pending[j]);
      }
    }
  }

  lemma PassIsCorrect(
    env: Env, plans: seq<Plan>, packages0: map<string, Package>, packages: map<string, Package>,
    pending: seq<Plan>, next: seq<Plan>, n: nat, k: string)
    requires DistinctKeys(plans) && AfterPasses(env, plans, packages0, pending, n)
    requires Midway(env, plans, packages0, packages, pending, next, |pending|) && k in packages
    ensures k in Keys(plans) && CorrectAt(env, plans, PlanOf(plans, k), packages[k], KeyMap(packages))
  {
    hide CorrectAt;
    if k in packages0 {
      KeyMapAgrees(env, plans, PlanOf(plans, k), packages[k], packages0, packages);
    } else {
      var g := PlanGraph(env, plans);
      SelectMembers(plans, p => !Resolves(g, PackageKey(p), n));
      var i :| 0 <= i < |pending| && PackageKey(pending[i]) == k && Ready(env, plans, pending[i], packages0.Keys);
      assert pending[i] in pending;
      PlanOfUnique(plans, pending[i]);
      KeyMapAgrees(env, plans, pending[i], packages[k], packages0, packages);
    }
  }

  /** When a pass makes no progress, what is pending can reach a cycle, and nothing else can. */
  lemma NoProgress(env: Env, plans: seq<Plan>, n: nat)
    requires DistinctKeys(plans)
    requires n > 0 && forall k :: Resolves(PlanGraph(env, plans), k, n) ==> Resolves(PlanGraph(env, plans), k, n - 1)
    ensures var g := PlanGraph(env, plans);
      forall k :: k in g ==> (ReachesCycle(g, k) <==> !Resolves(g, k, n))
  {
    hide ReachesCycle;
    hide PlanGraph;
    var g := PlanGraph(env, plans);
    var r := set k | k in g && !Resolves(g, k, n);
    forall k | k in r ensures PointsInto(g, k, r) {
      var d :| d in g[k] && d in g && !Resolves(g, d, n - 1);
      assert Edge(g, k, d);
    }
    forall k | k in g ensures ReachesCycle(g, k) <==> !Resolves(g, k, n) {
      if Resolves(g, k, n) {
        ResolvedReachesNoCycle(g, k, n);
      } else {
        assert k in r;
        StuckReachesCycle(g, r, k);
      }
    }
  }

  lemma {:induction false} SelectSame(s: seq<Plan>, f: Plan -> bool, f': Plan -> bool)
    requires forall p :: p in s ==> (f(p) <==> f'(p))
    ensures Select(s, f) == Select(s, f')
  {
    if s != [] { SelectSame(s[..|s| - 1], f, f'); }
  }

  lemma MidwaySkip(
    env: Env, plans: seq<Plan>, packages0: map<string, Package>, packages: map<string, Package>,
    pending: seq<Plan>, next: seq<Plan>, j: nat)
    requires j < |pending| && Midway(env, plans, packages0, packages, pending, next, j)
    requires !Ready(env, plans, pending[j], packages0.Keys)
    ensures Midway(env, plans, packages0, packages, pending, next + [pending[j]], j + 1)
  {
    hide CorrectAt;
    hide Ready;
    assert pending[..j + 1] == pending[..j] + [pending[j]];
    assert pending[..j + 1][..j] == pending[..j];
  }

  lemma MidwayAdd(
    env: Env, plans: seq<Plan>, packages0: map<string, Package>, packages: map<string, Package>,
    pending: seq<Plan>, next: seq<Plan>, j: nat, v: Package)
    requires j < |pending| && Midway(env, plans, packages0, packages, pending, next, j)
    requires Ready(env, plans, pending[j], packages0.Keys)
    requires CorrectAt(env, plans, pending[j], v, KeyMap(packages0))
    requires DistinctKeys(pending) && PackageKey(pending[j]) !in packages0
    ensures Midway(env, plans, packages0, packages[PackageKey(pending[j]) := v], pending, next, j + 1)
  {
    hide CorrectAt;
    hide Ready;
    assert pending[..j + 1] == pending[..j] + [pending[j]];
    assert pending[..j + 1][..j] == pending[..j];
  }

  lemma MidwayStart(env: Env, plans: seq<Plan>, packages: map<string, Package>, pending: seq<Plan>)
    ensures Midway(env, plans, packages, packages, pending, [], 0)
  {
  }

  lemma StartOfPasses(env: Env, plans: seq<Plan>)
    ensures AfterPasses(env, plans, map[], plans, 0)
  {
    hide PlanGraph;
    SelectAll(plans, p => !Resolves(PlanGraph(env, plans), PackageKey(p), 0));
  }

  lemma {:induction false} SelectAll(s: seq<Plan>, f: Plan -> bool)
    requires forall p :: p in s ==> f(p)
    ensures Select(s, f) == s
  {
    if s != [] { SelectAll(s[..|s| - 1], f); }
  }

  lemma PendingIsNew(env: Env, plans: seq<Plan>, packages: map<string, Package>, pending: seq<Plan>, n: nat)
    requires DistinctKeys(plans) && AfterPasses(env, plans, packages, pending, n)
    ensures DistinctKeys(pending) && forall p :: p in pending ==> p in plans && PackageKey(p) !in packages
  {
    var g := PlanGraph(env, plans);
    SelectDistinct(plans, p => !Resolves(g, PackageKey(p), n));
    SelectMembers(plans, p => !Resolves(g, PackageKey(p), n));
  }

  /** The keys of matched plans that have no computed key yet; stops at an ambiguous dependency. */
  method MissingKeys(env: Env, plans: seq<Plan>, p: Plan, computed: map<string, string>)
    returns (missing: seq<string>, ambiguous: Option<Dep>)
    ensures ambiguous.Some? ==> ambiguous.value in p.deps && !Unambiguous(env, IndexKeys(plans), p, ambiguous.value)
    ensures ambiguous.None? ==> (missing == [] <==> Ready(env, plans, p, computed.Keys))
  {
    hide DependencyPlanKeys;
    hide Matches;
    var index := IndexKeys(plans);
    IndexHoldsKeys(plans);
    missing, ambiguous := [], None;
    for i := 0 to |p.deps|
      invariant missing == [] <==>
        forall j, k :: 0 <= j < i && k in index && Matches(env, p, p.deps[j], k) ==> k in computed
    {
      var found := DependencyPlanKeys(env, index, p, p.deps[i]);
      if |found| > 1 {
        ambiguous := Some(p.deps[i]);
        return;
      }
      forall k ensures k in found <==> k in index && Matches(env, p, p.deps[i], k) {
        MatchesFound(env, index, p, p.deps[i], k);
      }
      if found != [] {
        assert found[0] in found;
        if found[0] !in computed {
          missing := missing + [found[0]];
        }
      }
    }
    assert missing == [] <==> Ready(env, plans, p, computed.Keys) by {
      if missing == [] {
        forall k | k in Links(env, plans, p) ensures k in computed {
          var d :| d in p.deps && Matches(env, p, d, k);
          var j :| 0 <= j < |p.deps| && p.deps[j] == d;
        }
      } else {
        var j, k :| 0 <= j < |p.deps| && k in index && Matches(env, p, p.deps[j], k) && k !in computed;
        assert p.deps[j] in p.deps && LinksTo(env, p, k);
        assert k in Links(env, plans, p);
      }
    }
  }

  // ---------------------------------------------------------------- compute_snapshot

  /** `m` holds the keys of acyclic plans only, and of every plan `p` links to. */
  ghost predicate Assigned(env: Env, plans: seq<Plan>, p: Plan, m: map<string, string>) {
    && MerkleOn(env, plans, m) && Links(env, plans, p) <= m.Keys
    && forall k :: k in m ==> Grounded(PlanGraph(env, plans), k)
  }

  /** No dependency is ambiguous, and no plan whose dependencies have keys is rejected. */
  ghost predicate FaultFree(env: Env, plans: seq<Plan>) {
    forall p :: p in plans ==> NoFault(env, plans, p)
  }

  ghost predicate NoFault(env: Env, plans: seq<Plan>, p: Plan) {
    && (forall d :: d in p.deps ==> Unambiguous(env, IndexKeys(plans), p, d))
    && (forall m :: Assigned(env, plans, p, m) ==> Sound(env, IndexKeys(plans), p, m))
  }

  ghost predicate FirstResolvedIn(g: Graph, packages: map<string, Package>, pass: map<string, nat>) {
    && pass.Keys == packages.Keys
    && forall k :: k in pass ==> pass[k] > 0 && Resolves(g, k, pass[k]) && !Resolves(g, k, pass[k] - 1)
  }

  ghost function Recorded(packages: map<string, Package>, pass: map<string, nat>, n: nat): map<string, nat> {
    map k | k in packages :: if k in pass then pass[k] else n
  }

  lemma PassRecorded(
    g: Graph, packages0: map<string, Package>, packages: map<string, Package>, pass: map<string, nat>, n: nat)
    requires FirstResolvedIn(g, packages0, pass) && Covers(g, packages0, n) && Covers(g, packages, n + 1)
    ensures FirstResolvedIn(g, packages, Recorded(packages, pass, n + 1))
  {
    forall k | k in packages0 ensures k in packages { ResolvesLater(g, k, n); }
  }

  lemma CorrectIsAssigned(env: Env, plans: seq<Plan>, packages: map<string, Package>, n: nat, p: Plan)
    requires Correct(env, plans, packages) && Covers(PlanGraph(env, plans), packages, n)
    requires Ready(env, plans, p, packages.Keys)
    ensures Assigned(env, plans, p, KeyMap(packages))
  {
    var m := KeyMap(packages);
    forall k | k in m ensures Grounded(PlanGraph(env, plans), k) {
      assert Resolves(PlanGraph(env, plans), k, n);
    }
  }

  lemma CorrectIsSound(env: Env, plans: seq<Plan>, packages: map<string, Package>, p: Plan, m: map<string, string>)
    requires DistinctKeys(plans) && p in plans && PackageKey(p) in packages
    requires Correct(env, plans, packages) && Assigned(env, plans, p, m)
    ensures Sound(env, IndexKeys(plans), p, m)
  {
    PlanOfUnique(plans, p);
    var m' := KeyMap(packages);
    assert MerkleOn(env, plans, m');
    forall k | k in Links(env, plans, p) ensures k in m && k in m' && m[k] == m'[k] {
      var n: nat :| Resolves(PlanGraph(env, plans), k, n);
      MerkleIsUnique(env, plans, m, m', k, n);
    }
    InputsAgree(env, plans, p, m, m');
  }

  /** The loop ended with nothing pending. */
  lemma AllResolved(env: Env, plans: seq<Plan>, packages: map<string, Package>, n: nat)
    requires DistinctKeys(plans) && AfterPasses(env, plans, packages, [], n)
    ensures packages.Keys == Keys(plans) && FaultFree(env, plans) && !Cyclic(PlanGraph(env, plans))
  {
    var g := PlanGraph(env, plans);
    SelectMembers(plans, p => !Resolves(g, PackageKey(p), n));
    forall p | p in plans ensures PackageKey(p) in packages {}
    forall p | p in plans ensures NoFault(env, plans, p) {
      PlanOfUnique(plans, p);
      assert CorrectAt(env, plans, p, packages[PackageKey(p)], KeyMap(packages));
      forall m | Assigned(env, plans, p, m) ensures Sound(env, IndexKeys(plans), p, m) {
        CorrectIsSound(env, plans, packages, p, m);
      }
    }
    forall k | k in g ensures !ReachesCycle(g, k) { ResolvedReachesNoCycle(g, k, n); }
    CyclicIffReached(g);
  }

  ghost function Paths(plans: seq<Plan>): seq<string> {
    seq(|plans|, i requires 0 <= i < |plans| => plans[i].path)
  }

  /** The plans that can reach a cycle of the plan relation, in enumeration order. */
  ghost function CyclePaths(env: Env, plans: seq<Plan>): seq<string> {
    Paths(Select(plans, p => ReachesCycle(PlanGraph(env, plans), PackageKey(p))))
  }

  /** The loop ended without progress. */
  lemma SomeLeft(env: Env, plans: seq<Plan>, packages: map<string, Package>, pending: seq<Plan>, n: nat)
    requires DistinctKeys(plans) && AfterPasses(env, plans, packages, pending, n) && pending != []
    requires n > 0 && forall k :: Resolves(PlanGraph(env, plans), k, n) ==> Resolves(PlanGraph(env, plans), k, n - 1)
    ensures Cyclic(PlanGraph(env, plans)) && Paths(pending) == CyclePaths(env, plans)
  {
    hide PlanGraph;
    hide ReachesCycle;
    hide Cyclic;
    hide Correct;
    var g := PlanGraph(env, plans);
    NoProgress(env, plans, n);
    GraphNodes(env, plans);
    SelectSame(plans, p => !Resolves(g, PackageKey(p), n), p => ReachesCycle(g, PackageKey(p)));
    SelectMembers(plans, p => !Resolves(g, PackageKey(p), n));
    assert pending[0] in pending;
    CyclicIffReached(g);
  }

  lemma GraphNodes(env: Env, plans: seq<Plan>)
    ensures forall p :: p in plans ==> PackageKey(p) in PlanGraph(env, plans)
  {
  }

  /** `compute_snapshot`.  `pass` records in which pass a key was computed. */
  method ComputeSnapshot(env: Env, plans: seq<Plan>) returns (r: Outcome, ghost pass: map<string, nat>)
    ensures DistinctKeys(plans) ==> (r.Snapshot? <==> FaultFree(env, plans) && !Cyclic(PlanGraph(env, plans)))
    ensures DistinctKeys(plans) && r.Snapshot? ==>
      && r.packages.Keys == Keys(plans) && Correct(env, plans, r.packages)
      && FirstResolvedIn(PlanGraph(env, plans), r.packages, pass)
    ensures DistinctKeys(plans) && r.Unresolved? ==>
      Cyclic(PlanGraph(env, plans)) && r.paths == CyclePaths(env, plans)
    ensures DistinctKeys(plans) && !r.Snapshot? && !r.Unresolved? ==> !FaultFree(env, plans)
  {
    hide *;
    ghost var distinct := DistinctKeys(plans);
    ghost var g := PlanGraph(env, plans);
    ghost var n := 0;
    var index := IndexKeys(plans);
    var packages: map<string, Package> := map[];
    var pending := plans;
    var progress := true;
    pass := map[];
    StartOfPasses(env, plans);
    NothingRecorded(g);
    while pending != [] && progress
      invariant distinct ==> AfterPasses(env, plans, packages, pending, n)
      invariant distinct ==> FirstResolvedIn(g, packages, pass)
      invariant !progress && distinct ==> n > 0 && forall k :: Resolves(g, k, n) ==> Resolves(g, k, n - 1)
      decreases |pending|, progress
    {
      progress := false;
      var next: seq<Plan> := [];
      ghost var packages0 := packages;
      var computed := KeyMap(packages);
      if distinct { PendingIsNew(env, plans, packages, pending, n); }
      MidwayStart(env, plans, packages, pending);
      for j := 0 to |pending|
        invariant distinct ==> Midway(env, plans, packages0, packages, pending, next, j)
        invariant |next| <= j && (progress ==> |next| < j)
        invariant !progress ==> packages == packages0
      {
        var p := pending[j];
        assert p in pending;
        var missing, ambiguous := MissingKeys(env, plans, p, computed);
        if ambiguous.Some? {
          if distinct { AmbiguousIsFault(env, plans, p, ambiguous.value); }
          return Ambiguous(p.path, ambiguous.value.name), pass;
        }
        assert computed.Keys == packages0.Keys by { KeyMapKeys(packages0); }
        if missing != [] {
          if distinct { MidwaySkip(env, plans, packages0, packages, pending, next, j); }
          next := next + [p];
          continue;
        }
        var k := PackageKeyForPlan(env, index, p, computed);
        if k.Failed? {
          if distinct { RejectedIsFault(env, plans, packages0, pending, n, p); }
          return k.error, pass;
        }
        if distinct {
          AcceptedIsCorrect(env, plans, p, k.package, packages0);
          MidwayAdd(env, plans, packages0, packages, pending, next, j, k.package);
        }
        packages := packages[PackageKey(p) := k.package];
        progress := true;
      }
      if distinct {
        PassEnds(env, plans, packages0, packages, pending, next, n);
        CoversOf(env, plans, packages0, pending, n);
        CoversOf(env, plans, packages, next, n + 1);
        PassRecorded(g, packages0, packages, pass, n);
        if !progress { SameCover(g, packages, n); }
      }
      pass := Recorded(packages, pass, n + 1);
      pending := next;
      n := n + 1;
    }
    if pending != [] {
      if distinct { SomeLeft(env, plans, packages, pending, n); }
      var unresolved := [];
      for i := 0 to |pending|
        invariant |unresolved| == i && forall j :: 0 <= j < i ==> unresolved[j] == pending[j].path
      {
        unresolved := unresolved + [pending[i].path];
      }
      PathsOf(pending, unresolved);
      return Unresolved(unresolved), pass;
    }
    if distinct {
      AllResolved(env, plans, packages, n);
      CorrectOf(env, plans, packages, pending, n);
    }
    return Snapshot(packages), pass;
  }

  lemma PathsOf(plans: seq<Plan>, paths: seq<string>)
    requires |paths| == |plans| && forall j :: 0 <= j < |plans| ==> paths[j] == plans[j].path
    ensures paths == Paths(plans)
  {
  }

  lemma NothingRecorded(g: Graph)
    ensures FirstResolvedIn(g, map[], map[])
  {
  }

  lemma KeyMapKeys(packages: map<string, Package>)
    ensures KeyMap(packages).Keys == packages.Keys
  {
  }

  lemma CoversOf(env: Env, plans: seq<Plan>, packages: map<string, Package>, pending: seq<Plan>, n: nat)
    requires AfterPasses(env, plans, packages, pending, n)
    ensures Covers(PlanGraph(env, plans), packages, n)
  {
  }

  lemma CorrectOf(env: Env, plans: seq<Plan>, packages: map<string, Package>, pending: seq<Plan>, n: nat)
    requires AfterPasses(env, plans, packages, pending, n)
    ensures Correct(env, plans, packages)
  {
  }

  lemma SameCover(g: Graph, packages: map<string, Package>, n: nat)
    requires Covers(g, packages, n) && Covers(g, packages, n + 1)
    ensures forall k :: Resolves(g, k, n + 1) ==> Resolves(g, k, n)
  {
  }

  lemma AmbiguousIsFault(env: Env, plans: seq<Plan>, p: Plan, d: Dep)
    requires p in plans && d in p.deps && !Unambiguous(env, IndexKeys(plans), p, d)
    ensures !FaultFree(env, plans)
  {
    assert !NoFault(env, plans, p);
  }

  lemma RejectedIsFault(env: Env, plans: seq<Plan>, packages: map<string, Package>, pending: seq<Plan>, n: nat, p: Plan)
    requires p in plans && AfterPasses(env, plans, packages, pending, n)
    requires Ready(env, plans, p, packages.Keys) && !Sound(env, IndexKeys(plans), p, KeyMap(packages))
    ensures !FaultFree(env, plans)
  {
    CorrectIsAssigned(env, plans, packages, n, p);
    assert !NoFault(env, plans, p);
  }

  lemma AcceptedIsCorrect(env: Env, plans: seq<Plan>, p: Plan, v: Package, packages: map<string, Package>)
    requires Ready(env, plans, p, packages.Keys) && Sound(env, IndexKeys(plans), p, KeyMap(packages))
    requires v == Package(InputsOf(env, IndexKeys(plans), p, KeyMap(packages)),
                          env.hash(InputsOf(env, IndexKeys(plans), p, KeyMap(packages))))
    ensures CorrectAt(env, plans, p, v, KeyMap(packages))
  {
  }

  // ---------------------------------------------------------------- what the keys mean

  /** The recursive definition: the hash of the plan's own inputs together with the
      recursive keys of the plans it links to. */
  ghost function RecursiveKey(env: Env, plans: seq<Plan>, k: string, n: nat): string
    requires Resolves(PlanGraph(env, plans), k, n)
    decreases n, 1
  {
    env.hash(InputsOf(env, IndexKeys(plans), PlanOf(plans, k), KeysBelow(env, plans, k, n)))
  }

  ghost function KeysBelow(env: Env, plans: seq<Plan>, k: string, n: nat): map<string, string>
    requires Resolves(PlanGraph(env, plans), k, n)
    decreases n, 0
  {
    map d | d in PlanGraph(env, plans)[k] && Resolves(PlanGraph(env, plans), d, n - 1)
      :: RecursiveKey(env, plans, d, n - 1)
  }

  /** Every key of a snapshot is the recursively defined one. */
  lemma {:induction false} SnapshotKeyIsRecursive(
    env: Env, plans: seq<Plan>, packages: map<string, Package>, k: string, n: nat)
    requires Correct(env, plans, packages) && k in packages && Resolves(PlanGraph(env, plans), k, n)
    ensures packages[k].merkle == RecursiveKey(env, plans, k, n)
    decreases n
  {
    var g, p, m := PlanGraph(env, plans), PlanOf(plans, k), KeyMap(packages);
    assert CorrectAt(env, plans, p, packages[k], m);
    hide InputsOf;
    forall d | d in Links(env, plans, p)
      ensures d in KeysBelow(env, plans, k, n) && KeysBelow(env, plans, k, n)[d] == m[d]
    {
      assert d in g[k] && d in g;
      SnapshotKeyIsRecursive(env, plans, packages, d, n - 1);
    }
    InputsAgree(env, plans, p, m, KeysBelow(env, plans, k, n));
  }

  lemma {:induction false} RecursiveKeyIsStable(env: Env, plans: seq<Plan>, k: string, n: nat)
    requires Resolves(PlanGraph(env, plans), k, n)
    ensures Resolves(PlanGraph(env, plans), k, n + 1)
    ensures RecursiveKey(env, plans, k, n) == RecursiveKey(env, plans, k, n + 1)
    decreases n
  {
    var g, p := PlanGraph(env, plans), PlanOf(plans, k);
    ResolvesLater(g, k, n);
    hide InputsOf;
    var a, b := KeysBelow(env, plans, k, n), KeysBelow(env, plans, k, n + 1);
    forall d | d in Links(env, plans, p) ensures d in a && d in b && a[d] == b[d] {
      assert d in g[k] && d in g;
      RecursiveKeyIsStable(env, plans, d, n - 1);
    }
    InputsAgree(env, plans, p, a, b);
  }

  /** `key` is the recursively defined key of plan `k`. */
  ghost predicate HasKey(env: Env, plans: seq<Plan>, k: string, key: string) {
    exists n: nat :: Resolves(PlanGraph(env, plans), k, n) && RecursiveKey(env, plans, k, n) == key
  }

  /** At most one committed plan matches. */
  ghost predicate OnlyMatch(env: Env, plans: seq<Plan>, p: Plan, d: Dep) {
    forall x, y :: x in Keys(plans) && y in Keys(plans) && Matches(env, p, d, x) && Matches(env, p, d, y) ==> x == y
  }

  /** A plan that is valid, none of whose dependencies matches two plans, and whose pinned
      keys are placeholders or the keys of the plans they pin. */
  ghost predicate Acceptable(env: Env, plans: seq<Plan>, p: Plan) {
    && p.valid
    && (forall d :: d in p.deps ==> OnlyMatch(env, plans, p, d))
    && (forall d, x :: d in p.deps && x in Keys(plans) && Matches(env, p, d, x) ==>
          "action://" <= d.key || HasKey(env, plans, x, d.key))
  }

  lemma UnambiguousMeans(env: Env, plans: seq<Plan>, p: Plan, d: Dep)
    requires DistinctKeys(plans)
    ensures Unambiguous(env, IndexKeys(plans), p, d) <==> OnlyMatch(env, plans, p, d)
  {
    hide Matches;
    hide Sort;
    hide Filter;
    hide DistinctKeys;
    var index := IndexKeys(plans);
    var found := DependencyPlanKeys(env, index, p, d);
    IndexHoldsKeys(plans);
    forall x ensures x in found <==> x in Keys(plans) && Matches(env, p, d, x) { MatchesFound(env, index, p, d, x); }
    if |found| > 1 {
      FilterCounts(env, index, p, d, found[0]);
      IndexOfDistinct(plans, found[0]);
      SortIsSorted(Filter(env, index, p, d), Itself);
      FirstTwoDiffer(found);
      assert found[0] in found && found[1] in found;
    }
  }

  lemma FirstTwoDiffer(s: seq<string>)
    requires |s| > 1 && multiset(s)[s[0]] <= 1
    ensures s[0] != s[1]
  {
    assert s == [s[0]] + [s[1]] + s[2..];
  }

  lemma AcyclicResolves(env: Env, plans: seq<Plan>)
    requires !Cyclic(PlanGraph(env, plans))
    ensures var g := PlanGraph(env, plans); forall k :: k in g ==> Resolves(g, k, |g.Keys|)
  {
    hide PlanGraph;
    hide Cyclic;
    hide ReachesCycle;
    var g := PlanGraph(env, plans);
    CyclicIffReached(g);
    forall k | k in g ensures Resolves(g, k, |g.Keys|) {
      if !Resolves(g, k, |g.Keys|) { UnresolvedReachesCycle(g, k); }
    }
  }

  /** The recursive keys of acyclic plans. */
  ghost function AllKeys(env: Env, plans: seq<Plan>, n: nat): map<string, string>
    requires forall k :: k in Keys(plans) ==> Resolves(PlanGraph(env, plans), k, n)
  {
    map k | k in Keys(plans) :: RecursiveKey(env, plans, k, n)
  }

  lemma AllKeysAreMerkle(env: Env, plans: seq<Plan>, n: nat)
    requires n > 0 && forall k :: k in Keys(plans) ==> Resolves(PlanGraph(env, plans), k, n)
    ensures MerkleOn(env, plans, AllKeys(env, plans, n))
  {
    hide InputsOf;
    var g, m := PlanGraph(env, plans), AllKeys(env, plans, n);
    forall k | k in m ensures m[k] == env.hash(InputsOf(env, IndexKeys(plans), PlanOf(plans, k), m)) {
      var p, below := PlanOf(plans, k), KeysBelow(env, plans, k, n);
      forall d | d in Links(env, plans, p) ensures d in below && d in m && below[d] == m[d] {
        assert d in g[k] && d in g;
        RecursiveKeyIsStable(env, plans, d, n - 1);
      }
      InputsAgree(env, plans, p, below, m);
    }
  }

  /** Any keys that plans can have are their recursive keys. */
  lemma AssignedIsKey(env: Env, plans: seq<Plan>, m: map<string, string>, n: nat, k: string, v: string)
    requires n > 0 && forall k :: k in Keys(plans) ==> Resolves(PlanGraph(env, plans), k, n)
    requires MerkleOn(env, plans, m) && k in m
    ensures HasKey(env, plans, k, v) <==> v == m[k]
  {
    assert k in Keys(plans);
    AllKeysAreMerkle(env, plans, n);
    MerkleIsUnique(env, plans, m, AllKeys(env, plans, n), k, n);
    assert m[k] == RecursiveKey(env, plans, k, n);
    if n': nat :| Resolves(PlanGraph(env, plans), k, n') && RecursiveKey(env, plans, k, n') == v {
      OneRecursiveKey(env, plans, k, n, n');
    }
  }

  lemma {:induction false} OneRecursiveKey(env: Env, plans: seq<Plan>, k: string, n: nat, n': nat)
    requires Resolves(PlanGraph(env, plans), k, n) && Resolves(PlanGraph(env, plans), k, n')
    ensures RecursiveKey(env, plans, k, n) == RecursiveKey(env, plans, k, n')
    decreases if n < n' then n' - n else n - n'
  {
    if n < n' {
      RecursiveKeyIsStable(env, plans, k, n);
      OneRecursiveKey(env, plans, k, n + 1, n');
    } else if n' < n {
      RecursiveKeyIsStable(env, plans, k, n');
      OneRecursiveKey(env, plans, k, n, n' + 1);
    }
  }

  /** Acyclic plans have a snapshot exactly if each of them is acceptable. */
  lemma FaultFreeMeans(env: Env, plans: seq<Plan>)
    requires DistinctKeys(plans) && !Cyclic(PlanGraph(env, plans))
    ensures FaultFree(env, plans) <==> forall p :: p in plans ==> Acceptable(env, plans, p)
  {
    AcyclicResolves(env, plans);
    var n := |PlanGraph(env, plans).Keys|;
    forall p | p in plans ensures NoFault(env, plans, p) <==> Acceptable(env, plans, p) {
      assert PackageKey(p) in PlanGraph(env, plans).Keys;
      NoFaultMeans(env, plans, p, n);
    }
  }

  lemma NoFaultMeans(env: Env, plans: seq<Plan>, p: Plan, n: nat)
    requires DistinctKeys(plans) && p in plans
    requires n > 0 && forall k :: k in Keys(plans) ==> Resolves(PlanGraph(env, plans), k, n)
    ensures NoFault(env, plans, p) <==> Acceptable(env, plans, p)
  {
    hide Matches;
    hide HasKey;
    var m := AllKeys(env, plans, n);
    AllKeysAreMerkle(env, plans, n);
    assert Assigned(env, plans, p, m);
    forall d | d in p.deps { UnambiguousMeans(env, plans, p, d); }
    forall m' | Assigned(env, plans, p, m') && forall d :: d in p.deps ==> Unambiguous(env, IndexKeys(plans), p, d)
      ensures Sound(env, IndexKeys(plans), p, m') <==> Acceptable(env, plans, p)
    {
      SoundMeans(env, plans, p, m', n);
    }
  }

  lemma SoundMeans(env: Env, plans: seq<Plan>, p: Plan, m: map<string, string>, n: nat)
    requires DistinctKeys(plans) && p in plans && Assigned(env, plans, p, m)
    requires n > 0 && forall k :: k in Keys(plans) ==> Resolves(PlanGraph(env, plans), k, n)
    requires forall d :: d in p.deps ==> Unambiguous(env, IndexKeys(plans), p, d)
    ensures Sound(env, IndexKeys(plans), p, m) <==> Acceptable(env, plans, p)
  {
    hide Matches;
    hide HasKey;
    hide Unambiguous;
    forall d | d in p.deps
      ensures OnlyMatch(env, plans, p, d)
      ensures PinAgrees(env, IndexKeys(plans), p, m, d) <==>
        forall x :: x in Keys(plans) && Matches(env, p, d, x) ==> "action://" <= d.key || HasKey(env, plans, x, d.key)
    {
      UnambiguousMeans(env, plans, p, d);
      PinMeans(env, plans, p, m, n, d);
    }
  }

  lemma PinMeans(env: Env, plans: seq<Plan>, p: Plan, m: map<string, string>, n: nat, d: Dep)
    requires Assigned(env, plans, p, m) && d in p.deps && Unambiguous(env, IndexKeys(plans), p, d)
    requires n > 0 && forall k :: k in Keys(plans) ==> Resolves(PlanGraph(env, plans), k, n)
    ensures PinAgrees(env, IndexKeys(plans), p, m, d) <==>
      forall x :: x in Keys(plans) && Matches(env, p, d, x) ==> "action://" <= d.key || HasKey(env, plans, x, d.key)
  {
    hide Matches;
    hide HasKey;
    if x :| x in Keys(plans) && Matches(env, p, d, x) {
      OneMatch(env, plans, p, d, x);
      assert LinksTo(env, p, x) && x in Links(env, plans, p);
      AssignedIsKey(env, plans, m, n, x, d.key);
    } else {
      NoMatch(env, plans, p, d);
    }
  }

  /** The pass in which a key is computed is one more than the number of links in the
      longest chain of plan dependencies below it. */
  lemma PassIsChainLength(g: Graph, packages: map<string, Package>, pass: map<string, nat>, k: string, links: nat)
    requires FirstResolvedIn(g, packages, pass) && k in packages
    ensures ChainFrom(g, k, links) <==> links < pass[k]
  {
    ResolvesIffNoChain(g, k, links);
    if links < pass[k] {
      if Resolves(g, k, links) { ResolvesUpTo(g, k, links, pass[k] - 1); }
    } else {
      ResolvesUpTo(g, k, pass[k], links);
    }
  }

  lemma {:induction false} ResolvesUpTo(g: Graph, k: string, n: nat, n': nat)
    requires Resolves(g, k, n) && n <= n'
    ensures Resolves(g, k, n')
    decreases n' - n
  {
    if n < n' {
      ResolvesLater(g, k, n);
      ResolvesUpTo(g, k, n + 1, n');
    }
  }

  // ---------------------------------------------------------------- enumeration order

  lemma {:induction false} IndexOfDistinct(plans: seq<Plan>, x: string)
    requires DistinctKeys(plans)
    ensures multiset(IndexKeys(plans))[x] == if x in Keys(plans) then 1 else 0
  {
    if plans != [] {
      var front, last := plans[..|plans| - 1], plans[|plans| - 1];
      IndexOfDistinct(front, x);
      IndexHoldsKeys(front);
      assert plans == front + [last];
      assert Keys(plans) == Keys(front) + {PackageKey(last)};
      forall p | p in front ensures PackageKey(p) != PackageKey(last) {}
    }
  }

  /** However the plan files are enumerated, a dependency matches the same plans. */
  lemma SameMatches(env: Env, plans: seq<Plan>, plans': seq<Plan>, p: Plan, d: Dep)
    requires DistinctKeys(plans) && DistinctKeys(plans') && Keys(plans) == Keys(plans')
    ensures Unambiguous(env, IndexKeys(plans), p, d) <==> Unambiguous(env, IndexKeys(plans'), p, d)
    ensures Unambiguous(env, IndexKeys(plans), p, d) ==>
      MatchOf(env, IndexKeys(plans), p, d) == MatchOf(env, IndexKeys(plans'), p, d)
  {
    var found, found' := Filter(env, IndexKeys(plans), p, d), Filter(env, IndexKeys(plans'), p, d);
    forall x ensures multiset(found)[x] == multiset(found')[x] {
      FilterCounts(env, IndexKeys(plans), p, d, x);
      FilterCounts(env, IndexKeys(plans'), p, d, x);
      IndexOfDistinct(plans, x);
      IndexOfDistinct(plans', x);
    }
    SortIsSorted(found, Itself);
    SortIsSorted(found', Itself);
    var a, b := Sort(found, Itself), Sort(found', Itself);
    assert multiset(a) == multiset(b);
    assert |a| == |multiset(a)| == |multiset(b)| == |b|;
    if |a| == 1 {
      assert a == [a[0]] && b == [b[0]];
      assert a[0] in multiset(b);
    }
  }

  lemma {:induction false} SameDepInputs(
    env: Env, plans: seq<Plan>, plans': seq<Plan>, p: Plan, m: map<string, string>, deps: seq<Dep>)
    requires DistinctKeys(plans) && DistinctKeys(plans') && Keys(plans) == Keys(plans')
    requires forall d :: d in deps ==> Unambiguous(env, IndexKeys(plans), p, d)
    ensures DepInputs(env, IndexKeys(plans), p, m, deps) == DepInputs(env, IndexKeys(plans'), p, m, deps)
  {
    if deps != [] {
      SameDepInputs(env, plans, plans', p, m, deps[..|deps| - 1]);
      SameMatches(env, plans, plans', p, deps[|deps| - 1]);
    }
  }

  lemma SameInputs(env: Env, plans: seq<Plan>, plans': seq<Plan>, p: Plan, m: map<string, string>)
    requires DistinctKeys(plans) && DistinctKeys(plans') && Keys(plans) == Keys(plans')
    requires forall d :: d in p.deps ==> Unambiguous(env, IndexKeys(plans), p, d)
    ensures InputsOf(env, IndexKeys(plans), p, m) == InputsOf(env, IndexKeys(plans'), p, m)
  {
    SortedDeps(p);
    SameDepInputs(env, plans, plans', p, m, Sort(p.deps, DepName));
  }

  lemma SamePlans(plans: seq<Plan>, plans': seq<Plan>)
    requires DistinctKeys(plans) && multiset(plans) == multiset(plans')
    ensures DistinctKeys(plans') && Keys(plans) == Keys(plans')
    ensures forall k :: k in Keys(plans) ==> PlanOf(plans, k) == PlanOf(plans', k)
  {
    forall p ensures p in plans <==> p in plans' { assert p in multiset(plans) <==> p in multiset(plans'); }
    forall i, j | 0 <= i < j < |plans'| ensures PackageKey(plans'[i]) != PackageKey(plans'[j]) {
      if PackageKey(plans'[i]) == PackageKey(plans'[j]) {
        PlanOfUnique(plans, plans'[i]);
        PlanOfUnique(plans, plans'[j]);
        assert plans' == plans'[..j] + plans'[j..];
        assert plans'[..j][i] == plans'[i] && plans'[j..][0] == plans'[i];
        assert multiset(plans')[plans'[i]] >= 2;
        PlanOnce(plans, plans'[i]);
      }
    }
    forall k | k in Keys(plans) ensures PlanOf(plans, k) == PlanOf(plans', k) {
      PlanOfUnique(plans, PlanOf(plans', k));
    }
  }

  lemma {:induction false} PlanOnce(plans: seq<Plan>, p: Plan)
    requires DistinctKeys(plans)
    ensures multiset(plans)[p] <= 1
  {
    if plans != [] {
      var front, last := plans[..|plans| - 1], plans[|plans| - 1];
      PlanOnce(front, p);
      assert plans == front + [last];
      if p == last { assert p !in front; }
    }
  }

  lemma CorrectForEither(env: Env, plans: seq<Plan>, plans': seq<Plan>, b: map<string, Package>)
    requires DistinctKeys(plans) && DistinctKeys(plans') && Keys(plans) == Keys(plans')
    requires forall k :: k in Keys(plans) ==> PlanOf(plans, k) == PlanOf(plans', k)
    requires Correct(env, plans', b)
    ensures Correct(env, plans, b)
  {
    forall k | k in b ensures k in Keys(plans) && CorrectAt(env, plans, PlanOf(plans, k), b[k], KeyMap(b)) {
      CorrectAtEither(env, plans, plans', PlanOf(plans, k), b[k], KeyMap(b));
    }
  }

  lemma CorrectAtEither(env: Env, plans: seq<Plan>, plans': seq<Plan>, p: Plan, v: Package, m: map<string, string>)
    requires DistinctKeys(plans) && DistinctKeys(plans') && Keys(plans) == Keys(plans')
    requires CorrectAt(env, plans', p, v, m)
    ensures CorrectAt(env, plans, p, v, m)
  {
    forall d | d in p.deps
      ensures Unambiguous(env, IndexKeys(plans), p, d) && PinAgrees(env, IndexKeys(plans), p, m, d)
    {
      SameMatches(env, plans, plans', p, d);
    }
    SameInputs(env, plans, plans', p, m);
  }

  /** The keys of a snapshot do not depend on the order in which plans are enumerated. */
  lemma SnapshotIgnoresEnumeration(
    env: Env, plans: seq<Plan>, plans': seq<Plan>, a: map<string, Package>, b: map<string, Package>)
    requires DistinctKeys(plans) && multiset(plans) == multiset(plans')
    requires Correct(env, plans, a) && a.Keys == Keys(plans)
    requires Correct(env, plans', b) && b.Keys == Keys(plans')
    requires !Cyclic(PlanGraph(env, plans))
    ensures KeyMap(a) == KeyMap(b)
  {
    hide CorrectAt;
    hide Cyclic;
    hide DistinctKeys;
    hide Keys;
    hide PlanOf;
    SamePlans(plans, plans');
    CorrectForEither(env, plans, plans', b);
    GraphKeys(env, plans);
    hide PlanGraph;
    hide Correct;
    forall k | k in a ensures a[k].merkle == b[k].merkle {
      SameKey(env, plans, a, b, k);
    }
  }

  lemma GraphKeys(env: Env, plans: seq<Plan>)
    ensures PlanGraph(env, plans).Keys == Keys(plans)
  {
  }

  lemma SameKey(env: Env, plans: seq<Plan>, a: map<string, Package>, b: map<string, Package>, k: string)
    requires Correct(env, plans, a) && Correct(env, plans, b) && k in a && k in b
    requires k in PlanGraph(env, plans) && !Cyclic(PlanGraph(env, plans))
    ensures a[k].merkle == b[k].merkle
  {
    hide Correct;
    hide PlanGraph;
    hide ReachesCycle;
    hide Cyclic;
    CyclicIffReached(PlanGraph(env, plans));
    ResolvesIffNoCycle(PlanGraph(env, plans), k);
    var n: nat :| Resolves(PlanGraph(env, plans), k, n);
    SnapshotKeyIsRecursive(env, plans, a, k, n);
    SnapshotKeyIsRecursive(env, plans, b, k, n);
  }

  lemma SameSoundness(env: Env, plans: seq<Plan>, plans': seq<Plan>, p: Plan, m: map<string, string>)
    requires DistinctKeys(plans) && DistinctKeys(plans') && Keys(plans) == Keys(plans')
    requires Sound(env, IndexKeys(plans), p, m)
    ensures Sound(env, IndexKeys(plans'), p, m)
  {
    forall d | d in p.deps
      ensures Unambiguous(env, IndexKeys(plans'), p, d) && PinAgrees(env, IndexKeys(plans'), p, m, d)
    {
      SameMatches(env, plans, plans', p, d);
    }
  }

  lemma SameMerkle(env: Env, plans: seq<Plan>, plans': seq<Plan>, m: map<string, string>)
    requires DistinctKeys(plans) && DistinctKeys(plans') && Keys(plans) == Keys(plans')
    requires forall k :: k in Keys(plans) ==> PlanOf(plans, k) == PlanOf(plans', k)
    requires forall p, d :: p in plans && d in p.deps ==> Unambiguous(env, IndexKeys(plans), p, d)
    requires MerkleOn(env, plans', m)
    ensures MerkleOn(env, plans, m)
  {
    forall k | k in m
      ensures k in Keys(plans) && Links(env, plans, PlanOf(plans, k)) <= m.Keys
      ensures m[k] == env.hash(InputsOf(env, IndexKeys(plans), PlanOf(plans, k), m))
    {
      SameInputs(env, plans, plans', PlanOf(plans, k), m);
    }
  }

  lemma SameGraph(env: Env, plans: seq<Plan>, plans': seq<Plan>)
    requires Keys(plans) == Keys(plans') && forall k :: k in Keys(plans) ==> PlanOf(plans, k) == PlanOf(plans', k)
    ensures PlanGraph(env, plans) == PlanGraph(env, plans')
  {
  }

  /** Nor does it depend on that order whether a snapshot exists at all. */
  lemma FaultsIgnoreEnumeration(env: Env, plans: seq<Plan>, plans': seq<Plan>)
    requires DistinctKeys(plans) && multiset(plans) == multiset(plans') && FaultFree(env, plans)
    ensures FaultFree(env, plans') && PlanGraph(env, plans) == PlanGraph(env, plans')
  {
    SamePlans(plans, plans');
    SameGraph(env, plans, plans');
    forall p | p in plans' ensures NoFault(env, plans', p) {
      assert p in multiset(plans);
      FaultFreePlan(env, plans, plans', p);
    }
  }

  lemma FaultFreePlan(env: Env, plans: seq<Plan>, plans': seq<Plan>, p: Plan)
    requires DistinctKeys(plans) && DistinctKeys(plans') && Keys(plans) == Keys(plans')
    requires forall k :: k in Keys(plans) ==> PlanOf(plans, k) == PlanOf(plans', k)
    requires FaultFree(env, plans) && p in plans
    ensures NoFault(env, plans', p)
  {
    hide Unambiguous;
    hide Sound;
    hide MerkleOn;
    SameGraph(env, plans, plans');
    assert NoFault(env, plans, p);
    forall d | d in p.deps ensures Unambiguous(env, IndexKeys(plans'), p, d) {
      SameMatches(env, plans, plans', p, d);
    }
    forall m | Assigned(env, plans', p, m) ensures Sound(env, IndexKeys(plans'), p, m) {
      forall q, d | q in plans && d in q.deps ensures Unambiguous(env, IndexKeys(plans), q, d) {
        assert NoFault(env, plans, q);
      }
      SameMerkle(env, plans, plans', m);
      assert Assigned(env, plans, p, m);
      SameSoundness(env, plans, plans', p, m);
    }
  }

  // ---------------------------------------------------------------- what an equal key binds

  ghost predicate Injective(hash: seq<Input> -> string) {
    forall a, b :: hash(a) == hash(b) ==> a == b
  }

  lemma {:induction false} DepInputListed(
    env: Env, index: seq<string>, p: Plan, m: map<string, string>, deps: seq<Dep>, d: Dep)
    requires d in deps
    ensures InputFor(env, index, p, m, d) in DepInputs(env, index, p, m, deps)
  {
    if d != deps[|deps| - 1] {
      assert deps == deps[..|deps| - 1] + [deps[|deps| - 1]];
      DepInputListed(env, index, p, m, deps[..|deps| - 1], d);
    }
  }

  lemma {:induction false} ListedIsDepInput(
    env: Env, index: seq<string>, p: Plan, m: map<string, string>, deps: seq<Dep>, r: Input) returns (d: Dep)
    requires r in DepInputs(env, index, p, m, deps)
    ensures d in deps && r == InputFor(env, index, p, m, d)
  {
    var last := deps[|deps| - 1];
    if r == InputFor(env, index, p, m, last) {
      d := last;
    } else {
      d := ListedIsDepInput(env, index, p, m, deps[..|deps| - 1], r);
    }
  }

  /** `own` and `wrappers` hold file records only. */
  ghost predicate WellFormed(p: Plan) {
    forall r :: r in p.own || r in p.wrappers ==> r.Own?
  }

  /** A record naming a matched plan carries that plan's computed key. */
  lemma RecordBindsKey(env: Env, plans: seq<Plan>, packages: map<string, Package>, k: string, r: Input)
    requires Correct(env, plans, packages) && k in packages && WellFormed(PlanOf(plans, k))
    requires r in packages[k].inputs && r.DepInput? && r.packageKey.Some?
    ensures r.packageKey.value in packages && r.key == packages[r.packageKey.value].merkle
    ensures r.packageKey.value in Links(env, plans, PlanOf(plans, k))
  {
    var p, m := PlanOf(plans, k), KeyMap(packages);
    assert CorrectAt(env, plans, p, packages[k], m);
    var d := ListedIsDepInput(env, IndexKeys(plans), p, m, Sort(p.deps, DepName), r);
    SortedDeps(p);
    MatchIsLink(env, plans, p, d);
  }

  /** Every plan linked to has a record naming it. */
  lemma LinkHasRecord(env: Env, plans: seq<Plan>, packages: map<string, Package>, k: string, x: string)
    returns (r: Input)
    requires Correct(env, plans, packages) && k in packages && x in Links(env, plans, PlanOf(plans, k))
    ensures r in packages[k].inputs && r.DepInput? && r.packageKey == Some(x)
  {
    var p, m := PlanOf(plans, k), KeyMap(packages);
    assert CorrectAt(env, plans, p, packages[k], m);
    var d :| d in p.deps && Matches(env, p, d, x);
    IndexHoldsKeys(plans);
    MatchesFound(env, IndexKeys(plans), p, d, x);
    assert Unambiguous(env, IndexKeys(plans), p, d);
    SortedDeps(p);
    DepInputListed(env, IndexKeys(plans), p, m, Sort(p.deps, DepName), d);
    r := InputFor(env, IndexKeys(plans), p, m, d);
  }

  // ---------------------------------------------------------------- what a key hashes

  /** The records that are not of dependencies, in order. */
  function OwnRecords(inputs: seq<Input>): seq<Input> {
    if inputs == [] then []
    else (if inputs[0].Own? then [inputs[0]] else []) + OwnRecords(inputs[1..])
  }

  lemma {:induction false} OwnRecordsConcat(a: seq<Input>, b: seq<Input>)
    ensures OwnRecords(a + b) == OwnRecords(a) + OwnRecords(b)
  {
    hide OwnRecords;
    if a == [] {
      NoOwnRecords();
      assert a + b == b;
    } else {
      OwnRecordsConcat(a[1..], b);
      OwnRecordsFirst(a[0], a[1..]);
      OwnRecordsFirst(a[0], a[1..] + b);
      assert [a[0]] + a[1..] == a && [a[0]] + (a[1..] + b) == a + b;
    }
  }

  lemma NoOwnRecords()
    ensures OwnRecords([]) == []
  {
  }

  lemma OwnRecordsFirst(x: Input, rest: seq<Input>)
    ensures OwnRecords([x] + rest) == (if x.Own? then [x] else []) + OwnRecords(rest)
  {
    assert ([x] + rest)[1..] == rest;
  }

  lemma {:induction false} AllOwn(a: seq<Input>)
    requires forall i :: 0 <= i < |a| ==> a[i].Own?
    ensures OwnRecords(a) == a
  {
    if a != [] { AllOwn(a[1..]); }
  }

  lemma {:induction false} NoneOwn(a: seq<Input>)
    requires forall i :: 0 <= i < |a| ==> !a[i].Own?
    ensures OwnRecords(a) == []
  {
    if a != [] { NoneOwn(a[1..]); }
  }

  /** The record of dependency `d` of plan `p`: its own name and target; the key computed
      for the plan it matches, and that plan's name, or else the pinned key; its manifest,
      as a path with a digest when it lies in the repository. */
  ghost predicate RecordOf(env: Env, packages: map<string, Package>, plans: seq<Plan>, p: Plan, d: Dep, r: Input) {
    && r.DepInput? && r.name == d.name && r.target == d.target
    && (forall x :: x in Keys(plans) && Matches(env, p, d, x) ==>
          r.packageKey == Some(x) && x in packages && r.key == packages[x].merkle)
    && ((forall x :: x in Keys(plans) ==> !Matches(env, p, d, x)) ==> r.packageKey == None && r.key == d.key)
    && (d.manifest == "" ==> r.manifest == None && r.manifestSha == None)
    && (d.manifest != "" && !("//plans:" <= d.manifest) ==> r.manifest == Some(d.manifest) && r.manifestSha == None)
    && (forall file :: d.manifest == "//plans:" + file ==>
          r.manifest == Some("plans/" + file) && r.manifestSha == Some(env.fileSha(d.manifest)))
  }

  /** One record per dependency, in the order of their names. */
  ghost predicate DependencyRecords(
    env: Env, packages: map<string, Package>, plans: seq<Plan>, p: Plan, deps: seq<Dep>, records: seq<Input>)
  {
    && multiset(deps) == multiset(p.deps) && |records| == |deps|
    && (forall i, j :: 0 <= i < j < |deps| ==> Le(deps[i].name, deps[j].name))
    && (forall i :: 0 <= i < |deps| ==> RecordOf(env, packages, plans, p, deps[i], records[i]))
  }

  /** At most one committed plan matches a dependency of an accepted plan. */
  lemma OneMatch(env: Env, plans: seq<Plan>, p: Plan, d: Dep, x: string)
    requires Unambiguous(env, IndexKeys(plans), p, d) && x in Keys(plans) && Matches(env, p, d, x)
    ensures MatchOf(env, IndexKeys(plans), p, d) == Some(x)
    ensures forall y :: y in Keys(plans) && Matches(env, p, d, y) ==> y == x
  {
    hide Matches;
    IndexHoldsKeys(plans);
    var found := DependencyPlanKeys(env, IndexKeys(plans), p, d);
    forall y | y in Keys(plans) && Matches(env, p, d, y) ensures |found| == 1 && found[0] == y {
      MatchesFound(env, IndexKeys(plans), p, d, y);
    }
  }

  lemma NoMatch(env: Env, plans: seq<Plan>, p: Plan, d: Dep)
    requires forall x :: x in Keys(plans) ==> !Matches(env, p, d, x)
    ensures MatchOf(env, IndexKeys(plans), p, d) == None
  {
    hide Matches;
    var found := DependencyPlanKeys(env, IndexKeys(plans), p, d);
    IndexHoldsKeys(plans);
    if found != [] {
      MatchesFound(env, IndexKeys(plans), p, d, found[0]);
      assert false;
    }
  }

  lemma InputForIsRecord(env: Env, plans: seq<Plan>, packages: map<string, Package>, p: Plan, d: Dep)
    requires d in p.deps && Links(env, plans, p) <= packages.Keys && Unambiguous(env, IndexKeys(plans), p, d)
    ensures RecordOf(env, packages, plans, p, d, InputFor(env, IndexKeys(plans), p, KeyMap(packages), d))
  {
    hide Matches;
    hide DependencyPlanKeys;
    if x :| x in Keys(plans) && Matches(env, p, d, x) {
      OneMatch(env, plans, p, d, x);
      assert LinksTo(env, p, x) && x in Links(env, plans, p);
    } else {
      NoMatch(env, plans, p, d);
    }
    forall file | d.manifest == "//plans:" + file ensures d.manifest[|"//plans:"|..] == file {}
  }

  lemma {:induction false} DepInputAt(
    env: Env, index: seq<string>, p: Plan, m: map<string, string>, deps: seq<Dep>, i: nat)
    requires i < |deps|
    ensures |DepInputs(env, index, p, m, deps)| == |deps|
    ensures DepInputs(env, index, p, m, deps)[i] == InputFor(env, index, p, m, deps[i])
  {
    if |deps| > 1 { DepInputAt(env, index, p, m, deps[..|deps| - 1], if i < |deps| - 1 then i else 0); }
  }

  /** A key hashes the plan's own records, one record per dependency in the order of
      names, and the wrapper records, and nothing else. */
  lemma KeyHashesRecords(env: Env, plans: seq<Plan>, packages: map<string, Package>, k: string)
    returns (deps: seq<Dep>, records: seq<Input>)
    requires Correct(env, plans, packages) && k in packages
    ensures k in Keys(plans)
    ensures var p := PlanOf(plans, k);
      && DependencyRecords(env, packages, plans, p, deps, records)
      && packages[k].inputs == p.own + records + p.wrappers
      && packages[k].merkle == env.hash(p.own + records + p.wrappers)
  {
    var p, m, index := PlanOf(plans, k), KeyMap(packages), IndexKeys(plans);
    assert CorrectAt(env, plans, p, packages[k], m);
    hide InputFor;
    hide RecordOf;
    hide Unambiguous;
    hide PinAgrees;
    hide CorrectAt;
    deps := Sort(p.deps, DepName);
    SortIsSorted(p.deps, DepName);
    SortedDeps(p);
    records := DepInputs(env, index, p, m, deps);
    if deps != [] { DepInputAt(env, index, p, m, deps, 0); }
    forall i | 0 <= i < |deps| ensures RecordOf(env, packages, plans, p, deps[i], records[i]) {
      assert deps[i] in p.deps;
      DepInputAt(env, index, p, m, deps, i);
      InputForIsRecord(env, plans, packages, p, deps[i]);
    }
  }

  /** The records of a package that are not of dependencies are its plan's own and wrapper records. */
  lemma OwnRecordsHashed(env: Env, plans: seq<Plan>, packages: map<string, Package>, k: string)
    requires Correct(env, plans, packages) && k in packages && WellFormed(PlanOf(plans, k))
    ensures OwnRecords(packages[k].inputs) == PlanOf(plans, k).own + PlanOf(plans, k).wrappers
    ensures |packages[k].inputs| == |PlanOf(plans, k).own| + |PlanOf(plans, k).deps| + |PlanOf(plans, k).wrappers|
  {
    hide Correct;
    hide OwnRecords;
    var p := PlanOf(plans, k);
    var deps, records := KeyHashesRecords(env, plans, packages, k);
    DependencyRecordsAreDeps(env, packages, plans, p, deps, records);
    assert p in plans;
    OwnRecordsOfParts(p.own, records, p.wrappers);
  }

  lemma OwnRecordsOfParts(own: seq<Input>, records: seq<Input>, wrappers: seq<Input>)
    requires forall r :: r in own || r in wrappers ==> r.Own?
    requires forall i :: 0 <= i < |records| ==> !records[i].Own?
    ensures OwnRecords(own + records + wrappers) == own + wrappers
  {
    hide OwnRecords;
    OwnRecordsConcat(own + records, wrappers);
    OwnRecordsConcat(own, records);
    forall i | 0 <= i < |own| ensures own[i].Own? { assert own[i] in own; }
    AllOwn(own);
    AllOwn(wrappers);
    NoneOwn(records);
  }

  lemma DependencyRecordsAreDeps(
    env: Env, packages: map<string, Package>, plans: seq<Plan>, p: Plan, deps: seq<Dep>, records: seq<Input>)
    requires DependencyRecords(env, packages, plans, p, deps, records)
    ensures |records| == |p.deps| && forall i :: 0 <= i < |records| ==> !records[i].Own?
  {
    hide RecordOf;
    assert |deps| == |multiset(deps)| == |p.deps|;
    forall i | 0 <= i < |records| ensures !records[i].Own? {
      RecordIsDep(env, packages, plans, p, deps[i], records[i]);
    }
  }

  lemma RecordIsDep(env: Env, packages: map<string, Package>, plans: seq<Plan>, p: Plan, d: Dep, r: Input)
    requires RecordOf(env, packages, plans, p, d, r)
    ensures r.DepInput?
  {
  }

  /** In a snapshot a pinned key is a placeholder or the key computed for the plan it pins. */
  lemma PinsAgree(env: Env, plans: seq<Plan>, packages: map<string, Package>, k: string, d: Dep, x: string)
    requires Correct(env, plans, packages) && k in packages && d in PlanOf(plans, k).deps
    requires x in Keys(plans) && Matches(env, PlanOf(plans, k), d, x)
    ensures x in packages && ("action://" <= d.key || d.key == packages[x].merkle)
    ensures forall y :: y in Keys(plans) && Matches(env, PlanOf(plans, k), d, y) ==> y == x
    ensures PlanOf(plans, k).valid
  {
    hide Matches;
    hide DependencyPlanKeys;
    var p := PlanOf(plans, k);
    assert CorrectAt(env, plans, p, packages[k], KeyMap(packages));
    assert Unambiguous(env, IndexKeys(plans), p, d) && PinAgrees(env, IndexKeys(plans), p, KeyMap(packages), d);
    OneMatch(env, plans, p, d, x);
    assert LinksTo(env, p, x) && x in Links(env, plans, p);
  }

  ghost predicate OneWord(s: string) { '/' !in s }

  lemma WordsDiffer(a: string, b: string, s: string, t: string)
    requires OneWord(a) && OneWord(b) && a + "/" + s == b + "/" + t
    ensures a == b && s == t
  {
    var x, y := a + "/" + s, b + "/" + t;
    assert x[|a|] == '/' && y[|b|] == '/';
    assert |a| == |b|;
    assert x[..|a|] == a && y[..|b|] == b;
    assert x[|a| + 1..] == s && y[|b| + 1..] == t;
  }

  /** A package key names profile, line and package. */
  lemma PackageKeyNames(p: Plan, q: Plan)
    requires OneWord(p.profile) && OneWord(p.line) && OneWord(q.profile) && OneWord(q.line)
    ensures PackageKey(p) == PackageKey(q) <==> p.profile == q.profile && p.line == q.line && p.package == q.package
  {
    if PackageKey(p) == PackageKey(q) {
      assert PackageKey(p) == p.profile + "/" + (p.line + "/" + p.package);
      assert PackageKey(q) == q.profile + "/" + (q.line + "/" + q.package);
      WordsDiffer(p.profile, q.profile, p.line + "/" + p.package, q.line + "/" + q.package);
      WordsDiffer(p.line, q.line, p.package, q.package);
    }
  }

  /** A dependency matches the plans of its own profile and line whose package it goes by,
      as it is written or normalized, unless its manifest lies elsewhere. */
  lemma MatchesByName(env: Env, p: Plan, d: Dep, q: Plan)
    requires OneWord(p.profile) && OneWord(p.line) && OneWord(q.profile) && OneWord(q.line)
    ensures Matches(env, p, d, PackageKey(q)) <==>
      && q.profile == p.profile && q.line == p.line
      && (d.manifest == "" || "//plans:" <= d.manifest || "action://" <= d.manifest)
      && exists i :: i in env.identifiers(d) && (i == q.package || env.normalize(i) == env.normalize(q.package))
  {
    var key := PackageKey(q);
    if q.profile == p.profile && q.line == p.line {
      assert key[|Prefix(p)|..] == q.package;
    }
    if StartsWith(key, Prefix(p)) {
      var rest := key[|Prefix(p)|..];
      assert key == Prefix(p) + rest;
      assert key == p.profile + "/" + (p.line + "/" + rest) && key == q.profile + "/" + (q.line + "/" + q.package);
      WordsDiffer(p.profile, q.profile, p.line + "/" + rest, q.line + "/" + q.package);
      WordsDiffer(p.line, q.line, rest, q.package);
    }
  }

  /** Equal keys in two repositories bind the inputs of the package and of every
      committed plan it transitively depends on.  The repositories share nothing but the
      hash: their plans and the files their manifests name are their own. */
  lemma {:induction false} EqualKeysBindInputs(
    env: Env, env': Env, plans: seq<Plan>, plans': seq<Plan>, a: map<string, Package>, b: map<string, Package>,
    k: string, k': string, walk: seq<string>)
    requires env.hash == env'.hash && Injective(env.hash)
    requires Correct(env, plans, a) && Correct(env', plans', b)
    requires forall p :: p in plans || p in plans' ==> WellFormed(p)
    requires k in a && k' in b && a[k].merkle == b[k'].merkle
    requires Walk(PlanGraph(env, plans), walk) && walk[0] == k
    ensures a[k].inputs == b[k'].inputs
    ensures var x := walk[|walk| - 1]; |walk| > 1 ==> x in a && x in b && a[x].inputs == b[x].inputs
    decreases |walk|
  {
    assert CorrectAt(env, plans, PlanOf(plans, k), a[k], KeyMap(a));
    assert CorrectAt(env', plans', PlanOf(plans', k'), b[k'], KeyMap(b));
    if |walk| > 1 {
      var x := walk[1];
      assert Edge(PlanGraph(env, plans), k, x);
      var r := LinkHasRecord(env, plans, a, k, x);
      RecordBindsKey(env, plans, a, k, r);
      RecordBindsKey(env', plans', b, k', r);
      assert Walk(PlanGraph(env, plans), walk[1..]);
      EqualKeysBindInputs(env, env', plans, plans', a, b, x, x, walk[1..]);
    }
  }

  /** So the plan's own files, sources, patches, executors and wrappers have the same
      records in both repositories. */
  lemma EqualKeysBindOwnRecords(
    env: Env, env': Env, plans: seq<Plan>, plans': seq<Plan>, a: map<string, Package>, b: map<string, Package>,
    k: string, k': string, walk: seq<string>)
    requires env.hash == env'.hash && Injective(env.hash)
    requires Correct(env, plans, a) && Correct(env', plans', b)
    requires forall p :: p in plans || p in plans' ==> WellFormed(p)
    requires k in a && k' in b && a[k].merkle == b[k'].merkle
    requires Walk(PlanGraph(env, plans), walk) && walk[0] == k
    ensures PlanOf(plans, k).own + PlanOf(plans, k).wrappers == PlanOf(plans', k').own + PlanOf(plans', k').wrappers
    ensures var x := walk[|walk| - 1]; |walk| > 1 ==>
      && x in Keys(plans) && x in Keys(plans')
      && PlanOf(plans, x).own + PlanOf(plans, x).wrappers == PlanOf(plans', x).own + PlanOf(plans', x).wrappers
  {
    EqualKeysBindInputs(env, env', plans, plans', a, b, k, k', walk);
    var x := walk[|walk| - 1];
    assert k in Keys(plans) && k' in Keys(plans') && (|walk| > 1 ==> x in Keys(plans) && x in Keys(plans'));
    hide Correct;
    hide OwnRecords;
    OwnRecordsHashed(env, plans, a, k);
    OwnRecordsHashed(env', plans', b, k');
    if |walk| > 1 {
      OwnRecordsHashed(env, plans, a, x);
      OwnRecordsHashed(env', plans', b, x);
    }
  }

  /** Equal records with a manifest in the repository are of the same manifest and digest. */
  lemma SameRecordSameManifest(
    env: Env, env': Env, index: seq<string>, index': seq<string>, p: Plan, p': Plan,
    m: map<string, string>, m': map<string, string>, d: Dep, d': Dep)
    requires InputFor(env, index, p, m, d) == InputFor(env', index', p', m', d') && IsRepoPlanLabel(d.manifest)
    ensures d'.manifest == d.manifest && env.fileSha(d.manifest) == env'.fileSha(d.manifest)
  {
    hide MatchOf;
    var n := |"//plans:"|;
    assert ("plans/" + d.manifest[n..])[|"plans/"|..] == d.manifest[n..];
    assert ("plans/" + d'.manifest[n..])[|"plans/"|..] == d'.manifest[n..];
    assert d.manifest == d.manifest[..n] + d.manifest[n..];
    assert d'.manifest == d'.manifest[..n] + d'.manifest[n..];
  }

  /** In particular a dependency's manifest file has the same digest in both repositories. */
  lemma EqualKeysBindManifests(
    env: Env, env': Env, plans: seq<Plan>, plans': seq<Plan>, a: map<string, Package>, b: map<string, Package>,
    k: string, k': string, d: Dep)
    requires env.hash == env'.hash && Injective(env.hash)
    requires Correct(env, plans, a) && Correct(env', plans', b)
    requires forall p :: p in plans || p in plans' ==> WellFormed(p)
    requires k in a && k' in b && a[k].merkle == b[k'].merkle
    requires d in PlanOf(plans, k).deps && IsRepoPlanLabel(d.manifest)
    ensures env.fileSha(d.manifest) == env'.fileSha(d.manifest)
  {
    var p, p', index, index' := PlanOf(plans, k), PlanOf(plans', k'), IndexKeys(plans), IndexKeys(plans');
    assert CorrectAt(env, plans, p, a[k], KeyMap(a));
    assert CorrectAt(env', plans', p', b[k'], KeyMap(b));
    hide InputFor;
    hide Sound;
    SortedDeps(p);
    DepInputListed(env, index, p, KeyMap(a), Sort(p.deps, DepName), d);
    var r := InputFor(env, index, p, KeyMap(a), d);
    RecordOfDep(env, index, p, KeyMap(a), d);
    assert r in b[k'].inputs;
    var d' := ListedIsDepInput(env', index', p', KeyMap(b), Sort(p'.deps, DepName), r);
    SameRecordSameManifest(env, env', index, index', p, p', KeyMap(a), KeyMap(b), d, d');
  }

  lemma RecordOfDep(env: Env, index: seq<string>, p: Plan, m: map<string, string>, d: Dep)
    ensures InputFor(env, index, p, m, d).DepInput?
  {
  }
}
