/** The topological order of a build graph: Kahn's algorithm with a name-sorted
    ready list, over nodes that may repeat an edge or depend outside the graph. */
module BuildGraph {
  import opened Common
  import opened Names
  import opened Digraph

  datatype Dep = Dep(name: string, hash: string)
  datatype Node = Node(hash: string, name: string, deps: seq<Dep>)

  function Hashes(nodes: seq<Node>): set<string> {
    set n | n in nodes :: n.hash
  }

  ghost predicate DistinctHashes(nodes: seq<Node>) {
    forall i, j :: 0 <= i < j < |nodes| ==> nodes[i].hash != nodes[j].hash
  }

  /** `a` has an entry that depends on `b`. */
  ghost predicate Requires(nodes: seq<Node>, a: string, b: string) {
    exists n, d :: n in nodes && n.hash == a && d in n.deps && d.hash == b
  }

  /** The in-graph dependency relation. */
  ghost function GraphOf(nodes: seq<Node>): Graph {
    map h | h in Hashes(nodes) :: set d | d in Hashes(nodes) && Requires(nodes, h, d)
  }

  // ---------------------------------------------------------------- orders

  function Members(s: seq<string>): set<string> {
    set x | x in s
  }

  /** Every node once, each after everything it depends on. */
  ghost predicate Topological(g: Graph, o: seq<string>) {
    && Distinct(o) && Members(o) == g.Keys
    && forall i :: 0 <= i < |o| ==> o[i] in g && g[o[i]] <= Members(o[..i])
  }

  /** `a` is `b`, or has the smaller name where they first differ. */
  ghost predicate Precedes(a: seq<string>, b: seq<string>, name: string -> string) {
    a == b || exists i: nat :: FirstDifference(a, b, i) && Le(name(a[i]), name(b[i])) && name(a[i]) != name(b[i])
  }

  ghost predicate FirstDifference(a: seq<string>, b: seq<string>, i: nat) {
    i < |a| && i < |b| && a[..i] == b[..i] && a[i] != b[i]
  }

  ghost predicate DistinctNames(g: Graph, name: string -> string) {
    forall a, b :: a in g && b in g && a != b ==> name(a) != name(b)
  }

  ghost predicate LeastTopological(g: Graph, o: seq<string>, name: string -> string) {
    Topological(g, o) && forall o' :: Topological(g, o') ==> Precedes(o, o', name)
  }

  /** `h` could come next after `done`: it is not there yet, and all it needs is. */
  ghost predicate Available(g: Graph, done: set<string>, h: string) {
    h in g && h !in done && g[h] <= done
  }

  ghost predicate SmallestAvailable(g: Graph, done: set<string>, h: string, name: string -> string) {
    Available(g, done, h) && forall x :: Available(g, done, x) ==> Le(name(h), name(x))
  }

  /** Each element was, when placed, an available node of the smallest name. */
  ghost predicate Greedy(g: Graph, o: seq<string>, name: string -> string) {
    forall i :: 0 <= i < |o| ==> SmallestAvailable(g, Members(o[..i]), o[i], name)
  }

  lemma {:induction false} GreedyDistinct(g: Graph, o: seq<string>, name: string -> string)
    requires Greedy(g, o, name)
    ensures Distinct(o) && Members(o) <= g.Keys
  {
    forall i, j | 0 <= i < j < |o| ensures o[i] != o[j] {
      assert o[..j][i] == o[i];
      assert SmallestAvailable(g, Members(o[..j]), o[j], name);
    }
  }

  lemma FindDifference(a: seq<string>, b: seq<string>) returns (i: nat)
    requires |a| == |b| && a != b
    ensures FirstDifference(a, b, i)
  {
    assert a[..|a|] == a && b[..|b|] == b;
    i := 0;
    while i < |a| && a[i] == b[i]
      invariant i <= |a| && a[..i] == b[..i]
    {
      i := i + 1;
    }
  }

  lemma {:induction false} DistinctLength(o: seq<string>)
    requires Distinct(o)
    ensures |Members(o)| == |o|
  {
    if o != [] {
      var front := o[..|o| - 1];
      DistinctLength(front);
      assert Members(o) == Members(front) + {o[|o| - 1]};
    }
  }

  /** Greedy choice yields the least of all topological orders. */
  lemma GreedyIsLeast(g: Graph, o: seq<string>, name: string -> string)
    requires Greedy(g, o, name) && Members(o) == g.Keys && DistinctNames(g, name)
    ensures LeastTopological(g, o, name)
  {
    GreedyDistinct(g, o, name);
    forall o' | Topological(g, o')
      ensures Precedes(o, o', name)
    {
      if o != o' {
        DistinctLength(o);
        DistinctLength(o');
        var i := FindDifference(o, o');
        assert SmallestAvailable(g, Members(o[..i]), o[i], name);
        assert o'[i] !in Members(o'[..i]);
        assert Available(g, Members(o[..i]), o'[i]);
      }
    }
  }

  lemma SameDifference(a: seq<string>, b: seq<string>, i: nat, j: nat)
    requires FirstDifference(a, b, i) && FirstDifference(b, a, j)
    ensures i == j
  {
    forall k | 0 <= k < i ensures a[k] == b[k] { assert a[..i][k] == b[..i][k]; }
    forall k | 0 <= k < j ensures a[k] == b[k] { assert b[..j][k] == a[..j][k]; }
  }

  /** There is only one least order. */
  lemma LeastIsUnique(g: Graph, a: seq<string>, b: seq<string>, name: string -> string, name': string -> string)
    requires LeastTopological(g, a, name) && LeastTopological(g, b, name')
    requires forall h :: h in g ==> name(h) == name'(h)
    ensures a == b
  {
    if a != b {
      assert Precedes(a, b, name) && Precedes(b, a, name');
      var i: nat :| FirstDifference(a, b, i) && Le(name(a[i]), name(b[i])) && name(a[i]) != name(b[i]);
      var j: nat :| FirstDifference(b, a, j) && Le(name'(b[j]), name'(a[j])) && name'(b[j]) != name'(a[j]);
      assert a[i] in Members(a) && b[i] in Members(b);
      SameDifference(a, b, i, j);
      LeAntisymmetric(name(a[i]), name(b[i]));
    }
  }

  /** Along a walk of dependencies, positions in a topological order go down. */
  lemma {:induction false} WalkDescends(g: Graph, o: seq<string>, p: seq<string>, k: nat) returns (at: nat, start: nat)
    requires Topological(g, o) && Walk(g, p) && k < |p|
    ensures start < |o| && o[start] == p[0] && at < |o| && o[at] == p[k] && at + k <= start
  {
    if k == 0 {
      start :| 0 <= start < |o| && o[start] == p[0];
      at := start;
    } else {
      var prev;
      prev, start := WalkDescends(g, o, p, k - 1);
      assert Edge(g, p[k - 1], p[k]);
      assert p[k] in Members(o[..prev]);
      at :| 0 <= at < prev && o[..prev][at] == p[k];
    }
  }

  lemma OrderedIsAcyclic(g: Graph, o: seq<string>)
    requires Topological(g, o)
    ensures !Cyclic(g)
  {
    if Cyclic(g) {
      var p :| IsCycle(g, p);
      var at, start := WalkDescends(g, o, p, |p| - 1);
    }
  }

  // ---------------------------------------------------------------- in-degrees

  /** Entries of `deps` that are in the graph and not yet done. */
  function Waiting(deps: seq<Dep>, all: set<string>, done: set<string>): nat {
    if deps == [] then 0
    else
      var d := deps[|deps| - 1];
      Waiting(deps[..|deps| - 1], all, done) + (if d.hash in all && d.hash !in done then 1 else 0)
  }

  /** Dependency entries, repeated ones counted, that node `h` still waits for. */
  function InDegree(nodes: seq<Node>, all: set<string>, done: set<string>, h: string): nat {
    if nodes == [] then 0
    else
      var n := nodes[|nodes| - 1];
      InDegree(nodes[..|nodes| - 1], all, done, h) + (if n.hash == h then Waiting(n.deps, all, done) else 0)
  }

  function Entries(deps: seq<Dep>, d: string): nat {
    if deps == [] then 0
    else Entries(deps[..|deps| - 1], d) + (if deps[|deps| - 1].hash == d then 1 else 0)
  }

  /** How many entries make `h` depend on `d`. */
  function EdgeCount(nodes: seq<Node>, d: string, h: string): nat {
    if nodes == [] then 0
    else
      var n := nodes[|nodes| - 1];
      EdgeCount(nodes[..|nodes| - 1], d, h) + (if n.hash == h then Entries(n.deps, d) else 0)
  }

  lemma {:induction false} WaitingDrops(deps: seq<Dep>, all: set<string>, done: set<string>, d: string)
    requires d in all && d !in done
    ensures Waiting(deps, all, done + {d}) == Waiting(deps, all, done) - Entries(deps, d)
  {
    if deps != [] { WaitingDrops(deps[..|deps| - 1], all, done, d); }
  }

  /** Finishing `d` lowers the in-degree of `h` by the number of edges between them. */
  lemma {:induction false} InDegreeDrops(nodes: seq<Node>, all: set<string>, done: set<string>, d: string, h: string)
    requires d in all && d !in done
    ensures InDegree(nodes, all, done + {d}, h) == InDegree(nodes, all, done, h) - EdgeCount(nodes, d, h)
  {
    if nodes != [] {
      InDegreeDrops(nodes[..|nodes| - 1], all, done, d, h);
      WaitingDrops(nodes[|nodes| - 1].deps, all, done, d);
    }
  }

  lemma {:induction false} NoneWaiting(deps: seq<Dep>, all: set<string>, done: set<string>)
    ensures Waiting(deps, all, done) == 0 <==> forall d :: d in deps && d.hash in all ==> d.hash in done
  {
    if deps != [] {
      NoneWaiting(deps[..|deps| - 1], all, done);
      assert deps == deps[..|deps| - 1] + [deps[|deps| - 1]];
    }
  }

  lemma {:induction false} ZeroInDegreeParts(nodes: seq<Node>, all: set<string>, done: set<string>, h: string)
    ensures InDegree(nodes, all, done, h) == 0
       <==> forall n, d :: n in nodes && n.hash == h && d in n.deps && d.hash in all ==> d.hash in done
  {
    if nodes != [] {
      var n := nodes[|nodes| - 1];
      ZeroInDegreeParts(nodes[..|nodes| - 1], all, done, h);
      NoneWaiting(n.deps, all, done);
      assert nodes == nodes[..|nodes| - 1] + [n];
    }
  }

  /** The in-degree is zero exactly when every in-graph dependency is done. */
  lemma ZeroInDegree(nodes: seq<Node>, done: set<string>, h: string)
    requires h in Hashes(nodes)
    ensures InDegree(nodes, Hashes(nodes), done, h) == 0 <==> GraphOf(nodes)[h] <= done
  {
    var all := Hashes(nodes);
    ZeroInDegreeParts(nodes, all, done, h);
    if GraphOf(nodes)[h] <= done {
      forall n, d | n in nodes && n.hash == h && d in n.deps && d.hash in all
        ensures d.hash in done
      {
        assert Requires(nodes, h, d.hash);
      }
    }
  }

  // ---------------------------------------------------------------- Kahn's algorithm

  function NameOf(byHash: map<string, Node>): string -> string {
    h => if h in byHash then byHash[h].name else ""
  }

  ghost predicate CountsDown(indeg: map<string, int>, nodes: seq<Node>, done: set<string>) {
    && indeg.Keys == Hashes(nodes)
    && forall h :: h in indeg ==> indeg[h] == InDegree(nodes, Hashes(nodes), done, h)
  }

  ghost predicate ListsChildren(children: map<string, seq<string>>, nodes: seq<Node>, all: set<string>) {
    && children.Keys == all
    && forall d, h :: d in all ==> multiset(children[d])[h] == EdgeCount(nodes, d, h)
  }

  ghost predicate ListsReady(ready: seq<string>, indeg: map<string, int>, done: set<string>) {
    Distinct(ready) && forall h :: h in ready <==> h in indeg && h !in done && indeg[h] == 0
  }

  /** Halfway through the children of `h`: those in `prefix` have been counted down. */
  ghost predicate Relaxed(indeg: map<string, int>, indeg0: map<string, int>, prefix: seq<string>) {
    && indeg.Keys == indeg0.Keys
    && forall c :: c in indeg ==> indeg[c] == indeg0[c] - multiset(prefix)[c]
  }

  ghost predicate ListsRelaxed(ready: seq<string>, ready0: seq<string>, indeg: map<string, int>, prefix: seq<string>) {
    && Distinct(ready)
    && forall c :: c in ready <==> c in ready0 || (c in prefix && c in indeg && indeg[c] == 0)
  }

  lemma {:induction false} ChildIsNode(nodes: seq<Node>, d: string, h: string)
    requires EdgeCount(nodes, d, h) > 0
    ensures h in Hashes(nodes)
  {
    if nodes[|nodes| - 1].hash != h { ChildIsNode(nodes[..|nodes| - 1], d, h); }
  }

  lemma {:induction false} SameMembersDistinct(a: seq<string>, b: seq<string>)
    requires Distinct(a) && multiset(a) == multiset(b)
    ensures Distinct(b) && forall x :: x in a <==> x in b
  {
    forall x ensures x in a <==> x in b {
      assert x in multiset(a) <==> x in multiset(b);
    }
    forall i, j | 0 <= i < j < |b| ensures b[i] != b[j] {
      if b[i] == b[j] {
        assert multiset(b)[b[i]] >= 2 by {
          assert b == b[..j] + b[j..];
          assert b[..j][i] == b[i] && b[j..][0] == b[j];
        }
        OccursOnce(a, b[i]);
      }
    }
  }

  lemma {:induction false} OccursOnce(a: seq<string>, x: string)
    requires Distinct(a)
    ensures multiset(a)[x] <= 1
  {
    if a != [] {
      var front := a[..|a| - 1];
      OccursOnce(front, x);
      assert a == front + [a[|a| - 1]];
      if x == a[|a| - 1] { assert x !in front; }
    }
  }

  lemma {:induction false} CountWithin(s: seq<string>, k: nat, c: string)
    requires k < |s|
    ensures multiset(s[..k + 1])[c] == multiset(s[..k])[c] + (if s[k] == c then 1 else 0)
    ensures multiset(s[..k + 1])[c] <= multiset(s)[c]
  {
    assert s[..k + 1] == s[..k] + [s[k]];
    assert s == s[..k + 1] + s[k + 1..];
  }

  /** The head of the sorted ready list is an available node of the smallest name. */
  lemma HeadIsSmallest(
    nodes: seq<Node>, indeg: map<string, int>, ready: seq<string>, done: set<string>, name: string -> string)
    requires CountsDown(indeg, nodes, done) && ListsReady(ready, indeg, done)
    requires ready != [] && SortedBy(ready, name)
    ensures SmallestAvailable(GraphOf(nodes), done, ready[0], name)
  {
    ZeroInDegree(nodes, done, ready[0]);
    forall x | Available(GraphOf(nodes), done, x)
      ensures Le(name(ready[0]), name(x))
    {
      ZeroInDegree(nodes, done, x);
      assert x in ready;
      LeTotal(name(x), name(x));
    }
  }

  /** Nothing done waits for anything. */
  lemma DoneIsSettled(nodes: seq<Node>, indeg: map<string, int>, order: seq<string>, name: string -> string, x: string)
    requires Greedy(GraphOf(nodes), order, name) && CountsDown(indeg, nodes, Members(order)) && x in order
    ensures x in indeg && indeg[x] == 0
  {
    var i :| 0 <= i < |order| && order[i] == x;
    assert SmallestAvailable(GraphOf(nodes), Members(order[..i]), x, name);
    ZeroInDegree(nodes, Members(order), x);
  }

  /** The child entries of a ready node have all been counted in. */
  lemma ChildrenCounted(
    nodes: seq<Node>, indeg: map<string, int>, done: set<string>, children: seq<string>, h: string, c: string)
    requires CountsDown(indeg, nodes, done) && h in indeg && h !in done
    requires multiset(children)[c] == EdgeCount(nodes, h, c) && c in children
    ensures c in indeg && indeg[c] >= multiset(children)[c] > 0
  {
    ChildIsNode(nodes, h, c);
    InDegreeDrops(nodes, Hashes(nodes), done, h, c);
  }

  lemma RelaxStep(
    indeg: map<string, int>, indeg0: map<string, int>, cs: seq<string>, k: nat, ready: seq<string>, ready0: seq<string>)
    requires k < |cs| && Relaxed(indeg, indeg0, cs[..k]) && ListsRelaxed(ready, ready0, indeg, cs[..k])
    requires forall c :: c in cs ==> c in indeg0 && c !in ready0 && indeg0[c] >= multiset(cs)[c]
    ensures cs[k] in indeg
    ensures var indeg' := indeg[cs[k] := indeg[cs[k]] - 1];
      && Relaxed(indeg', indeg0, cs[..k + 1])
      && ListsRelaxed(if indeg'[cs[k]] == 0 then ready + [cs[k]] else ready, ready0, indeg', cs[..k + 1])
  {
    var c := cs[k];
    assert c in cs;
    var indeg' := indeg[c := indeg[c] - 1];
    forall x | x in indeg ensures indeg'[x] == indeg0[x] - multiset(cs[..k + 1])[x] { CountWithin(cs, k, x); }
    CountWithin(cs, k, c);
    assert indeg[c] >= 1;
    assert c !in ready;
    forall x ensures x in cs[..k + 1] <==> x in cs[..k] || x == c { assert cs[..k + 1] == cs[..k] + [c]; }
  }

  /** When all children of `h` have been counted down, `h` is done. */
  lemma RelaxEnd(
    nodes: seq<Node>, order: seq<string>, name: string -> string, cs: seq<string>, h: string,
    indeg: map<string, int>, indeg0: map<string, int>, ready: seq<string>, ready0: seq<string>)
    requires Greedy(GraphOf(nodes), order, name)
    requires CountsDown(indeg0, nodes, Members(order)) && ListsReady([h] + ready0, indeg0, Members(order))
    requires forall c :: multiset(cs)[c] == EdgeCount(nodes, h, c)
    requires Relaxed(indeg, indeg0, cs) && ListsRelaxed(ready, ready0, indeg, cs)
    ensures CountsDown(indeg, nodes, Members(order + [h]))
    ensures ListsReady(ready, indeg, Members(order + [h]))
  {
    var done := Members(order);
    assert h in [h] + ready0;
    assert Members(order + [h]) == done + {h};
    forall x | x in indeg ensures indeg[x] == InDegree(nodes, Hashes(nodes), done + {h}, x) {
      InDegreeDrops(nodes, Hashes(nodes), done, h, x);
    }
    forall x ensures x in ready <==> x in indeg && x !in done + {h} && indeg[x] == 0 {
      RelaxEndAt(nodes, order, name, cs, h, indeg, indeg0, ready, ready0, x);
    }
  }

  lemma RelaxEndAt(
    nodes: seq<Node>, order: seq<string>, name: string -> string, cs: seq<string>, h: string,
    indeg: map<string, int>, indeg0: map<string, int>, ready: seq<string>, ready0: seq<string>, x: string)
    requires Greedy(GraphOf(nodes), order, name)
    requires CountsDown(indeg0, nodes, Members(order)) && ListsReady([h] + ready0, indeg0, Members(order))
    requires forall c :: multiset(cs)[c] == EdgeCount(nodes, h, c)
    requires Relaxed(indeg, indeg0, cs) && ListsRelaxed(ready, ready0, indeg, cs)
    ensures x in ready <==> x in indeg && x !in Members(order) + {h} && indeg[x] == 0
  {
    hide Greedy;
    hide CountsDown;
    var done := Members(order);
    assert indeg0[h] == 0 && h !in done by { assert h in [h] + ready0; }
    assert x in [h] + ready0 <==> x == h || x in ready0;
    if x in cs {
      ChildrenCounted(nodes, indeg0, done, cs, h, x);
      assert x !in ready0;
      if x in order { DoneIsSettled(nodes, indeg0, order, name, x); }
    } else {
      assert multiset(cs)[x] == 0;
      if x in ready0 {
        var i :| 0 <= i < |ready0| && ready0[i] == x;
        assert ([h] + ready0)[0] == h && ([h] + ready0)[i + 1] == x;
      }
    }
  }

  /** A node left over when nothing is ready waits for another node left over. */
  lemma LeftoverIsStuck(nodes: seq<Node>, indeg: map<string, int>, done: set<string>)
    requires CountsDown(indeg, nodes, done) && ListsReady([], indeg, done)
    ensures Stuck(GraphOf(nodes), Hashes(nodes) - done)
  {
    var g := GraphOf(nodes);
    forall h | h in Hashes(nodes) - done ensures PointsInto(g, h, Hashes(nodes) - done) {
      ZeroInDegree(nodes, done, h);
      assert !(h in []);
      var d :| d in g[h] && d !in done;
      assert Edge(g, h, d);
    }
  }

  lemma {:induction false} HashCount(nodes: seq<Node>)
    ensures |Hashes(nodes)| <= |nodes|
    ensures |Hashes(nodes)| == |nodes| <==> DistinctHashes(nodes)
  {
    if nodes != [] {
      var front, last := nodes[..|nodes| - 1], nodes[|nodes| - 1];
      HashCount(front);
      assert nodes == front + [last];
      assert Hashes(nodes) == Hashes(front) + {last.hash};
      if last.hash in Hashes(front) {
        assert Hashes(nodes) == Hashes(front);
      }
    }
  }

  ghost predicate CountedSoFar(
    indeg: map<string, int>, children: map<string, seq<string>>, all: set<string>,
    nodes: seq<Node>, n: Node, deps: seq<Dep>)
  {
    && indeg.Keys == all && children.Keys == all
    && (forall h :: h in all ==>
          indeg[h] == InDegree(nodes, all, {}, h) + (if h == n.hash then Waiting(deps, all, {}) else 0))
    && (forall d, h :: d in all ==>
          multiset(children[d])[h] == EdgeCount(nodes, d, h) + (if h == n.hash then Entries(deps, d) else 0))
  }

  lemma CountEntryDeps(n: Node, j: nat, all: set<string>)
    requires j < |n.deps|
    ensures Waiting(n.deps[..j + 1], all, {})
      == Waiting(n.deps[..j], all, {}) + (if n.deps[j].hash in all then 1 else 0)
    ensures forall d :: Entries(n.deps[..j + 1], d) == Entries(n.deps[..j], d) + (if n.deps[j].hash == d then 1 else 0)
  {
    assert n.deps[..j + 1][..j] == n.deps[..j];
  }

  lemma CountEntry(
    indeg: map<string, int>, children: map<string, seq<string>>, all: set<string>,
    nodes: seq<Node>, n: Node, j: nat)
    requires j < |n.deps| && n.hash in all && CountedSoFar(indeg, children, all, nodes, n, n.deps[..j])
    ensures var d := n.deps[j].hash;
      if d in all then
        CountedSoFar(indeg[n.hash := indeg[n.hash] + 1], children[d := children[d] + [n.hash]], all,
                     nodes, n, n.deps[..j + 1])
      else CountedSoFar(indeg, children, all, nodes, n, n.deps[..j + 1])
  {
    hide Waiting;
    hide Entries;
    hide InDegree;
    hide EdgeCount;
    CountEntryDeps(n, j, all);
  }

  lemma CountNode(
    indeg: map<string, int>, children: map<string, seq<string>>, all: set<string>, nodes: seq<Node>, i: nat)
    requires i < |nodes| && CountedSoFar(indeg, children, all, nodes[..i], nodes[i], nodes[i].deps)
    ensures CountedSoFar(indeg, children, all, nodes[..i + 1], Node("", "", []), [])
  {
    assert nodes[..i + 1][..i] == nodes[..i];
  }

  /** The two dictionaries Kahn's algorithm starts from. */
  method CountEdges(nodes: seq<Node>) returns (indeg: map<string, int>, children: map<string, seq<string>>)
    ensures CountsDown(indeg, nodes, {})
    ensures ListsChildren(children, nodes, Hashes(nodes))
  {
    var all := Hashes(nodes);
    indeg := map h | h in all :: 0;
    children := map h | h in all :: [];
    for i := 0 to |nodes|
      invariant CountedSoFar(indeg, children, all, nodes[..i], Node("", "", []), [])
    {
      hide CountedSoFar;
      var n := nodes[i];
      assert n.deps[..0] == [];
      CountRestart(indeg, children, all, nodes[..i], n);
      for j := 0 to |n.deps|
        invariant CountedSoFar(indeg, children, all, nodes[..i], n, n.deps[..j])
      {
        var dh := n.deps[j].hash;
        CountEntry(indeg, children, all, nodes[..i], n, j);
        assert indeg.Keys == all == children.Keys by { CountedKeys(indeg, children, all, nodes[..i], n, n.deps[..j]); }
        if dh !in indeg { continue; }
        indeg := indeg[n.hash := indeg[n.hash] + 1];
        children := children[dh := children[dh] + [n.hash]];
      }
      assert n.deps[..|n.deps|] == n.deps;
      CountNode(indeg, children, all, nodes, i);
    }
    assert nodes[..|nodes|] == nodes;
  }

  lemma CountRestart(
    indeg: map<string, int>, children: map<string, seq<string>>, all: set<string>, nodes: seq<Node>, n: Node)
    requires CountedSoFar(indeg, children, all, nodes, Node("", "", []), [])
    ensures CountedSoFar(indeg, children, all, nodes, n, [])
  {
  }

  lemma CountedKeys(
    indeg: map<string, int>, children: map<string, seq<string>>, all: set<string>,
    nodes: seq<Node>, n: Node, deps: seq<Dep>)
    requires CountedSoFar(indeg, children, all, nodes, n, deps)
    ensures indeg.Keys == all == children.Keys
  {
  }

  /** The keys of `indeg` without dependencies, in the order the keys were inserted. */
  method Roots(nodes: seq<Node>, indeg: map<string, int>) returns (roots: seq<string>)
    requires CountsDown(indeg, nodes, {})
    ensures ListsReady(roots, indeg, {})
  {
    roots := [];
    for i := 0 to |nodes|
      invariant Distinct(roots)
      invariant forall h :: h in roots <==> h in Hashes(nodes[..i]) && indeg[h] == 0
    {
      var h := nodes[i].hash;
      assert Hashes(nodes[..i + 1]) == Hashes(nodes[..i]) + {h};
      if indeg[h] == 0 && h !in roots {
        roots := roots + [h];
      }
    }
    assert nodes[..|nodes|] == nodes;
  }

  /** What an empty ready list means. */
  lemma KahnEnds(nodes: seq<Node>, indeg: map<string, int>, order: seq<string>, name: string -> string)
    requires CountsDown(indeg, nodes, Members(order)) && ListsReady([], indeg, Members(order))
    requires Greedy(GraphOf(nodes), order, name)
    ensures |order| == |nodes| <==> DistinctHashes(nodes) && !Cyclic(GraphOf(nodes))
    ensures |order| == |nodes| ==> Topological(GraphOf(nodes), order)
    ensures |order| == |nodes| && DistinctNames(GraphOf(nodes), name) ==> LeastTopological(GraphOf(nodes), order, name)
  {
    hide CountsDown;
    hide ListsReady;
    hide Cyclic;
    hide LeastTopological;
    var g, all := GraphOf(nodes), Hashes(nodes);
    GreedyDistinct(g, order, name);
    DistinctLength(order);
    HashCount(nodes);
    assert Members(order) <= all == g.Keys;
    if Members(order) == all {
      GreedyIsTopological(g, order, name);
      OrderedIsAcyclic(g, order);
      if DistinctNames(g, name) { GreedyIsLeast(g, order, name); }
    } else {
      SmallerSet(Members(order), all);
      LeftoverIsStuck(nodes, indeg, Members(order));
      StuckIsCyclic(g, all - Members(order));
    }
  }

  lemma StuckIsCyclic(g: Graph, r: set<string>)
    requires Stuck(g, r) && r != {}
    ensures Cyclic(g)
  {
    var n :| n in r;
    StuckReachesCycle(g, r, n);
    var p: seq<string>, i: nat :| IsLasso(g, p, i) && p[0] == n;
    LassoHasCycle(g, p, i);
  }

  lemma SmallerSet(a: set<string>, b: set<string>)
    requires a < b
    ensures |a| < |b| && b - a != {}
  {
    assert b == a + (b - a) && |b - a| > 0;
  }

  lemma GreedyIsTopological(g: Graph, o: seq<string>, name: string -> string)
    requires Greedy(g, o, name) && Members(o) == g.Keys
    ensures Topological(g, o)
  {
    GreedyDistinct(g, o, name);
    forall i | 0 <= i < |o| ensures o[i] in g && g[o[i]] <= Members(o[..i]) {
      assert SmallestAvailable(g, Members(o[..i]), o[i], name);
    }
  }

  lemma GreedyExtends(g: Graph, o: seq<string>, h: string, name: string -> string)
    requires Greedy(g, o, name) && SmallestAvailable(g, Members(o), h, name)
    ensures Greedy(g, o + [h], name)
  {
    var o' := o + [h];
    forall i | 0 <= i < |o'| ensures SmallestAvailable(g, Members(o'[..i]), o'[i], name) {
      if i < |o| { assert o'[..i] == o[..i]; } else { assert o'[..i] == o; }
    }
  }

  lemma NothingOrdered(nodes: seq<Node>, name: string -> string)
    ensures Members([]) == {} && Greedy(GraphOf(nodes), [], name)
  {
  }

  lemma OrderGrows(nodes: seq<Node>, o: seq<string>, h: string, name: string -> string)
    requires Greedy(GraphOf(nodes), o + [h], name)
    ensures Hashes(nodes) - Members(o + [h]) < Hashes(nodes) - Members(o)
  {
    GreedyDistinct(GraphOf(nodes), o + [h], name);
    assert Members(o + [h]) == Members(o) + {h};
    assert (o + [h])[..|o|] == o;
    assert SmallestAvailable(GraphOf(nodes), Members((o + [h])[..|o|]), (o + [h])[|o|], name);
    assert h in Hashes(nodes) - Members(o);
  }

  lemma SortKeepsReady(ready: seq<string>, indeg: map<string, int>, done: set<string>, name: string -> string)
    requires ListsReady(ready, indeg, done)
    ensures ListsReady(Sort(ready, name), indeg, done) && SortedBy(Sort(ready, name), name)
  {
    SortIsSorted(ready, name);
    SameMembersDistinct(ready, Sort(ready, name));
  }

  lemma ReadyIsNode(
    nodes: seq<Node>, indeg: map<string, int>, done: set<string>, ready: seq<string>,
    children: map<string, seq<string>>)
    requires CountsDown(indeg, nodes, done) && ListsReady(ready, indeg, done) && ready != []
    requires ListsChildren(children, nodes, Hashes(nodes))
    ensures ready[0] in children
  {
    assert ready[0] in ready;
  }

  lemma RelaxStart(
    nodes: seq<Node>, order: seq<string>, name: string -> string, ready: seq<string>, indeg: map<string, int>,
    children: map<string, seq<string>>, cs: seq<string>)
    requires Greedy(GraphOf(nodes), order, name)
    requires CountsDown(indeg, nodes, Members(order)) && ready != [] && ListsReady(ready, indeg, Members(order))
    requires ListsChildren(children, nodes, Hashes(nodes))
    ensures ready[0] in children && ready[0] !in order
    ensures var h := ready[0]; multiset(cs) == multiset(children[h]) ==>
      && Relaxed(indeg, indeg, []) && ListsRelaxed(ready[1..], ready[1..], indeg, [])
      && (forall c :: multiset(cs)[c] == EdgeCount(nodes, h, c))
      && (forall c :: c in cs ==> c in indeg && c !in ready[1..] && indeg[c] >= multiset(cs)[c])
  {
    var h, done := ready[0], Members(order);
    assert h in ready;
    if multiset(cs) == multiset(children[h]) {
      forall c | c in cs ensures c in indeg && c !in ready[1..] && indeg[c] >= multiset(cs)[c] {
        ChildrenCounted(nodes, indeg, done, cs, h, c);
      }
    }
  }

  /** Every in-graph dependency first, smallest name first among the available nodes;
      fails exactly when no topological order of distinct nodes exists. */
  method TopoOrder(nodes: seq<Node>, byHash: map<string, Node>) returns (r: Result<seq<string>>)
    requires forall n :: n in nodes ==> n.hash in byHash
    ensures r.Ok? <==> DistinctHashes(nodes) && !Cyclic(GraphOf(nodes))
    ensures r.Ok? ==> Topological(GraphOf(nodes), r.value) && Greedy(GraphOf(nodes), r.value, NameOf(byHash))
    ensures r.Ok? && DistinctNames(GraphOf(nodes), NameOf(byHash))
      ==> LeastTopological(GraphOf(nodes), r.value, NameOf(byHash))
  {
    hide *;
    var indeg, children := CountEdges(nodes);
    var nameOf := NameOf(byHash);
    var roots := Roots(nodes, indeg);
    var ready := Sort(roots, nameOf);
    var order: seq<string> := [];
    NothingOrdered(nodes, nameOf);
    SortKeepsReady(roots, indeg, {}, nameOf);
    while ready != []
      invariant CountsDown(indeg, nodes, Members(order))
      invariant ListsReady(ready, indeg, Members(order))
      invariant SortedBy(ready, nameOf)
      invariant Greedy(GraphOf(nodes), order, nameOf)
      decreases Hashes(nodes) - Members(order)
    {
      HeadIsSmallest(nodes, indeg, ready, Members(order), nameOf);
      var h := ready[0];
      GreedyExtends(GraphOf(nodes), order, h, nameOf);
      ReadyIsNode(nodes, indeg, Members(order), ready, children);
      RelaxStart(nodes, order, nameOf, ready, indeg, children, Sort(children[h], nameOf));
      SortIsSorted(children[h], nameOf);
      ghost var indeg0, order0 := indeg, order;
      assert ready == [h] + ready[1..];
      ready := ready[1..];
      ghost var ready0 := ready;
      order := order + [h];
      var cs := Sort(children[h], nameOf);
      assert cs[..0] == [];
      for k := 0 to |cs|
        invariant Relaxed(indeg, indeg0, cs[..k])
        invariant ListsRelaxed(ready, ready0, indeg, cs[..k])
      {
        var c := cs[k];
        RelaxStep(indeg, indeg0, cs, k, ready, ready0);
        indeg := indeg[c := indeg[c] - 1];
        if indeg[c] == 0 {
          ready := ready + [c];
        }
      }
      assert cs[..|cs|] == cs;
      RelaxEnd(nodes, order0, nameOf, cs, h, indeg, indeg0, ready, ready0);
      SortKeepsReady(ready, indeg, Members(order), nameOf);
      ready := Sort(ready, nameOf);
      OrderGrows(nodes, order0, h, nameOf);
    }
    KahnEnds(nodes, indeg, order, nameOf);
    if |order| != |nodes| {
      return Err;
    }
    return Ok(order);
  }

  // ---------------------------------------------------------------- build_graph

  /** `{n["hash"]: n for n in nodes}`: the last node of a hash wins. */
  function ByHash(nodes: seq<Node>): map<string, Node> {
    if nodes == [] then map[]
    else ByHash(nodes[..|nodes| - 1])[nodes[|nodes| - 1].hash := nodes[|nodes| - 1]]
  }

  lemma {:induction false} ByHashFinds(nodes: seq<Node>)
    ensures ByHash(nodes).Keys == Hashes(nodes)
    ensures forall h :: h in ByHash(nodes) ==> ByHash(nodes)[h] in nodes && ByHash(nodes)[h].hash == h
  {
    if nodes != [] {
      var front, last := nodes[..|nodes| - 1], nodes[|nodes| - 1];
      ByHashFinds(front);
      assert nodes == front + [last];
      assert Hashes(nodes) == Hashes(front) + {last.hash};
    }
  }

  lemma ByHashUnique(nodes: seq<Node>, n: Node)
    requires DistinctHashes(nodes) && n in nodes
    ensures n.hash in ByHash(nodes) && ByHash(nodes)[n.hash] == n
  {
    ByHashFinds(nodes);
  }

  /** The graph, and with distinct hashes every node's name, do not depend on the order of the node list. */
  lemma InputOrderIsIrrelevant(a: seq<Node>, b: seq<Node>)
    requires multiset(a) == multiset(b)
    ensures GraphOf(a) == GraphOf(b)
    ensures DistinctHashes(a) <==> DistinctHashes(b)
    ensures DistinctHashes(a) ==> forall h :: h in GraphOf(a) ==> NameOf(ByHash(a))(h) == NameOf(ByHash(b))(h)
  {
    forall n ensures n in a <==> n in b { assert n in multiset(a) <==> n in multiset(b); }
    assert Hashes(a) == Hashes(b);
    assert |a| == |multiset(a)| == |b|;
    HashCount(a);
    HashCount(b);
    forall x | x in Hashes(a) ensures GraphOf(a)[x] == GraphOf(b)[x] {
      forall y ensures Requires(a, x, y) <==> Requires(b, x, y) {}
    }
    if DistinctHashes(a) {
      forall h | h in GraphOf(a) ensures NameOf(ByHash(a))(h) == NameOf(ByHash(b))(h) {
        var n :| n in a && n.hash == h;
        ByHashUnique(a, n);
        ByHashUnique(b, n);
      }
    }
  }

  /** With distinct hashes and names the order is a function of the set of nodes. */
  lemma OrderIgnoresInputOrder(a: seq<Node>, b: seq<Node>, orderA: seq<string>, orderB: seq<string>)
    requires multiset(a) == multiset(b) && DistinctHashes(a)
    requires LeastTopological(GraphOf(a), orderA, NameOf(ByHash(a)))
    requires LeastTopological(GraphOf(b), orderB, NameOf(ByHash(b)))
    ensures orderA == orderB
  {
    InputOrderIsIrrelevant(a, b);
    LeastIsUnique(GraphOf(a), orderA, orderB, NameOf(ByHash(a)), NameOf(ByHash(b)));
  }

  // ---------------------------------------------------------------- what an order means for the nodes

  ghost predicate DependsOn(n: Node, m: Node) {
    exists d :: d in n.deps && d.hash == m.hash
  }

  /** `m` is placed before `n`. */
  ghost predicate Before(order: seq<string>, m: Node, n: Node) {
    exists i, j :: 0 <= i < j < |order| && order[i] == m.hash && order[j] == n.hash
  }

  /** Nodes each of which depends on the next, and the last on the first. */
  ghost predicate NodeCycle(nodes: seq<Node>, cycle: seq<Node>) {
    && cycle != [] && (forall i :: 0 <= i < |cycle| ==> cycle[i] in nodes)
    && (forall i, j :: 0 <= i < j < |cycle| && j == i + 1 ==> DependsOn(cycle[i], cycle[j]))
    && DependsOn(cycle[|cycle| - 1], cycle[0])
  }

  /** An order of the graph lists every node's hash once, and every node after the nodes it
      depends on. */
  lemma OrderMeans(nodes: seq<Node>, order: seq<string>)
    requires Topological(GraphOf(nodes), order)
    ensures Distinct(order) && forall h :: h in order <==> exists n :: n in nodes && n.hash == h
    ensures forall m, n :: m in nodes && n in nodes && DependsOn(n, m) ==> Before(order, m, n)
  {
    forall h ensures h in order <==> exists n :: n in nodes && n.hash == h {
      assert h in order <==> h in Members(order);
    }
    forall m, n | m in nodes && n in nodes && DependsOn(n, m) ensures Before(order, m, n) {
      assert Requires(nodes, n.hash, m.hash) && m.hash in GraphOf(nodes)[n.hash];
      assert n.hash in Members(order);
      var j :| 0 <= j < |order| && order[j] == n.hash;
      assert m.hash in Members(order[..j]);
      var i :| 0 <= i < j && order[..j][i] == m.hash;
    }
  }

  /** The dependency relation has a cycle exactly if some nodes depend on one another in a circle. */
  lemma CyclicMeans(nodes: seq<Node>)
    ensures Cyclic(GraphOf(nodes)) <==> exists cycle :: NodeCycle(nodes, cycle)
  {
    if Cyclic(GraphOf(nodes)) {
      var p :| IsCycle(GraphOf(nodes), p);
      var cycle := CycleNodes(nodes, p, |p| - 1);
    }
    if cycle :| NodeCycle(nodes, cycle) { CycleHashes(nodes, cycle); }
  }

  lemma {:induction false} CycleNodes(nodes: seq<Node>, p: seq<string>, k: nat) returns (cycle: seq<Node>)
    requires IsCycle(GraphOf(nodes), p) && 0 < k < |p|
    ensures |cycle| == k && cycle[0].hash == p[0] && forall i :: 0 <= i < k ==> cycle[i] in nodes
    ensures forall i, j :: 0 <= i < j < k && j == i + 1 ==> DependsOn(cycle[i], cycle[j])
    ensures exists d :: d in cycle[k - 1].deps && d.hash == p[k]
    ensures k == |p| - 1 ==> NodeCycle(nodes, cycle)
  {
    assert Edge(GraphOf(nodes), p[k - 1], p[k]);
    var n, d :| n in nodes && n.hash == p[k - 1] && d in n.deps && d.hash == p[k];
    if k == 1 {
      cycle := [n];
    } else {
      cycle := CycleNodes(nodes, p, k - 1);
      assert DependsOn(cycle[k - 2], n);
      cycle := cycle + [n];
    }
    if k == |p| - 1 { assert DependsOn(cycle[k - 1], cycle[0]); }
  }

  lemma CycleHashes(nodes: seq<Node>, cycle: seq<Node>)
    requires NodeCycle(nodes, cycle)
    ensures Cyclic(GraphOf(nodes))
  {
    var g, k := GraphOf(nodes), |cycle|;
    var p := seq(k + 1, i requires 0 <= i <= k => if i < k then cycle[i].hash else cycle[0].hash);
    forall i, j | 0 <= i < j < |p| && j == i + 1 ensures Edge(g, p[i], p[j]) {
      var next := if j < k then cycle[j] else cycle[0];
      assert DependsOn(cycle[i], next);
      assert Requires(nodes, p[i], p[j]) && p[i] in Hashes(nodes) && p[j] in Hashes(nodes);
    }
    assert IsCycle(g, p);
  }

  /** Among distinct nodes, the one placed at `i` is first by name of those not placed yet
      all of whose dependencies in the graph are placed. */
  lemma GreedyMeans(nodes: seq<Node>, order: seq<string>, i: nat, n: Node, other: Node)
    requires DistinctHashes(nodes) && n in nodes && other in nodes
    requires Greedy(GraphOf(nodes), order, NameOf(ByHash(nodes))) && i < |order| && order[i] == n.hash
    requires other.hash !in order[..i]
    requires forall m :: m in nodes && DependsOn(other, m) ==> m.hash in order[..i]
    ensures Le(n.name, other.name)
  {
    hide GraphOf;
    hide DistinctHashes;
    var g, done := GraphOf(nodes), Members(order[..i]);
    assert SmallestAvailable(g, done, order[i], NameOf(ByHash(nodes)));
    ByHashUnique(nodes, n);
    ByHashUnique(nodes, other);
    FreeIsAvailable(nodes, order[..i], other);
  }

  lemma FreeIsAvailable(nodes: seq<Node>, placed: seq<string>, n: Node)
    requires DistinctHashes(nodes) && n in nodes && n.hash !in placed
    requires forall m :: m in nodes && DependsOn(n, m) ==> m.hash in placed
    ensures Available(GraphOf(nodes), Members(placed), n.hash)
  {
    var g := GraphOf(nodes);
    forall h | h in g[n.hash] ensures h in Members(placed) {
      var x, d :| x in nodes && x.hash == n.hash && d in x.deps && d.hash == h;
      OneNode(nodes, x, n);
      var m :| m in nodes && m.hash == h;
      assert DependsOn(n, m);
    }
  }

  lemma OneNode(nodes: seq<Node>, a: Node, b: Node)
    requires DistinctHashes(nodes) && a in nodes && b in nodes && a.hash == b.hash
    ensures a == b
  {
  }

  datatype Entry = Entry(topoIndex: nat, package: string, hash: string, deps: seq<Dep>)

  function DepName(d: Dep): string { d.name }

  /** What an entry lists of a dependency: the node's own name when the node is in the graph. */
  function Listed(byHash: map<string, Node>, d: Dep): Dep {
    Dep(if d.hash in byHash then byHash[d.hash].name else d.name, d.hash)
  }

  ghost predicate EntryFor(e: Entry, n: Node, byHash: map<string, Node>) {
    && e.package == n.name && e.hash == n.hash
    && multiset(e.deps) == multiset(seq(|n.deps|, i requires 0 <= i < |n.deps| => Listed(byHash, n.deps[i])))
    && SortedBy(e.deps, DepName)
  }

  /** Every listed dependency on a node of the graph has its own entry at a smaller index. */
  ghost predicate DependenciesComeFirst(entries: seq<Entry>, nodes: seq<Node>) {
    forall i, d :: 0 <= i < |entries| && d in entries[i].deps && d.hash in Hashes(nodes) ==>
      exists j :: 0 <= j < i && entries[j].hash == d.hash
  }

  /** `build_graph`, given whether the native overrides pass the checks made on them after
      the nodes have been ordered. */
  method BuildEntries(nodes: seq<Node>, overridesValid: bool) returns (r: Result<seq<Entry>>)
    ensures r.Ok? <==> DistinctHashes(nodes) && !Cyclic(GraphOf(nodes)) && overridesValid
    ensures r.Ok? ==> EntriesComplete(r.value, nodes) && DependenciesComeFirst(r.value, nodes)
  {
    ByHashFinds(nodes);
    assert forall n :: n in nodes ==> n.hash in Hashes(nodes);
    hide *;
    var byHash := ByHash(nodes);
    var order := TopoOrder(nodes, byHash);
    if order.Err? || !overridesValid { return Err; }
    var entries: seq<Entry> := [];
    NoEntries(order.value, byHash);
    for pos := 0 to |order.value|
      invariant EntriesFollow(entries, order.value[..pos], byHash)
    {
      var h := order.value[pos];
      OrderedIsNode(nodes, order.value, pos);
      var n := byHash[h];
      var deps := seq(|n.deps|, i requires 0 <= i < |n.deps| => Listed(byHash, n.deps[i]));
      var e := Entry(pos, n.name, h, Sort(deps, DepName));
      EntryIsFor(e, n, byHash, pos);
      EntryAppended(nodes, order.value, entries, pos, e);
      entries := entries + [e];
    }
    assert order.value[..|order.value|] == order.value;
    EntriesAreComplete(nodes, order.value, entries);
    EntriesAreOrdered(nodes, order.value, entries);
    return Ok(entries);
  }

  lemma NoEntries(order: seq<string>, byHash: map<string, Node>)
    ensures EntriesFollow([], order[..0], byHash)
  {
  }

  ghost predicate HasEntry(entries: seq<Entry>, n: Node, byHash: map<string, Node>) {
    exists i :: 0 <= i < |entries| && EntryFor(entries[i], n, byHash)
  }

  /** One entry per node, numbered from zero. */
  ghost predicate EntriesComplete(entries: seq<Entry>, nodes: seq<Node>) {
    && |entries| == |nodes|
    && (forall i :: 0 <= i < |entries| ==> entries[i].topoIndex == i)
    && (forall n :: n in nodes ==> HasEntry(entries, n, ByHash(nodes)))
  }

  ghost predicate EntriesFollow(entries: seq<Entry>, order: seq<string>, byHash: map<string, Node>) {
    && |entries| == |order|
    && forall i :: 0 <= i < |order| ==>
         entries[i].topoIndex == i && order[i] in byHash && EntryFor(entries[i], byHash[order[i]], byHash)
  }

  lemma EntryIsFor(e: Entry, n: Node, byHash: map<string, Node>, pos: nat)
    requires e == Entry(pos, n.name, n.hash,
      Sort(seq(|n.deps|, i requires 0 <= i < |n.deps| => Listed(byHash, n.deps[i])), DepName))
    ensures EntryFor(e, n, byHash)
  {
    SortIsSorted(seq(|n.deps|, i requires 0 <= i < |n.deps| => Listed(byHash, n.deps[i])), DepName);
  }

  lemma EntriesAreComplete(nodes: seq<Node>, order: seq<string>, entries: seq<Entry>)
    requires DistinctHashes(nodes) && Topological(GraphOf(nodes), order)
    requires EntriesFollow(entries, order, ByHash(nodes))
    ensures EntriesComplete(entries, nodes)
  {
    hide HasEntry;
    hide EntryFor;
    HashCount(nodes);
    DistinctLength(order);
    assert Members(order) == Hashes(nodes) && |entries| == |nodes|;
    forall n | n in nodes ensures HasEntry(entries, n, ByHash(nodes)) {
      NodeHasEntry(nodes, order, entries, n);
    }
  }

  lemma NodeHasEntry(nodes: seq<Node>, order: seq<string>, entries: seq<Entry>, n: Node)
    requires DistinctHashes(nodes) && Members(order) == Hashes(nodes) && n in nodes
    requires EntriesFollow(entries, order, ByHash(nodes))
    ensures HasEntry(entries, n, ByHash(nodes))
  {
    hide EntryFor;
    ByHashUnique(nodes, n);
    hide DistinctHashes;
    assert n.hash in Members(order);
    var i :| 0 <= i < |order| && order[i] == n.hash;
    assert EntryFor(entries[i], n, ByHash(nodes));
  }

  lemma EntryAppended(nodes: seq<Node>, order: seq<string>, entries: seq<Entry>, pos: nat, e: Entry)
    requires pos < |order| && EntriesFollow(entries, order[..pos], ByHash(nodes)) && e.topoIndex == pos
    requires order[pos] in ByHash(nodes) && EntryFor(e, ByHash(nodes)[order[pos]], ByHash(nodes))
    ensures EntriesFollow(entries + [e], order[..pos + 1], ByHash(nodes))
  {
    hide EntryFor;
    assert order[..pos + 1] == order[..pos] + [order[pos]];
  }

  lemma OrderedIsNode(nodes: seq<Node>, order: seq<string>, pos: nat)
    requires Topological(GraphOf(nodes), order) && pos < |order|
    ensures order[pos] in ByHash(nodes) && ByHash(nodes)[order[pos]].hash == order[pos]
  {
    ByHashFinds(nodes);
    assert order[pos] in Members(order);
  }

  lemma EntriesAreOrdered(nodes: seq<Node>, order: seq<string>, entries: seq<Entry>)
    requires Topological(GraphOf(nodes), order) && EntriesFollow(entries, order, ByHash(nodes))
    ensures DependenciesComeFirst(entries, nodes)
  {
    hide EntryFor;
    ByHashFinds(nodes);
    forall i, d | 0 <= i < |entries| && d in entries[i].deps && d.hash in Hashes(nodes)
      ensures exists j :: 0 <= j < i && entries[j].hash == d.hash
    {
      var j := DependencyIsEarlier(nodes, order, entries, i, d);
    }
  }

  lemma DependencyIsEarlier(nodes: seq<Node>, order: seq<string>, entries: seq<Entry>, i: nat, d: Dep) returns (j: nat)
    requires Topological(GraphOf(nodes), order) && EntriesFollow(entries, order, ByHash(nodes))
    requires i < |entries| && d in entries[i].deps && d.hash in Hashes(nodes)
    ensures j < i && entries[j].hash == d.hash
  {
    ByHashFinds(nodes);
    ListedFrom(entries[i], ByHash(nodes)[order[i]], ByHash(nodes), d);
    assert Requires(nodes, order[i], d.hash);
    assert d.hash in Members(order[..i]);
    j :| 0 <= j < i && order[..i][j] == d.hash;
    assert EntryFor(entries[j], ByHash(nodes)[order[j]], ByHash(nodes));
  }

  lemma ListedFrom(e: Entry, n: Node, byHash: map<string, Node>, d: Dep)
    requires EntryFor(e, n, byHash) && d in e.deps
    ensures exists x :: x in n.deps && x.hash == d.hash
  {
    var listed := seq(|n.deps|, i requires 0 <= i < |n.deps| => Listed(byHash, n.deps[i]));
    assert d in multiset(e.deps);
    assert d in listed;
    var i :| 0 <= i < |n.deps| && listed[i] == d;
    assert n.deps[i] in n.deps;
  }

  /** An entry lists each dependency of its node under its hash: with the name of the node
      of that hash when there is one, else with the name the dependency gives. */
  lemma EntriesNameDependencies(entries: seq<Entry>, nodes: seq<Node>, n: Node, d: Dep) returns (e: Entry)
    requires EntriesComplete(entries, nodes) && DistinctHashes(nodes) && n in nodes && d in n.deps
    ensures e in entries && e.hash == n.hash && e.package == n.name && |e.deps| == |n.deps|
    ensures forall m :: m in nodes && m.hash == d.hash ==> Dep(m.name, d.hash) in e.deps
    ensures (forall m :: m in nodes ==> m.hash != d.hash) ==> d in e.deps
  {
    assert HasEntry(entries, n, ByHash(nodes));
    var i :| 0 <= i < |entries| && EntryFor(entries[i], n, ByHash(nodes));
    e := entries[i];
    var listed := seq(|n.deps|, j requires 0 <= j < |n.deps| => Listed(ByHash(nodes), n.deps[j]));
    assert |e.deps| == |multiset(e.deps)| == |multiset(listed)| == |listed|;
    var j :| 0 <= j < |n.deps| && n.deps[j] == d;
    assert listed[j] in multiset(listed);
    ByHashFinds(nodes);
    assert Listed(ByHash(nodes), d) in e.deps;
    forall m | m in nodes && m.hash == d.hash ensures Dep(m.name, d.hash) in e.deps { ByHashUnique(nodes, m); }
  }
}
