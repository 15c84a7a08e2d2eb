/** Finite directed graphs over named nodes: walks and cycles. */
module Digraph {

  /** Maps each node to the nodes it points to; a target need not be a node. */
  type Graph = map<string, set<string>>

  ghost predicate Edge(g: Graph, a: string, b: string) {
    a in g && b in g && b in g[a]
  }

  ghost predicate Walk(g: Graph, p: seq<string>) {
    && p != [] && p[0] in g
    && forall i, j :: 0 <= i < j < |p| && j == i + 1 ==> Edge(g, p[i], p[j])
  }

  ghost predicate IsCycle(g: Graph, p: seq<string>) {
    |p| >= 2 && Walk(g, p) && p[0] == p[|p| - 1]
  }

  ghost predicate Cyclic(g: Graph) {
    exists p :: IsCycle(g, p)
  }

  /** A walk whose last node occurs earlier at index `i`. */
  ghost predicate IsLasso(g: Graph, p: seq<string>, i: nat) {
    Walk(g, p) && i < |p| - 1 && p[i] == p[|p| - 1]
  }

  ghost predicate ReachesCycle(g: Graph, n: string) {
    exists p: seq<string>, i: nat :: IsLasso(g, p, i) && p[0] == n
  }

  lemma LassoHasCycle(g: Graph, p: seq<string>, i: nat)
    requires IsLasso(g, p, i)
    ensures IsCycle(g, p[i..])
  {
    assert Edge(g, p[i], p[i + 1]);
  }

  lemma CyclicIffReached(g: Graph)
    ensures Cyclic(g) <==> exists n :: n in g && ReachesCycle(g, n)
  {
    if Cyclic(g) {
      var p :| IsCycle(g, p);
      assert IsLasso(g, p, 0);
      assert p[0] in g && ReachesCycle(g, p[0]);
    }
    if n :| n in g && ReachesCycle(g, n) {
      var p: seq<string>, i: nat :| IsLasso(g, p, i) && p[0] == n;
      LassoHasCycle(g, p, i);
    }
  }

  ghost predicate Distinct(p: seq<string>) {
    forall i, j :: 0 <= i < j < |p| ==> p[i] != p[j]
  }

  lemma {:induction false} DistinctFits(p: seq<string>, r: set<string>)
    requires Distinct(p) && forall i :: 0 <= i < |p| ==> p[i] in r
    ensures |p| <= |r|
  {
    if p != [] {
      var last := p[|p| - 1];
      DistinctFits(p[..|p| - 1], r - {last});
    }
  }

  ghost predicate PointsInto(g: Graph, n: string, r: set<string>) {
    exists d :: Edge(g, n, d) && d in r
  }

  /** `r` is stuck: each of its nodes points to one of its nodes. */
  ghost predicate Stuck(g: Graph, r: set<string>) {
    forall n :: n in r ==> PointsInto(g, n, r)
  }

  lemma Successor(g: Graph, r: set<string>, n: string) returns (d: string)
    requires PointsInto(g, n, r)
    ensures Edge(g, n, d) && d in r
  {
    d :| Edge(g, n, d) && d in r;
  }

  /** From every node of a stuck set a cycle can be reached. */
  lemma StuckReachesCycle(g: Graph, r: set<string>, n: string)
    requires Stuck(g, r) && n in r
    ensures ReachesCycle(g, n)
  {
    hide PointsInto;
    var d := Successor(g, r, n);
    var p, i := FindLasso(g, r, [n]);
  }

  lemma {:induction false} FindLasso(g: Graph, r: set<string>, p: seq<string>) returns (q: seq<string>, i: nat)
    requires Stuck(g, r) && Walk(g, p) && Distinct(p)
    requires forall k :: 0 <= k < |p| ==> p[k] in r
    ensures IsLasso(g, q, i) && q[0] == p[0]
    decreases |r| - |p|
  {
    hide PointsInto;
    hide Edge;
    DistinctFits(p, r);
    var last := p[|p| - 1];
    var d := Successor(g, r, last);
    q := p + [d];
    if j :| 0 <= j < |p| && p[j] == d {
      i := j;
    } else {
      DistinctFits(q, r);
      q, i := FindLasso(g, r, q);
    }
  }

  /** A walk into a cycle can be prolonged at will. */
  lemma {:induction false} LassoProlongs(g: Graph, p: seq<string>, i: nat, extra: nat) returns (q: seq<string>)
    requires IsLasso(g, p, i)
    ensures Walk(g, q) && q[0] == p[0] && |q| == |p| + extra
    decreases extra
  {
    if extra == 0 {
      q := p;
    } else {
      q := LassoProlongs(g, p + [p[i + 1]], i + 1, extra - 1);
    }
  }
}
