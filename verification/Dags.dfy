/** Directed graphs whose edges run from smaller to larger positions, with a cost at every node. */
module Dags {
  import opened Sequences

  datatype Dag = Dag(n: nat, edge: (nat, nat) -> bool, cost: nat -> nat)

  predicate Edge(g: Dag, i: nat, j: nat) {
    i < j < g.n && g.edge(i, j)
  }

  /** The targets of edges leaving i, below bound, in increasing order. */
  function SuccsUpTo(g: Dag, i: nat, bound: nat): (s: seq<nat>)
    ensures InRange(s, g.n)
  {
    if bound == 0 then []
    else SuccsUpTo(g, i, bound - 1) + if Edge(g, i, bound - 1) then [bound - 1] else []
  }

  /** The sources of edges entering j, below bound, in increasing order. */
  function PredsUpTo(g: Dag, j: nat, bound: nat): (s: seq<nat>)
    ensures InRange(s, g.n)
  {
    if bound == 0 then []
    else PredsUpTo(g, j, bound - 1) + if Edge(g, bound - 1, j) then [bound - 1] else []
  }

  function Succs(g: Dag, i: nat): (s: seq<nat>)
    ensures InRange(s, g.n)
  {
    SuccsUpTo(g, i, g.n)
  }

  function Preds(g: Dag, j: nat): (s: seq<nat>)
    ensures InRange(s, g.n)
  {
    PredsUpTo(g, j, g.n)
  }

  lemma {:induction false} SuccsUpToMembers(g: Dag, i: nat, bound: nat)
    ensures forall x: nat :: x in SuccsUpTo(g, i, bound) <==> x < bound && Edge(g, i, x)
  {
    if bound > 0 { SuccsUpToMembers(g, i, bound - 1); }
  }

  lemma {:induction false} PredsUpToMembers(g: Dag, j: nat, bound: nat)
    ensures forall x: nat :: x in PredsUpTo(g, j, bound) <==> x < bound && Edge(g, x, j)
  {
    if bound > 0 { PredsUpToMembers(g, j, bound - 1); }
  }

  lemma SuccsMembers(g: Dag, i: nat)
    ensures forall x: nat :: x in Succs(g, i) <==> Edge(g, i, x)
  {
    SuccsUpToMembers(g, i, g.n);
  }

  lemma PredsMembers(g: Dag, j: nat)
    ensures forall x: nat :: x in Preds(g, j) <==> Edge(g, x, j)
  {
    PredsUpToMembers(g, j, g.n);
  }

  // ---- Paths ----

  ghost predicate Path(g: Dag, p: seq<nat>) {
    && |p| > 0
    && InRange(p, g.n)
    && forall t :: 0 < t < |p| ==> Edge(g, p[t - 1], p[t])
  }

  function First(p: seq<nat>): nat
    requires |p| > 0
  {
    p[0]
  }

  function Last(p: seq<nat>): nat
    requires |p| > 0
  {
    p[|p| - 1]
  }

  ghost predicate Reaches(g: Dag, i: nat, j: nat) {
    exists p :: Path(g, p) && First(p) == i && Last(p) == j
  }

  /** Latencies of the listed instructions added up. */
  function Total(g: Dag, p: seq<nat>): nat
    requires InRange(p, g.n)
  {
    if p == [] then 0 else Total(g, p[..|p| - 1]) + g.cost(Last(p))
  }

  /** d is the largest latency sum over the paths that end in i, not counting i. */
  ghost predicate IsDepth(g: Dag, i: nat, d: int) {
    && (forall p :: Path(g, p) && Last(p) == i ==> Total(g, p[..|p| - 1]) <= d)
    && (exists p :: Path(g, p) && Last(p) == i && Total(g, p[..|p| - 1]) == d)
  }

  /** h is the largest latency sum over the paths that start in i, counting i. */
  ghost predicate IsHeight(g: Dag, i: nat, h: int) {
    && (forall p :: Path(g, p) && First(p) == i ==> Total(g, p) <= h)
    && (exists p :: Path(g, p) && First(p) == i && Total(g, p) == h)
  }

  ghost predicate AreHeights(g: Dag, heights: seq<int>) {
    |heights| == g.n && forall i :: 0 <= i < g.n ==> IsHeight(g, i, heights[i])
  }

  lemma PathAppend(g: Dag, p: seq<nat>, j: nat)
    requires Path(g, p) && Edge(g, Last(p), j)
    ensures Path(g, p + [j]) && First(p + [j]) == First(p) && Last(p + [j]) == j
    ensures (p + [j])[..|p|] == p && Total(g, p + [j]) == Total(g, p) + g.cost(j)
  {
    assert (p + [j])[..|p|] == p;
  }

  lemma {:induction false} TotalPrepend(g: Dag, i: nat, p: seq<nat>)
    requires i < g.n && InRange(p, g.n)
    ensures Total(g, [i] + p) == g.cost(i) + Total(g, p)
  {
    if p == [] {
      assert [i] + p == [i];
      assert Total(g, [i]) == Total(g, []) + g.cost(i);
    } else {
      TotalPrepend(g, i, p[..|p| - 1]);
      assert ([i] + p)[..|p|] == [i] + p[..|p| - 1];
    }
  }

  lemma PathPrepend(g: Dag, i: nat, p: seq<nat>)
    requires Path(g, p) && Edge(g, i, First(p))
    ensures Path(g, [i] + p) && First([i] + p) == i && Last([i] + p) == Last(p)
    ensures Total(g, [i] + p) == g.cost(i) + Total(g, p)
  {
    TotalPrepend(g, i, p);
  }

  // ---- Legal orders ----

  /** A reordering of the whole block in which no edge points backwards. */
  ghost predicate LinearExtension(g: Dag, order: seq<nat>) {
    && IsPermutation(order, g.n)
    && forall s, t :: 0 <= s < t < |order| ==> !Edge(g, order[t], order[s])
  }

  lemma {:induction false} PathKeepsOrder(g: Dag, order: seq<nat>, p: seq<nat>)
    requires LinearExtension(g, order) && Path(g, p) && |p| > 1
    ensures Before(order, First(p), Last(p))
    decreases |p|
  {
    var n := |p| - 1;
    var x, y := p[n - 1], p[n];
    assert x in order && y in order;
    var t :| 0 <= t < |order| && order[t] == y;
    var s :| 0 <= s < |order| && order[s] == x;
    assert s < t;
    if n > 1 {
      PathKeepsOrder(g, order, p[..n]);
      var k, l :| 0 <= k < l < |order| && order[k] == First(p) && order[l] == x;
      assert l == s;
    }
  }

  // ---- Exactness: an uncovered pair can be turned around ----

  ghost predicate Above(g: Dag, k: nat, j: nat) {
    k < g.n && Reaches(g, k, j)
  }

  /** The positions below bound that do (or do not) lead to j, in increasing order. */
  ghost function Part(g: Dag, j: nat, bound: nat, above: bool): (s: seq<nat>)
    ensures forall x: nat :: x in s <==> x < bound && (Above(g, x, j) <==> above)
    ensures forall u :: 0 <= u < |s| ==> s[u] < bound
    ensures forall u, v :: 0 <= u < v < |s| ==> s[u] < s[v]
  {
    if bound == 0 then []
    else Part(g, j, bound - 1, above) + if Above(g, bound - 1, j) == above then [bound - 1] else []
  }

  lemma {:induction false} PartSizes(g: Dag, j: nat, bound: nat)
    ensures |Part(g, j, bound, true)| + |Part(g, j, bound, false)| == bound
  {
    if bound > 0 {
      PartSizes(g, j, bound - 1);
    }
  }

  /** Everything j needs, then the rest. */
  ghost function HoistOrder(g: Dag, j: nat): seq<nat> {
    Part(g, j, g.n, true) + Part(g, j, g.n, false)
  }

  lemma HoistIsPermutation(g: Dag, j: nat)
    ensures IsPermutation(HoistOrder(g, j), g.n)
  {
    var up, rest := Part(g, j, g.n, true), Part(g, j, g.n, false);
    PartSizes(g, j, g.n);
    forall x: nat | x < g.n ensures x in up + rest {
      assert x in up || x in rest;
    }
    forall s, t | 0 <= s < t < g.n ensures (up + rest)[s] != (up + rest)[t] {
      if s < |up| <= t {
        assert up[s] in up && rest[t - |up|] in rest;
      }
    }
  }

  lemma NoEdgeIntoHoisted(g: Dag, j: nat, x: nat, y: nat)
    requires Above(g, x, j) && !Above(g, y, j)
    ensures !Edge(g, y, x)
  {
    if Edge(g, y, x) {
      var p :| Path(g, p) && First(p) == x && Last(p) == j;
      PathPrepend(g, y, p);
    }
  }

  lemma HoistIsLegal(g: Dag, j: nat)
    ensures LinearExtension(g, HoistOrder(g, j))
  {
    HoistIsPermutation(g, j);
    var up, rest := Part(g, j, g.n, true), Part(g, j, g.n, false);
    var order := HoistOrder(g, j);
    forall s, t | 0 <= s < t < |order| ensures !Edge(g, order[t], order[s]) {
      if t < |up| {
        assert order[s] == up[s] < up[t] == order[t];
      } else if s >= |up| {
        assert order[s] == rest[s - |up|] < rest[t - |up|] == order[t];
      } else {
        assert up[s] in up && rest[t - |up|] in rest;
        NoEdgeIntoHoisted(g, j, up[s], rest[t - |up|]);
      }
    }
  }

  lemma HoistReverses(g: Dag, i: nat, j: nat)
    requires i < j < g.n && !Reaches(g, i, j)
    ensures Before(HoistOrder(g, j), j, i) && !Before(HoistOrder(g, j), i, j)
  {
    var up, rest := Part(g, j, g.n, true), Part(g, j, g.n, false);
    var self: seq<nat> := [j];
    assert Path(g, self) && First(self) == j && Last(self) == j;
    assert Above(g, j, j);
    assert j in up && i in rest;
    var s :| 0 <= s < |up| && up[s] == j;
    var t :| 0 <= t < |rest| && rest[t] == i;
    var order := HoistOrder(g, j);
    assert order[s] == j && order[|up| + t] == i;
    HoistIsLegal(g, j);
  }
}
