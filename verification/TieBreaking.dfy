/** Which instruction a greedy order issues at each moment, ties included, without the ready list. */
module TieBreaking {
  import opened MachineIR
  import opened Sequences
  import opened Dags
  import opened DependencyGraph
  import opened GreedyOrder
  import opened Hazards

  /** One past the place of the last issued predecessor, and 0 while none is issued. */
  function Moment(g: Dag, done: seq<nat>, j: nat): nat {
    if done == [] then 0
    else if Edge(g, Last(done), j) then |done|
    else Moment(g, done[..|done| - 1], j)
  }

  /** Everything x waits for is issued and x is not. */
  ghost predicate Waiting(g: Dag, done: seq<nat>, x: nat) {
    x < g.n && x !in done && forall p: nat :: Edge(g, p, x) ==> p in done
  }

  /** x became ready before y, or with it and stands before it in the block. */
  predicate Earlier(g: Dag, done: seq<nat>, x: nat, y: nat) {
    || Moment(g, done, x) < Moment(g, done, y)
    || (Moment(g, done, x) == Moment(g, done, y) && x < y)
  }

  /** By the longest way to go, then the highest latency, then the earliest moment, then the smallest position. */
  predicate GoesFirst(g: Dag, heights: seq<int>, done: seq<nat>, x: nat, y: nat)
    requires x < g.n && y < g.n && |heights| == g.n
  {
    || heights[x] > heights[y]
    || (heights[x] == heights[y]
        && (|| g.cost(x) > g.cost(y)
            || (g.cost(x) == g.cost(y) && Earlier(g, done, x, y))))
  }

  ghost predicate IsPick(g: Dag, heights: seq<int>, done: seq<nat>, x: nat)
    requires |heights| == g.n
  {
    && Waiting(g, done, x)
    && forall y: nat :: Waiting(g, done, y) && y != x ==> GoesFirst(g, heights, done, x, y)
  }

  // ---- The ready list is sorted by moment and position ----

  ghost predicate Sorted(g: Dag, done: seq<nat>, list: seq<nat>) {
    forall u, v :: 0 <= u < v < |list| ==> Earlier(g, done, list[u], list[v])
  }

  lemma {:induction false} MomentAtMostLength(g: Dag, done: seq<nat>, j: nat)
    ensures Moment(g, done, j) <= |done|
  {
    if done != [] { MomentAtMostLength(g, done[..|done| - 1], j); }
  }

  lemma MomentStays(g: Dag, before: seq<nat>, k: nat, x: nat)
    requires !Edge(g, k, x)
    ensures Moment(g, before + [k], x) == Moment(g, before, x) <= |before|
  {
    assert (before + [k])[..|before|] == before;
    MomentAtMostLength(g, before, x);
  }

  lemma {:induction false} RootsAscend(g: Dag, bound: nat)
    requires bound <= g.n
    ensures forall u, v :: 0 <= u < v < |RootsUpTo(g, bound)| ==> RootsUpTo(g, bound)[u] < RootsUpTo(g, bound)[v]
  {
    if bound > 0 {
      RootsAscend(g, bound - 1);
      RootsUpToMembers(g, bound - 1);
      var front := RootsUpTo(g, bound - 1);
      forall u | 0 <= u < |front| ensures front[u] < bound - 1 { assert front[u] in front; }
    }
  }

  lemma {:induction false} SuccsAscend(g: Dag, i: nat, bound: nat)
    ensures forall u, v :: 0 <= u < v < |SuccsUpTo(g, i, bound)| ==>
              SuccsUpTo(g, i, bound)[u] < SuccsUpTo(g, i, bound)[v]
  {
    if bound > 0 {
      SuccsAscend(g, i, bound - 1);
      SuccsUpToMembers(g, i, bound - 1);
      var front := SuccsUpTo(g, i, bound - 1);
      forall u | 0 <= u < |front| ensures front[u] < bound - 1 { assert front[u] in front; }
    }
  }

  lemma {:induction false} WithoutIsCut(s: seq<nat>, k: nat) returns (i: nat)
    requires k in s
    ensures i < |s| && s[i] == k && Without(s, k) == s[..i] + s[i + 1..]
  {
    if s[0] == k {
      i := 0;
    } else {
      i := WithoutIsCut(s[1..], k);
      assert [s[0]] + s[1..][..i] == s[..i + 1];
      i := i + 1;
    }
  }

  lemma WithoutStaysSorted(g: Dag, done: seq<nat>, list: seq<nat>, k: nat)
    requires Sorted(g, done, list) && k in list
    ensures Sorted(g, done, Without(list, k))
  {
    var i := WithoutIsCut(list, k);
    var rest := Without(list, k);
    forall u, v | 0 <= u < v < |rest| ensures Earlier(g, done, rest[u], rest[v]) {
      assert rest[u] == list[if u < i then u else u + 1];
      assert rest[v] == list[if v < i then v else v + 1];
    }
  }

  /** What is listed already became ready before the last step. */
  ghost predicate AllOlder(g: Dag, done: seq<nat>, list: seq<nat>) {
    forall x :: x in list ==> Moment(g, done, x) < |done|
  }

  lemma {:induction false} AddReadyStaysSorted(g: Dag, ready: seq<nat>, done: seq<nat>, candidates: seq<nat>)
    requires done != [] && Sorted(g, done, ready) && AllOlder(g, done, ready)
    requires forall c: nat :: c in candidates ==> Edge(g, Last(done), c)
    requires forall u, v :: 0 <= u < v < |candidates| ==> candidates[u] < candidates[v]
    ensures Sorted(g, done, AddReady(g, ready, done, candidates))
    ensures forall x :: x in AddReady(g, ready, done, candidates) ==> x in ready || x in candidates
    decreases |candidates|
  {
    if candidates != [] {
      var n := |candidates| - 1;
      var r, c := AddReady(g, ready, done, candidates[..n]), candidates[n];
      AddReadyStaysSorted(g, ready, done, candidates[..n]);
      assert c in candidates && Moment(g, done, c) == |done|;
      forall u | 0 <= u < |r| ensures Earlier(g, done, r[u], c) {
        assert r[u] in r;
        if r[u] in candidates[..n] {
          assert r[u] in candidates && Moment(g, done, r[u]) == |done|;
        }
      }
    }
  }

  lemma SortedSurvivesStep(g: Dag, ready: seq<nat>, before: seq<nat>, k: nat)
    requires ListsReady(g, ready, before) && Sorted(g, before, ready) && k in ready
    ensures Sorted(g, before + [k], AddReady(g, Without(ready, k), before + [k], Succs(g, k)))
  {
    var done, rest := before + [k], Without(ready, k);
    WithoutStaysSorted(g, before, ready, k);
    WithoutMembers(ready, k);
    forall x | x in rest ensures Moment(g, done, x) == Moment(g, before, x) <= |before| {
      assert IsReady(g, x, before) && IsReady(g, k, before);
      PredsMembers(g, x);
      MomentStays(g, before, k, x);
    }
    forall u, v | 0 <= u < v < |rest| ensures Earlier(g, done, rest[u], rest[v]) {
      assert rest[u] in rest && rest[v] in rest && Earlier(g, before, rest[u], rest[v]);
    }
    SuccsMembers(g, k);
    SuccsAscend(g, k, g.n);
    AddReadyStaysSorted(g, rest, done, Succs(g, k));
  }

  /** At every moment the ready list is sorted by the moment of becoming ready and, within it, by position. */
  lemma {:induction false} ReadyListIsSorted(g: Dag, heights: seq<int>, done: seq<nat>)
    requires IsGreedyPrefix(g, heights, done)
    ensures Sorted(g, done, ReadyAfter(g, done))
    decreases |done|
  {
    if done == [] {
      RootsAscend(g, g.n);
    } else {
      var before, k := done[..|done| - 1], Last(done);
      ReadyListIsSorted(g, heights, before);
      ReadyListIsExact(g, heights, before);
      SortedSurvivesStep(g, ReadyAfter(g, before), before, k);
      assert done == before + [k];
    }
  }

  // ---- Greedy orders, without the ready list ----

  lemma ReadyMeansWaiting(g: Dag, done: seq<nat>, x: nat)
    ensures IsReady(g, x, done) <==> Waiting(g, done, x)
  {
    PredsMembers(g, x);
  }

  lemma BestIsPick(g: Dag, heights: seq<int>, done: seq<nat>, ready: seq<nat>, x: nat)
    requires |heights| == g.n && ListsReady(g, ready, done) && Sorted(g, done, ready)
    ensures IsBest(g, heights, ready, x) <==> IsPick(g, heights, done, x)
  {
    forall y: nat ensures y in ready <==> Waiting(g, done, y) { ReadyMeansWaiting(g, done, y); }
    if IsBest(g, heights, ready, x) { BestGoesFirst(g, heights, done, ready, x); }
    if IsPick(g, heights, done, x) { PickIsFirstOfBest(g, heights, done, ready, x); }
  }

  lemma BestGoesFirst(g: Dag, heights: seq<int>, done: seq<nat>, ready: seq<nat>, x: nat)
    requires |heights| == g.n && Sorted(g, done, ready) && IsBest(g, heights, ready, x)
    requires forall y: nat :: y in ready <==> Waiting(g, done, y)
    ensures IsPick(g, heights, done, x)
  {
    var k :| 0 <= k < |ready| && ready[k] == x
             && (forall j :: 0 <= j < |ready| ==> !Better(g, heights, ready[j], x))
             && (forall j :: 0 <= j < k ==> Better(g, heights, x, ready[j]));
    assert x in ready;
    forall y: nat | Waiting(g, done, y) && y != x ensures GoesFirst(g, heights, done, x, y) {
      var j :| 0 <= j < |ready| && ready[j] == y;
      if j > k { assert Earlier(g, done, ready[k], ready[j]); }
    }
  }

  lemma PickIsFirstOfBest(g: Dag, heights: seq<int>, done: seq<nat>, ready: seq<nat>, x: nat)
    requires |heights| == g.n && Sorted(g, done, ready) && IsPick(g, heights, done, x)
    requires forall y: nat :: y in ready <==> Waiting(g, done, y)
    ensures IsBest(g, heights, ready, x)
  {
    var k :| 0 <= k < |ready| && ready[k] == x;
    forall j | 0 <= j < |ready| ensures ready[j] < g.n && !Better(g, heights, ready[j], x)
    {
      assert ready[j] in ready;
      if ready[j] != x { assert GoesFirst(g, heights, done, x, ready[j]); }
    }
    forall j | 0 <= j < k ensures Better(g, heights, x, ready[j]) {
      assert ready[j] in ready && Earlier(g, done, ready[j], ready[k]);
      assert ready[j] != x;
    }
  }

  ghost predicate AllPicks(g: Dag, heights: seq<int>, order: seq<nat>) {
    |heights| == g.n && forall t :: 0 <= t < |order| ==> IsPick(g, heights, order[..t], order[t])
  }

  lemma {:induction false} PrefixIsGreedy(g: Dag, heights: seq<int>, order: seq<nat>)
    requires |heights| == g.n
    ensures IsGreedyPrefix(g, heights, order) <==> AllPicks(g, heights, order)
    decreases |order|
  {
    if order != [] {
      var n := |order| - 1;
      var before := order[..n];
      PrefixIsGreedy(g, heights, before);
      assert forall t :: 0 <= t < n ==> before[..t] == order[..t] && before[t] == order[t];
      if AllPicks(g, heights, before) {
        assert AllPicks(g, heights, order) <==> IsPick(g, heights, order[..n], order[n]);
        ReadyListIsExact(g, heights, before);
        ReadyListIsSorted(g, heights, before);
        BestIsPick(g, heights, before, ReadyAfter(g, before), order[n]);
      } else {
        assert !AllPicks(g, heights, order) by { OpenPrefix(g, heights, before, order); }
      }
    }
  }

  lemma OpenPrefix(g: Dag, heights: seq<int>, before: seq<nat>, order: seq<nat>)
    requires before <= order && !AllPicks(g, heights, before)
    ensures !AllPicks(g, heights, order)
  {
    if |heights| == g.n {
      var t :| 0 <= t < |before| && !IsPick(g, heights, before[..t], before[t]);
      assert before[..t] == order[..t];
    }
  }

  /**
    An order is the greedy one exactly if every position, at its moment, is the one among the waiting positions with the
    longest way to go, then the highest latency, then the earliest moment of becoming ready, then the smallest number.
   */
  lemma GreedyIsExact(g: Dag, heights: seq<int>, order: seq<nat>)
    requires |heights| == g.n
    ensures IsGreedy(g, heights, order) <==> |order| == g.n && AllPicks(g, heights, order)
  {
    PrefixIsGreedy(g, heights, order);
  }

  lemma OneGoesFirst(g: Dag, heights: seq<int>, done: seq<nat>, x: nat, y: nat)
    requires |heights| == g.n && x < g.n && y < g.n
    ensures !GoesFirst(g, heights, done, x, y) || !GoesFirst(g, heights, done, y, x)
  {
  }

  lemma PickIsUnique(g: Dag, heights: seq<int>, done: seq<nat>, x: nat, y: nat)
    requires |heights| == g.n && IsPick(g, heights, done, x) && IsPick(g, heights, done, y)
    ensures x == y
  {
    OneGoesFirst(g, heights, done, x, y);
  }

  lemma {:induction false} PicksAreUnique(g: Dag, heights: seq<int>, p: seq<nat>, q: seq<nat>)
    requires |p| == |q| && AllPicks(g, heights, p) && AllPicks(g, heights, q)
    ensures p == q
    decreases |p|
  {
    if p != [] {
      var n := |p| - 1;
      assert forall t :: 0 <= t < n ==> p[..n][..t] == p[..t] && q[..n][..t] == q[..t];
      PicksAreUnique(g, heights, p[..n], q[..n]);
      PickIsUnique(g, heights, p[..n], p[n], q[n]);
      assert p == p[..n] + [p[n]] && q == q[..n] + [q[n]];
    }
  }

  /** A height is one number. */
  lemma HeightsAreUnique(g: Dag, hs: seq<int>, ks: seq<int>)
    requires AreHeights(g, hs) && AreHeights(g, ks)
    ensures hs == ks
  {
    forall i | 0 <= i < g.n ensures hs[i] == ks[i] {
      var p :| Path(g, p) && First(p) == i && Total(g, p) == hs[i];
      var q :| Path(g, q) && First(q) == i && Total(g, q) == ks[i];
    }
  }

  /** Scheduling is determined by the block. */
  lemma ScheduleIsUnique(b: Block, out: seq<MachineInstr>, other: seq<MachineInstr>)
    requires IsScheduleOf(b, out) && IsScheduleOf(b, other)
    ensures out == other
  {
    var g := GraphOf(b);
    var hs, p :| AreHeights(g, hs) && IsGreedy(g, hs, p) && out == Pick(b, p);
    var ks, q :| AreHeights(g, ks) && IsGreedy(g, ks, q) && other == Pick(b, q);
    HeightsAreUnique(g, hs, ks);
    GreedyIsExact(g, hs, p);
    GreedyIsExact(g, hs, q);
    PicksAreUnique(g, hs, p, q);
  }

  // ---- Blocks without edges ----

  lemma {:induction false} NoEdgesNoMoments(g: Dag, done: seq<nat>, j: nat)
    requires forall i: nat, k: nat :: !Edge(g, i, k)
    ensures Moment(g, done, j) == 0
  {
    if done != [] { NoEdgesNoMoments(g, done[..|done| - 1], j); }
  }

  lemma NextIsPick(g: Dag, heights: seq<int>, t: nat)
    requires AreHeights(g, heights) && t < g.n && forall i: nat, k: nat :: !Edge(g, i, k)
    requires forall i: nat, j: nat :: i < g.n && j < g.n ==> g.cost(i) == g.cost(j)
    ensures IsPick(g, heights, Identity(t), t)
  {
    forall y: nat | y < t ensures y in Identity(t) { assert Identity(t)[y] == y; }
    forall y: nat | Waiting(g, Identity(t), y) && y != t ensures GoesFirst(g, heights, Identity(t), t, y) {
      LoneHeight(g, t, heights[t]);
      LoneHeight(g, y, heights[y]);
      NoEdgesNoMoments(g, Identity(t), t);
      NoEdgesNoMoments(g, Identity(t), y);
    }
  }

  lemma UnrelatedOrderStays(g: Dag, heights: seq<int>, order: seq<nat>)
    requires AreHeights(g, heights) && IsGreedy(g, heights, order) && forall i: nat, k: nat :: !Edge(g, i, k)
    requires forall i: nat, j: nat :: i < g.n && j < g.n ==> g.cost(i) == g.cost(j)
    ensures order == Identity(g.n)
  {
    var id := Identity(g.n);
    forall t | 0 <= t < |id| ensures IsPick(g, heights, id[..t], id[t]) {
      NextIsPick(g, heights, t);
      assert id[..t] == Identity(t);
    }
    GreedyIsExact(g, heights, order);
    PicksAreUnique(g, heights, order, id);
  }

  /** Instructions of one latency that nothing ties together stay as they are. */
  lemma UnrelatedBlockStays(b: Block, out: seq<MachineInstr>)
    requires IsScheduleOf(b, out)
    requires forall i: nat, j: nat :: !HasEdge(b, i, j)
    requires forall i, j :: 0 <= i < |b| && 0 <= j < |b| ==> Latency(b[i].opcode) == Latency(b[j].opcode)
    ensures out == b
  {
    var g := GraphOf(b);
    var heights, order :| AreHeights(g, heights) && IsGreedy(g, heights, order) && out == Pick(b, order);
    forall i: nat, k: nat ensures !Edge(g, i, k) { assert !HasEdge(b, i, k); }
    UnrelatedOrderStays(g, heights, order);
    assert Pick(b, Identity(|b|)) == b;
  }
}
