/** The order greedy list scheduling produces, described without any mutable state. */
module GreedyOrder {
  import opened MachineIR
  import opened Meaning
  import opened Sequences
  import opened Dags
  import opened DependencyGraph

  function RootsUpTo(g: Dag, bound: nat): seq<nat>
    requires bound <= g.n
  {
    if bound == 0 then []
    else RootsUpTo(g, bound - 1) + if Preds(g, bound - 1) == [] then [bound - 1] else []
  }

  /** Every predecessor of j is listed in done. */
  predicate AllDone(g: Dag, j: nat, done: seq<nat>) {
    forall p :: p in Preds(g, j) ==> p in done
  }

  predicate IsReady(g: Dag, j: nat, done: seq<nat>) {
    j < g.n && j !in done && AllDone(g, j, done)
  }

  /** Appends the candidates that have become ready and are not listed yet. */
  function AddReady(g: Dag, ready: seq<nat>, done: seq<nat>, candidates: seq<nat>): seq<nat> {
    if candidates == [] then ready else
    var n := |candidates| - 1;
    var r := AddReady(g, ready, done, candidates[..n]);
    if IsReady(g, candidates[n], done) && candidates[n] !in r then r + [candidates[n]] else r
  }

  function Without(s: seq<nat>, k: nat): seq<nat> {
    if s == [] then []
    else if s[0] == k then s[1..]
    else [s[0]] + Without(s[1..], k)
  }

  /** The ready list once the positions in done have been issued, in list order. */
  function ReadyAfter(g: Dag, done: seq<nat>): seq<nat>
    requires InRange(done, g.n)
  {
    if done == [] then RootsUpTo(g, g.n) else
    var n := |done| - 1;
    AddReady(g, Without(ReadyAfter(g, done[..n]), done[n]), done, Succs(g, done[n]))
  }

  /** x has the longer way to go, or the same way and the higher latency. */
  predicate Better(g: Dag, heights: seq<int>, x: nat, y: nat)
    requires x < g.n && y < g.n && |heights| == g.n
  {
    || heights[x] > heights[y]
    || (heights[x] == heights[y] && g.cost(x) > g.cost(y))
  }

  /** x is the first of the best entries of the list. */
  ghost predicate IsBest(g: Dag, heights: seq<int>, ready: seq<nat>, x: nat)
    requires |heights| == g.n
  {
    && InRange(ready, g.n)
    && exists k :: 0 <= k < |ready| && ready[k] == x
                   && (forall j :: 0 <= j < |ready| ==> !Better(g, heights, ready[j], x))
                   && (forall j :: 0 <= j < k ==> Better(g, heights, x, ready[j]))
  }

  /** Every position is the best of the ready list at its moment. */
  ghost predicate IsGreedyPrefix(g: Dag, heights: seq<int>, order: seq<nat>) {
    && |heights| == g.n
    && InRange(order, g.n)
    && (order != [] ==>
          var before := order[..|order| - 1];
          IsGreedyPrefix(g, heights, before) && IsBest(g, heights, ReadyAfter(g, before), Last(order)))
  }

  ghost predicate IsGreedy(g: Dag, heights: seq<int>, order: seq<nat>) {
    |order| == g.n && IsGreedyPrefix(g, heights, order)
  }

  // ---- The ready list is exactly the set of ready positions ----

  lemma {:induction false} WithoutMembers(s: seq<nat>, k: nat)
    requires Distinct(s) && k in s
    ensures Distinct(Without(s, k))
    ensures forall x :: x in Without(s, k) <==> x in s && x != k
  {
    if s[0] != k {
      assert k in s[1..];
      WithoutMembers(s[1..], k);
      assert forall x :: x in s <==> x == s[0] || x in s[1..];
      assert s[0] !in s[1..];
    } else {
      assert k !in s[1..];
    }
  }

  lemma {:induction false} AddReadyMembers(g: Dag, ready: seq<nat>, done: seq<nat>, candidates: seq<nat>)
    requires Distinct(ready)
    ensures Distinct(AddReady(g, ready, done, candidates))
    ensures forall x: nat :: x in AddReady(g, ready, done, candidates)
                        <==> x in ready || (x in candidates && IsReady(g, x, done))
  {
    if candidates != [] {
      AddReadyMembers(g, ready, done, candidates[..|candidates| - 1]);
      assert forall x :: x in candidates <==> x in candidates[..|candidates| - 1] || x == Last(candidates);
    }
  }

  ghost predicate ListsReady(g: Dag, ready: seq<nat>, done: seq<nat>) {
    Distinct(ready) && forall x: nat :: x in ready <==> IsReady(g, x, done)
  }

  /** Issuing k makes ready exactly those successors of k that waited for nothing else. */
  lemma IssueStep(g: Dag, ready: seq<nat>, before: seq<nat>, k: nat)
    requires ListsReady(g, ready, before) && k in ready
    ensures ListsReady(g, AddReady(g, Without(ready, k), before + [k], Succs(g, k)), before + [k])
  {
    var done := before + [k];
    WithoutMembers(ready, k);
    AddReadyMembers(g, Without(ready, k), done, Succs(g, k));
    assert forall x :: x in done <==> x in before || x == k;
    forall x: nat | IsReady(g, x, done) && x !in ready ensures x in Succs(g, k) {
      assert !AllDone(g, x, before);
      var p :| p in Preds(g, x) && p !in before;
      assert p == k;
      PredsMembers(g, x);
      SuccsMembers(g, k);
    }
    forall x: nat | x in ready && x != k ensures IsReady(g, x, done) {
      assert IsReady(g, x, before);
    }
  }

  /** At every moment the ready list holds the unissued positions whose predecessors are issued. */
  lemma {:induction false} ReadyListIsExact(g: Dag, heights: seq<int>, done: seq<nat>)
    requires IsGreedyPrefix(g, heights, done)
    ensures Distinct(done) && ListsReady(g, ReadyAfter(g, done), done)
    decreases |done|
  {
    if done == [] {
      RootsAreReady(g);
    } else {
      var before, k := done[..|done| - 1], Last(done);
      ReadyListIsExact(g, heights, before);
      IssueStep(g, ReadyAfter(g, before), before, k);
      assert done == before + [k];
      assert IsReady(g, k, before);
    }
  }

  lemma {:induction false} RootsUpToMembers(g: Dag, bound: nat)
    requires bound <= g.n
    ensures forall x: nat :: x in RootsUpTo(g, bound) <==> x < bound && Preds(g, x) == []
    ensures Distinct(RootsUpTo(g, bound))
  {
    if bound > 0 { RootsUpToMembers(g, bound - 1); }
  }

  lemma RootsAreReady(g: Dag)
    ensures ListsReady(g, ReadyAfter(g, []), [])
  {
    RootsUpToMembers(g, g.n);
    forall x: nat | x < g.n ensures AllDone(g, x, []) <==> Preds(g, x) == [] {
      if Preds(g, x) != [] { assert Preds(g, x)[0] in Preds(g, x); }
    }
  }

  lemma {:induction false} GreedyAt(g: Dag, heights: seq<int>, order: seq<nat>, t: nat)
    requires IsGreedyPrefix(g, heights, order) && t < |order|
    ensures IsGreedyPrefix(g, heights, order[..t])
    ensures IsBest(g, heights, ReadyAfter(g, order[..t]), order[t])
    decreases |order|
  {
    var before := order[..|order| - 1];
    if t < |before| {
      GreedyAt(g, heights, before, t);
      assert before[..t] == order[..t];
    }
  }

  /** While instructions remain, one of them is ready. */
  lemma SomethingIsReady(g: Dag, heights: seq<int>, done: seq<nat>)
    requires IsGreedyPrefix(g, heights, done) && |done| < g.n
    ensures ReadyAfter(g, done) != []
  {
    ReadyListIsExact(g, heights, done);
    var x := FirstMissing(done, g.n);
    PredsMembers(g, x);
    assert IsReady(g, x, done);
  }

  /** A greedy order is a reordering of the whole block that respects every edge. */
  lemma GreedyIsLegal(g: Dag, heights: seq<int>, order: seq<nat>)
    requires IsGreedy(g, heights, order)
    ensures LinearExtension(g, order)
  {
    ReadyListIsExact(g, heights, order);
    DistinctSize(order, g.n);
    forall s, t | 0 <= s < t < |order| ensures !Edge(g, order[t], order[s]) {
      var done := order[..s];
      GreedyAt(g, heights, order, s);
      ReadyListIsExact(g, heights, done);
      assert IsReady(g, order[s], done);
      assert order[t] !in done;
      PredsMembers(g, order[s]);
    }
  }

  // ---- Blocks ----

  /** out is what list scheduling by longest remaining path makes of the block b. */
  ghost predicate IsScheduleOf(b: Block, out: seq<MachineInstr>) {
    exists heights, order ::
      AreHeights(GraphOf(b), heights) && IsGreedy(GraphOf(b), heights, order) && out == Pick(b, order)
  }

  /**
    Scheduling a block keeps its registers, memory and exit, whatever the opcodes compute,
    as long as the graph orders every conflicting pair.
   */
  lemma ScheduleKeepsMeaning(m: Machine, b: Block, out: seq<MachineInstr>, s: State)
    requires IsScheduleOf(b, out) && Covered(m, b)
    ensures Run(m, out, s) == Run(m, b, s)
    ensures multiset(out) == multiset(b)
  {
    var heights, order :| AreHeights(GraphOf(b), heights) && IsGreedy(GraphOf(b), heights, order) &&
      out == Pick(b, order);
    GreedyIsLegal(GraphOf(b), heights, order);
    LegalOrderKeepsMeaning(m, b, order, s);
    PermutationKeepsElements(b, order);
  }

  /** In particular for single assignment blocks in which only loads and stores reach memory. */
  lemma SingleAssignmentScheduleKeepsMeaning(m: Machine, b: Block, out: seq<MachineInstr>, s: State)
    requires SingleAssignment(b) && OnlyLoadsAndStoresTouchMemory(m, b)
    requires IsScheduleOf(b, out)
    ensures Run(m, out, s) == Run(m, b, s)
  {
    SingleAssignmentIsCovered(m, b);
    ScheduleKeepsMeaning(m, b, out, s);
  }
}
