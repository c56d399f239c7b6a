/** What a pipelined schedule means, against running the loop body one round after the other. */
module PipelineMeaning {
  import opened Arithmetic
  import opened Hazards
  import opened MachineIR
  import opened Meaning
  import opened Options
  import opened Pipeliner
  import opened Sequences

  // ---- Rounds of the body, and positions in them ----

  /** Position i of the body in the given round, when the body has len positions. */
  function Place(len: nat, round: nat, i: nat): nat {
    len * round + i
  }

  lemma PlaceParts(len: nat, round: nat, i: nat)
    requires i < len
    ensures Place(len, round, i) / len == round && Place(len, round, i) % len == i
  {
    QuotientAndRemainder(len, round, i);
  }

  lemma PartsPlace(len: nat, x: nat)
    requires len > 0
    ensures x % len < len && Place(len, x / len, x % len) == x
  {
  }

  lemma PlacesGrow(len: nat, round: nat, i: nat, later: nat, j: nat)
    requires i < len && j < len
    ensures Place(len, round, i) < Place(len, later, j) <==> round < later || (round == later && i < j)
  {
    if round < later {
      ProductGrows(len, round, later);
    } else if later < round {
      ProductGrows(len, later, round);
    }
  }

  lemma PlaceInside(len: nat, round: nat, i: nat, count: nat)
    requires i < len
    ensures Place(len, round, i) < len * count <==> round < count
  {
    PlacesGrow(len, round, i, count, 0);
    if round == count { assert !(Place(len, round, i) < Place(len, count, 0)); }
  }

  /** The body, count times. */
  function Rounds(body: seq<MachineInstr>, count: nat): (b: seq<MachineInstr>)
    ensures |b| == |body| * count
    ensures forall x :: 0 <= x < |b| ==> |body| > 0 && b[x] == body[x % |body|]
  {
    if body == [] then [] else seq(|body| * count, x requires 0 <= x => body[x % |body|])
  }

  function RunRounds(m: Machine, body: seq<MachineInstr>, count: nat, s: State): State {
    if count == 0 then s else Run(m, body, RunRounds(m, body, count - 1, s))
  }

  lemma {:induction false} RunTwice(m: Machine, p: seq<MachineInstr>, q: seq<MachineInstr>, s: State)
    ensures Run(m, p + q, s) == Run(m, q, Run(m, p, s))
    decreases |q|
  {
    if q == [] {
      assert p + q == p;
    } else {
      var n := |q| - 1;
      RunTwice(m, p, q[..n], s);
      RunLast(m, p + q[..n], q[n], s);
      assert p + q == p + q[..n] + [q[n]];
    }
  }

  lemma OneMoreRound(body: seq<MachineInstr>, count: nat)
    ensures Rounds(body, count + 1) == Rounds(body, count) + body
  {
    var longer, shorter, len := Rounds(body, count + 1), Rounds(body, count), |body|;
    assert |longer| == len * count + len;
    forall x | 0 <= x < |longer| ensures longer[x] == (shorter + body)[x] {
      if x >= len * count { PlaceParts(len, count, x - len * count); }
    }
  }

  lemma {:induction false} RoundsRun(m: Machine, body: seq<MachineInstr>, count: nat, s: State)
    ensures Run(m, Rounds(body, count), s) == RunRounds(m, body, count, s)
  {
    if count > 0 {
      RoundsRun(m, body, count - 1, s);
      OneMoreRound(body, count - 1);
      RunTwice(m, Rounds(body, count - 1), body, s);
    } else {
      assert Rounds(body, 0) == [];
    }
  }

  // ---- Which round a step issues ----

  /** The step that issues a stage for the given round. */
  function TimeOf(last: nat, round: nat, stage: nat): nat {
    if stage + round <= last then stage + round else last + round
  }

  lemma IssuedInTime(last: nat, k: nat, stage: nat)
    requires stage <= last && k <= 2 * last && Issues(last, k, stage)
    ensures IssueCount(last, k, stage) <= last && TimeOf(last, IssueCount(last, k, stage), stage) == k
  {
    CountInClosedForm(last, k, stage);
  }

  lemma IssuesAtTime(last: nat, round: nat, stage: nat)
    requires stage <= last && round <= last
    ensures var k := TimeOf(last, round, stage);
            k <= 2 * last && Issues(last, k, stage) && IssueCount(last, k, stage) == round
  {
    CountInClosedForm(last, TimeOf(last, round, stage), stage);
  }

  lemma TimesGrow(last: nat, round: nat, later: nat, stage: nat)
    requires round < later
    ensures TimeOf(last, round, stage) < TimeOf(last, later, stage)
  {
  }

  /** The second round of an earlier stage is issued no later than the first round of a later one. */
  lemma EarlierStageOvertakes(last: nat, early: nat, late: nat)
    requires early < late <= last
    ensures TimeOf(last, 1, early) <= TimeOf(last, 0, late)
  {
  }

  // ---- The order of issue, as an order of the rounds' positions ----

  function StepPlaces(stages: seq<nat>, last: nat, k: nat): (s: seq<nat>)
    ensures |s| == |StepOf(stages, last, k)|
    ensures forall t :: 0 <= t < |s| ==>
              var i := StepOf(stages, last, k)[t]; s[t] == Place(|stages|, IssueCount(last, k, stages[i]), i)
  {
    var step := StepOf(stages, last, k);
    seq(|step|, t requires 0 <= t < |step| => Place(|stages|, IssueCount(last, k, stages[step[t]]), step[t]))
  }

  function IssueOrder(stages: seq<nat>, last: nat, k: nat): seq<nat> {
    if k == 0 then [] else IssueOrder(stages, last, k - 1) + StepPlaces(stages, last, k - 1)
  }

  function Time(stages: seq<nat>, last: nat, x: nat): nat
    requires stages != []
  {
    TimeOf(last, x / |stages|, stages[x % |stages|])
  }

  lemma {:induction false} StepMembers(stages: seq<nat>, last: nat, k: nat, bound: nat)
    requires bound <= |stages|
    ensures forall i: nat :: i in StepUpTo(stages, last, k, bound) <==> i < bound && Issues(last, k, stages[i])
  {
    if bound > 0 { StepMembers(stages, last, k, bound - 1); }
  }

  lemma StepTimes(stages: seq<nat>, last: nat, k: nat, t: nat)
    requires Staged(stages, last) && k <= 2 * last && t < |StepPlaces(stages, last, k)|
    ensures stages != []
    ensures var x := StepPlaces(stages, last, k)[t];
            && x < |stages| * (last + 1) && x % |stages| == StepOf(stages, last, k)[t]
            && Time(stages, last, x) == k
  {
    var i := StepOf(stages, last, k)[t];
    StepMembers(stages, last, k, |stages|);
    assert i in StepOf(stages, last, k);
    IssuedInTime(last, k, stages[i]);
    PlaceParts(|stages|, IssueCount(last, k, stages[i]), i);
    PlaceInside(|stages|, IssueCount(last, k, stages[i]), i, last + 1);
  }

  /** Earlier step, or the same step and earlier in the body. */
  predicate Sooner(stages: seq<nat>, last: nat, x: nat, y: nat)
    requires stages != []
  {
    || Time(stages, last, x) < Time(stages, last, y)
    || (Time(stages, last, x) == Time(stages, last, y) && x % |stages| < y % |stages|)
  }

  lemma {:induction false} OrderTimes(stages: seq<nat>, last: nat, k: nat, u: nat)
    requires Staged(stages, last) && k <= 2 * last + 1 && u < |IssueOrder(stages, last, k)|
    ensures stages != []
    ensures IssueOrder(stages, last, k)[u] < |stages| * (last + 1)
    ensures Time(stages, last, IssueOrder(stages, last, k)[u]) < k
  {
    var before := IssueOrder(stages, last, k - 1);
    if u < |before| {
      OrderTimes(stages, last, k - 1, u);
    } else {
      StepTimes(stages, last, k - 1, u - |before|);
    }
  }

  /** Positions are issued by step, and within a step by their place in the body. */
  lemma {:induction false} IssuedSooner(stages: seq<nat>, last: nat, k: nat, u: nat, v: nat)
    requires Staged(stages, last) && k <= 2 * last + 1 && u < v < |IssueOrder(stages, last, k)|
    ensures stages != [] && Sooner(stages, last, IssueOrder(stages, last, k)[u], IssueOrder(stages, last, k)[v])
  {
    var before := IssueOrder(stages, last, k - 1);
    if v < |before| {
      IssuedSooner(stages, last, k - 1, u, v);
    } else {
      StepTimes(stages, last, k - 1, v - |before|);
      if u < |before| {
        OrderTimes(stages, last, k - 1, u);
      } else {
        StepTimes(stages, last, k - 1, u - |before|);
        StepAscends(stages, last, k - 1, |stages|, u - |before|, v - |before|);
      }
    }
  }

  lemma {:induction false} OrderGrows(stages: seq<nat>, last: nat, k: nat, l: nat)
    requires k <= l
    ensures IssueOrder(stages, last, k) <= IssueOrder(stages, last, l)
    decreases l
  {
    if k < l { OrderGrows(stages, last, k, l - 1); }
  }

  lemma StepJoinsOrder(stages: seq<nat>, last: nat, k: nat, x: nat)
    requires k <= 2 * last && x in StepPlaces(stages, last, k)
    ensures x in IssueOrder(stages, last, 2 * last + 1)
  {
    assert x in IssueOrder(stages, last, k + 1);
    OrderGrows(stages, last, k + 1, 2 * last + 1);
  }

  lemma PlaceIssuedInTime(stages: seq<nat>, last: nat, round: nat, i: nat)
    requires Staged(stages, last) && round <= last && i < |stages|
    ensures TimeOf(last, round, stages[i]) <= 2 * last
    ensures Place(|stages|, round, i) in StepPlaces(stages, last, TimeOf(last, round, stages[i]))
  {
    IssuesAtTime(last, round, stages[i]);
    var k := TimeOf(last, round, stages[i]);
    StepMembers(stages, last, k, |stages|);
    var step := StepOf(stages, last, k);
    assert i in step;
    var t :| 0 <= t < |step| && step[t] == i;
    assert StepPlaces(stages, last, k)[t] == Place(|stages|, round, i);
  }

  lemma EveryPlaceIssued(stages: seq<nat>, last: nat, x: nat)
    requires Staged(stages, last) && stages != [] && x < |stages| * (last + 1)
    ensures x in IssueOrder(stages, last, 2 * last + 1)
  {
    var len := |stages|;
    var round, i := x / len, x % len;
    PartsPlace(len, x);
    PlaceInside(len, round, i, last + 1);
    PlaceIssuedInTime(stages, last, round, i);
    StepJoinsOrder(stages, last, TimeOf(last, round, stages[i]), x);
  }

  lemma AllNumbersOnce(order: seq<nat>, n: nat)
    requires Distinct(order) && forall x: nat :: x in order <==> x < n
    ensures IsPermutation(order, n)
  {
    DistinctCard(order);
    assert Elements(order) == Below(n);
    forall t | 0 <= t < |order| ensures order[t] < n { assert order[t] in order; }
  }

  lemma SoonerDiffers(stages: seq<nat>, last: nat, x: nat, y: nat)
    requires stages != [] && Sooner(stages, last, x, y)
    ensures x != y
  {
  }

  lemma OrderIsDistinct(stages: seq<nat>, last: nat, order: seq<nat>)
    requires Staged(stages, last) && stages != [] && order == IssueOrder(stages, last, 2 * last + 1)
    ensures Distinct(order)
  {
    forall u, v | 0 <= u < v < |order| ensures order[u] != order[v] {
      IssuedSooner(stages, last, 2 * last + 1, u, v);
      SoonerDiffers(stages, last, order[u], order[v]);
    }
  }

  lemma IssueOrderIsPermutation(stages: seq<nat>, last: nat)
    requires Staged(stages, last) && stages != []
    ensures IsPermutation(IssueOrder(stages, last, 2 * last + 1), |stages| * (last + 1))
  {
    var order, n := IssueOrder(stages, last, 2 * last + 1), |stages| * (last + 1);
    OrderIsDistinct(stages, last, order);
    forall x: nat ensures x in order <==> x < n {
      if x < n { EveryPlaceIssued(stages, last, x); }
      if x in order {
        var u :| 0 <= u < |order| && order[u] == x;
        OrderTimes(stages, last, 2 * last + 1, u);
      }
    }
    AllNumbersOnce(order, n);
  }

  /** In the order of issue, before is sooner. */
  lemma BeforeIsSooner(stages: seq<nat>, last: nat, x: nat, y: nat)
    requires Staged(stages, last) && stages != [] && x < |stages| * (last + 1) && y < |stages| * (last + 1)
    ensures Before(IssueOrder(stages, last, 2 * last + 1), x, y) <==> Sooner(stages, last, x, y)
  {
    var order := IssueOrder(stages, last, 2 * last + 1);
    EveryPlaceIssued(stages, last, x);
    EveryPlaceIssued(stages, last, y);
    var u :| 0 <= u < |order| && order[u] == x;
    var v :| 0 <= v < |order| && order[v] == y;
    if u < v {
      IssuedSooner(stages, last, 2 * last + 1, u, v);
    } else {
      if v < u { IssuedSooner(stages, last, 2 * last + 1, v, u); }
      if Before(order, x, y) {
        var k, l :| 0 <= k < l < |order| && order[k] == x && order[l] == y;
        IssuedSooner(stages, last, 2 * last + 1, k, l);
      }
    }
  }

  // ---- Meaning ----

  /** Conflicting positions of the body are in one stage. */
  predicate ConflictsStayInStage(m: Machine, body: seq<MachineInstr>, stages: seq<nat>)
    requires |stages| == |body|
  {
    forall i, j :: 0 <= i < j < |body| && Conflicts(m, body[i], body[j]) ==> stages[i] == stages[j]
  }

  lemma SameStageKeepsOrder(stages: seq<nat>, last: nat, x: nat, y: nat)
    requires Staged(stages, last) && stages != [] && x < y && stages[x % |stages|] == stages[y % |stages|]
    ensures Sooner(stages, last, x, y)
  {
    var len := |stages|;
    PartsPlace(len, x);
    PartsPlace(len, y);
    PlacesGrow(len, x / len, x % len, y / len, y % len);
    if x / len < y / len { TimesGrow(last, x / len, y / len, stages[x % len]); }
  }

  lemma OtherStageOvertakes(stages: seq<nat>, last: nat, i: nat, j: nat)
    requires Staged(stages, last) && i < j < |stages| && stages[i] < stages[j]
    ensures var x, y := Place(|stages|, 0, j), Place(|stages|, 1, i);
            x < y < |stages| * (last + 1) && !Sooner(stages, last, x, y)
  {
    var len := |stages|;
    PlaceParts(len, 0, j);
    PlaceParts(len, 1, i);
    PlacesGrow(len, 0, j, 1, i);
    PlaceInside(len, 1, i, last + 1);
    EarlierStageOvertakes(last, stages[i], stages[j]);
  }

  /** The order of issue keeps every conflicting pair of the rounds in order exactly if conflicting positions of the
      body are in one stage. */
  lemma PipelineOrderIsExact(m: Machine, body: seq<MachineInstr>, stages: seq<nat>, last: nat)
    requires Staged(stages, last) && |stages| == |body| > 0
    ensures Agree(m, Rounds(body, last + 1), Identity(|body| * (last + 1)), IssueOrder(stages, last, 2 * last + 1))
            <==> ConflictsStayInStage(m, body, stages)
  {
    if ConflictsStayInStage(m, body, stages) {
      StagesKeepOrder(m, body, stages, last);
    } else {
      var i, j :| 0 <= i < j < |body| && Conflicts(m, body[i], body[j]) && stages[i] != stages[j];
      OvertakenPairDisagrees(m, body, stages, last, i, j);
    }
  }

  lemma StagesKeepOrder(m: Machine, body: seq<MachineInstr>, stages: seq<nat>, last: nat)
    requires Staged(stages, last) && |stages| == |body| > 0 && ConflictsStayInStage(m, body, stages)
    ensures Agree(m, Rounds(body, last + 1), Identity(|body| * (last + 1)), IssueOrder(stages, last, 2 * last + 1))
  {
    var b, order, n := Rounds(body, last + 1), IssueOrder(stages, last, 2 * last + 1), |body| * (last + 1);
    IssueOrderIsPermutation(stages, last);
    IdentityElements(n, order);
    forall x, y | 0 <= x < y < n && Conflicts(m, b[Identity(n)[x]], b[Identity(n)[y]]) ensures Before(order, x, y) {
      assert b[x] == body[x % |body|] && b[y] == body[y % |body|];
      var i, j := x % |body|, y % |body|;
      assert stages[i] == stages[j] by {
        if j < i { assert Conflicts(m, body[j], body[i]); }
      }
      SameStageKeepsOrder(stages, last, x, y);
      BeforeIsSooner(stages, last, x, y);
    }
  }

  lemma IdentityElements(n: nat, order: seq<nat>)
    requires IsPermutation(order, n)
    ensures Distinct(Identity(n)) && InRange(Identity(n), n) && SameElements(Identity(n), order)
  {
    forall x ensures x in Identity(n) <==> x in order {
      if 0 <= x < n { assert Identity(n)[x] == x; }
    }
  }

  lemma OvertakenPairDisagrees(m: Machine, body: seq<MachineInstr>, stages: seq<nat>, last: nat, i: nat, j: nat)
    requires Staged(stages, last) && |stages| == |body| && i < j < |body|
    requires Conflicts(m, body[i], body[j]) && stages[i] != stages[j]
    ensures !Agree(m, Rounds(body, last + 1), Identity(|body| * (last + 1)), IssueOrder(stages, last, 2 * last + 1))
  {
    var b, n, len := Rounds(body, last + 1), |body| * (last + 1), |body|;
    var x, y := Place(len, 0, j), Place(len, 1, i);
    OtherStageOvertakes(stages, last, i, j);
    BeforeIsSooner(stages, last, x, y);
    PlaceParts(len, 0, j);
    PlaceParts(len, 1, i);
    assert Identity(n)[x] == x && Identity(n)[y] == y;
    assert b[x] == body[j] && b[y] == body[i];
    assert Conflicts(m, b[x], b[y]);
  }

  lemma {:induction false} IssueOrderPicks(body: seq<MachineInstr>, stages: seq<nat>, last: nat, k: nat)
    requires Staged(stages, last) && |stages| == |body| && k <= 2 * last + 1
    ensures InRange(IssueOrder(stages, last, k), |body| * (last + 1))
    ensures Pick(Rounds(body, last + 1), IssueOrder(stages, last, k)) == Pick(body, Issued(stages, last, k))
  {
    if k > 0 {
      IssueOrderPicks(body, stages, last, k - 1);
      StepPicks(body, stages, last, k - 1);
      PickAppend(Rounds(body, last + 1), IssueOrder(stages, last, k - 1), StepPlaces(stages, last, k - 1));
      PickAppend(body, Issued(stages, last, k - 1), StepOf(stages, last, k - 1));
    }
  }

  lemma StepPicks(body: seq<MachineInstr>, stages: seq<nat>, last: nat, k: nat)
    requires Staged(stages, last) && |stages| == |body| && k <= 2 * last
    ensures InRange(StepPlaces(stages, last, k), |body| * (last + 1))
    ensures Pick(Rounds(body, last + 1), StepPlaces(stages, last, k)) == Pick(body, StepOf(stages, last, k))
  {
    var places := StepPlaces(stages, last, k);
    forall t | 0 <= t < |places| ensures places[t] < |body| * (last + 1)
    {
      StepTimes(stages, last, k, t);
    }
    var left, right := Pick(Rounds(body, last + 1), places), Pick(body, StepOf(stages, last, k));
    forall t | 0 <= t < |places| ensures left[t] == right[t] { StepTimes(stages, last, k, t); }
  }

  /** Where conflicting positions are in one stage, a pipelined loop computes what its body computes in as many rounds
      as there are stages. */
  lemma PipelineKeepsMeaning(m: Machine, s: PipelineSchedule, body: seq<MachineInstr>, ii: int, stages: seq<nat>,
                             last: nat, state: State)
    requires IsModuloSchedule(s, body, ii, stages, last) && Staged(stages, last) && body != []
    requires ConflictsStayInStage(m, body, stages)
    ensures Run(m, Flatten(Steps(s)), state) == RunRounds(m, body, last + 1, state)
  {
    var k, n, b := 2 * last + 1, |body| * (last + 1), Rounds(body, last + 1);
    ScheduleIssues(s, body, ii, stages, last, k);
    assert Steps(s)[..k] == Steps(s);
    IssueOrderPicks(body, stages, last, k);
    StagesKeepOrder(m, body, stages, last);
    AgreeingOrdersRunAlike(m, b, Identity(n), IssueOrder(stages, last, k), state);
    assert Pick(b, Identity(n)) == b;
    RoundsRun(m, body, last + 1, state);
  }

  // ---- A loop that pipelining breaks ----

  /** r0 := r0 + r1; r2 := r2 + r0 */
  function SummingLoop(): seq<MachineInstr> {
    [MachineInstr(Add, 0, [0, 1], [], false), MachineInstr(Add, 2, [2, 0], [], false)]
  }

  lemma SummingLoopInterval(ii: int)
    requires IsLeastInterval(SummingLoop(), ii, 1)
    ensures ii == 1
  {
    var body := SummingLoop();
    assert body[..1] == [body[0]] && body[..1][..0] == [];
    assert TotalDemand(body[..1]) == Demand(1, 0, 0, 0);
    assert TotalDemand(body) == Demand(2, 0, 0, 0);
    assert Sustainable(body, 1);
  }

  lemma TwoStagesIssued(stages: seq<nat>)
    requires stages == [0, 1]
    ensures Issued(stages, 1, 3) == [0, 0, 1, 1]
  {
    assert StepOf(stages, 1, 0) == [0] by { assert StepUpTo(stages, 1, 0, 1) == [0]; }
    assert StepOf(stages, 1, 1) == [0, 1] by { assert StepUpTo(stages, 1, 1, 1) == [0]; }
    assert StepOf(stages, 1, 2) == [1] by { assert StepUpTo(stages, 1, 2, 1) == []; }
    assert Issued(stages, 1, 1) == [0];
    assert Issued(stages, 1, 2) == [0, 0, 1];
  }

  lemma PairRun(m: Machine, x: MachineInstr, y: MachineInstr, s: State)
    ensures Run(m, [x, y], s) == Step(m, y, Step(m, x, s))
  {
    RunLast(m, [x], y, s);
    RunLast(m, [], x, s);
    assert [x] + [y] == [x, y] && [] + [x] == [x];
  }

  lemma AddStep(d: int, x: int, y: int, s: State)
    requires d >= 0 && s.exit.None?
    ensures Step(ExampleMachine(), MachineInstr(Add, d, [x, y], [], false), s) ==
            State(s.regs[d := Get(s.regs, x) + Get(s.regs, y)], s.mem, None)
  {
    assert Inputs(MachineInstr(Add, d, [x, y], [], false), s.regs) == [Get(s.regs, x), Get(s.regs, y)];
  }

  lemma SummedInRounds(s: State)
    requires s == State(map[1 := 1], map[], None)
    ensures Get(RunRounds(ExampleMachine(), SummingLoop(), 2, s).regs, 2) == 3
  {
    var m, body := ExampleMachine(), SummingLoop();
    var s1 := State(s.regs[0 := 1], s.mem, None);
    var s2 := State(s1.regs[2 := 1], s.mem, None);
    var s3 := State(s2.regs[0 := 2], s.mem, None);
    AddStep(0, 0, 1, s);
    AddStep(2, 2, 0, s1);
    AddStep(0, 0, 1, s2);
    AddStep(2, 2, 0, s3);
    PairRun(m, body[0], body[1], s);
    PairRun(m, body[0], body[1], s2);
    assert RunRounds(m, body, 1, s) == Run(m, body, RunRounds(m, body, 0, s));
  }

  lemma PickTwiceEach(body: seq<MachineInstr>)
    requires |body| == 2
    ensures Pick(body, [0, 0, 1, 1]) == [body[0], body[0]] + [body[1], body[1]]
  {
  }

  lemma SummedInPipeline(s: State)
    requires s == State(map[1 := 1], map[], None)
    ensures Get(Run(ExampleMachine(), Pick(SummingLoop(), [0, 0, 1, 1]), s).regs, 2) == 4
  {
    var m, x, y := ExampleMachine(), SummingLoop()[0], SummingLoop()[1];
    var s1 := State(s.regs[0 := 1], s.mem, None);
    var s2 := State(s1.regs[0 := 2], s.mem, None);
    assert Run(m, [x, x], s) == s2 by {
      AddStep(0, 0, 1, s);
      AddStep(0, 0, 1, s1);
      PairRun(m, x, x, s);
    }
    assert Get(Run(m, [y, y], s2).regs, 2) == 4 by {
      AddStep(2, 2, 0, s2);
      AddStep(2, 2, 0, State(s2.regs[2 := 2], s.mem, None));
      PairRun(m, y, y, s2);
    }
    RunTwice(m, [x, x], [y, y], s);
    PickTwiceEach(SummingLoop());
  }

  /** Both additions of the first register come before both of the sum, so the pipelined loop adds up too much. */
  lemma SummingLoopIsBroken(s: PipelineSchedule, body: seq<MachineInstr>, ii: int, stages: seq<nat>, last: nat,
                            state: State)
    requires body == SummingLoop() && state == State(map[1 := 1], map[], None)
    requires IsLeastInterval(body, ii, 1) && IsModuloSchedule(s, body, ii, stages, last) && ByDivision(stages, last, ii)
    ensures Run(ExampleMachine(), Flatten(Steps(s)), state) != RunRounds(ExampleMachine(), body, last + 1, state)
  {
    SummingLoopInterval(ii);
    assert stages == [0, 1] && last == 1;
    ScheduleIssues(s, body, ii, stages, last, 3);
    assert Steps(s)[..3] == Steps(s);
    TwoStagesIssued(stages);
    SummedInRounds(state);
    SummedInPipeline(state);
  }
}
