/** Software pipelining by linear stage assignment. */
module Pipeliner {
  import opened Arithmetic
  import opened MachineIR
  import opened Sequences

  datatype PipelineStage = PipelineStage(instructions: seq<MachineInstr>, cycle: int)

  datatype PipelineSchedule = PipelineSchedule(
    prologue: seq<PipelineStage>,
    kernel: seq<PipelineStage>,
    epilogue: seq<PipelineStage>,
    initiationInterval: int
  )

  datatype LoopInfo = LoopInfo(tripCount: int, hasSideEffects: bool)

  // ---- Initiation interval ----

  datatype Demand = Demand(alu: nat, mem: nat, fp: nat, branch: nat)

  function DemandOf(op: Opcode): Demand {
    if op in {Mul, Div, SDiv, UDiv, Rem, SRem, URem} then Demand(3, 0, 0, 0)
    else if op in {Load, Store} then Demand(0, 1, 0, 0)
    else if op in {Addsd, Subsd, Mulsd, Divsd, Addps, Subps, Mulps, Divps, Movsd, Movss, Movaps, Movups} then
      Demand(0, 0, 1, 0)
    else if op in {Jmp, Jcc} then Demand(0, 0, 0, 1)
    else Demand(1, 0, 0, 0)
  }

  function TotalDemand(body: seq<MachineInstr>): Demand {
    if body == [] then Demand(0, 0, 0, 0) else
    var d, x := TotalDemand(body[..|body| - 1]), DemandOf(body[|body| - 1].opcode);
    Demand(d.alu + x.alu, d.mem + x.mem, d.fp + x.fp, d.branch + x.branch)
  }

  /** One iteration per ii cycles overloads no port group and hides no latency. */
  ghost predicate Sustainable(body: seq<MachineInstr>, ii: int) {
    var d := TotalDemand(body);
    && d.alu <= 4 * ii && d.mem <= 2 * ii && d.fp <= 2 * ii && d.branch <= ii
    && forall k :: 0 <= k < |body| ==> Latency(body[k].opcode) <= ii
  }

  /** How many instructions have one of these opcodes. */
  function Count(body: seq<MachineInstr>, ops: set<Opcode>): nat {
    if body == [] then 0
    else Count(body[..|body| - 1], ops) + if body[|body| - 1].opcode in ops then 1 else 0
  }

  const MEMORY_OPS: set<Opcode> := {Load, Store}
  const BRANCH_OPS: set<Opcode> := {Jmp, Jcc}
  const SLOW_OPS: set<Opcode> := {Mul, Div, SDiv, UDiv, Rem, SRem, URem}
  const FLOAT_OPS: set<Opcode> :=
    {Addsd, Subsd, Mulsd, Divsd, Addps, Subps, Mulps, Divps, Movsd, Movss, Movaps, Movups}

  lemma OneDemand(op: Opcode)
    ensures var x := DemandOf(op);
            && x.mem == (if op in MEMORY_OPS then 1 else 0) && x.fp == (if op in FLOAT_OPS then 1 else 0)
            && x.branch == (if op in BRANCH_OPS then 1 else 0)
            && x.alu + x.mem + x.fp + x.branch == 1 + if op in SLOW_OPS then 2 else 0
  {
  }

  lemma {:induction false} DemandIsCounted(body: seq<MachineInstr>)
    ensures var d := TotalDemand(body);
            && d.mem == Count(body, MEMORY_OPS) && d.fp == Count(body, FLOAT_OPS)
            && d.branch == Count(body, BRANCH_OPS)
            && d.alu + d.mem + d.fp + d.branch == |body| + 2 * Count(body, SLOW_OPS)
  {
    if body != [] {
      DemandIsCounted(body[..|body| - 1]);
      OneDemand(body[|body| - 1].opcode);
    }
  }

  /** Two memory ports, two for floating point, one for branches, and four for all else, where a multiplication or
      division counts three times; and no instruction takes longer than the interval. */
  lemma SustainableByCounts(body: seq<MachineInstr>, ii: int)
    ensures Sustainable(body, ii) <==>
            && Count(body, MEMORY_OPS) <= 2 * ii && Count(body, FLOAT_OPS) <= 2 * ii && Count(body, BRANCH_OPS) <= ii
            && |body| + 2 * Count(body, SLOW_OPS) <=
               4 * ii + Count(body, MEMORY_OPS) + Count(body, FLOAT_OPS) + Count(body, BRANCH_OPS)
            && forall k :: 0 <= k < |body| ==> Latency(body[k].opcode) <= ii
  {
    DemandIsCounted(body);
  }

  /** The least interval, at least 1, that is sustainable. */
  method ComputeMII(body: seq<MachineInstr>) returns (mii: int)
    ensures mii >= 1 && Sustainable(body, mii) && (body == [] ==> mii == 1)
    ensures forall ii :: 1 <= ii < mii ==> !Sustainable(body, ii)
  {
    if body == [] {
      return 1;
    }
    var alu: nat, mem: nat, fp: nat, branch: nat := 0, 0, 0, 0;
    for i := 0 to |body|
      invariant TotalDemand(body[..i]) == Demand(alu, mem, fp, branch)
    {
      assert body[..i + 1][..i] == body[..i];
      var x := DemandOf(body[i].opcode);
      alu, mem, fp, branch := alu + x.alu, mem + x.mem, fp + x.fp, branch + x.branch;
    }
    assert body[..|body|] == body;
    var resMii := Max(Max((alu + 3) / 4, (mem + 1) / 2), Max((fp + 1) / 2, branch));
    var recMii := 1;
    for i := 0 to |body|
      invariant recMii >= 1
      invariant forall k :: 0 <= k < i ==> Latency(body[k].opcode) <= recMii
      invariant recMii == 1 || exists k :: 0 <= k < i && Latency(body[k].opcode) == recMii
    {
      var lat := Latency(body[i].opcode);
      if lat > recMii {
        recMii := lat;
      }
    }
    mii := Max(1, Max(resMii, recMii));
  }

  // ---- Stages ----

  /** Stages never decrease along the body and run up to last. */
  ghost predicate Staged(stages: seq<nat>, last: nat) {
    && (forall i :: 0 <= i < |stages| ==> stages[i] <= last)
    && (forall i, j :: 0 <= i <= j < |stages| ==> stages[i] <= stages[j])
  }

  /** Whether the k-th of the 2 * last + 1 steps issues this stage: filling, the kernel, draining. */
  predicate Issues(last: nat, k: nat, stage: nat) {
    if k < last then stage <= k
    else if k == last then true
    else stage + k > 2 * last
  }

  /** The positions below bound that step k issues, in body order. */
  function StepUpTo(stages: seq<nat>, last: nat, k: nat, bound: nat): (s: seq<nat>)
    requires bound <= |stages|
    ensures InRange(s, bound)
  {
    if bound == 0 then []
    else StepUpTo(stages, last, k, bound - 1) + if Issues(last, k, stages[bound - 1]) then [bound - 1] else []
  }

  function StepOf(stages: seq<nat>, last: nat, k: nat): (s: seq<nat>)
    ensures InRange(s, |stages|)
  {
    StepUpTo(stages, last, k, |stages|)
  }

  /** The positions issued by the first k steps, in issue order. */
  function Issued(stages: seq<nat>, last: nat, k: nat): (s: seq<nat>)
    ensures InRange(s, |stages|)
  {
    if k == 0 then [] else Issued(stages, last, k - 1) + StepOf(stages, last, k - 1)
  }

  function IssueCount(last: nat, k: nat, stage: nat): nat {
    if k == 0 then 0 else IssueCount(last, k - 1, stage) + if Issues(last, k - 1, stage) then 1 else 0
  }

  lemma CountOneMore(front: seq<nat>, x: nat, i: nat)
    ensures multiset(front + [x])[i] == multiset(front)[i] + if i == x then 1 else 0
  {
  }

  lemma {:induction false} StepCounts(stages: seq<nat>, last: nat, k: nat, bound: nat, i: nat)
    requires bound <= |stages| && i < |stages|
    ensures multiset(StepUpTo(stages, last, k, bound))[i] == if i < bound && Issues(last, k, stages[i]) then 1 else 0
  {
    if bound > 0 {
      StepCounts(stages, last, k, bound - 1, i);
      var front := StepUpTo(stages, last, k, bound - 1);
      CountOneMore(front, bound - 1, i);
      assert front + [] == front;
    }
  }

  lemma {:induction false} StepAscends(stages: seq<nat>, last: nat, k: nat, bound: nat, u: nat, v: nat)
    requires bound <= |stages| && u < v < |StepUpTo(stages, last, k, bound)|
    ensures StepUpTo(stages, last, k, bound)[u] < StepUpTo(stages, last, k, bound)[v]
  {
    if v < |StepUpTo(stages, last, k, bound - 1)| { StepAscends(stages, last, k, bound - 1, u, v); }
  }

  lemma {:induction false} CountIsIssueCount(stages: seq<nat>, last: nat, k: nat, i: nat)
    requires i < |stages|
    ensures multiset(Issued(stages, last, k))[i] == IssueCount(last, k, stages[i])
  {
    if k > 0 {
      CountIsIssueCount(stages, last, k - 1, i);
      StepCounts(stages, last, k - 1, |stages|, i);
    }
  }

  /** After k steps a position of a given stage has been issued this often. */
  lemma {:induction false} CountInClosedForm(last: nat, k: nat, stage: nat)
    requires stage <= last && k <= 2 * last + 1
    ensures k <= last ==> IssueCount(last, k, stage) == if stage <= k then k - stage else 0
    ensures k > last ==>
              IssueCount(last, k, stage) == last + 1 - if stage + k <= 2 * last + 1 then stage else 2 * last + 1 - k
  {
    if k > 0 { CountInClosedForm(last, k - 1, stage); }
  }

  /** Work is conserved: every body position is issued last + 1 times. */
  lemma EveryPositionIssuedEquallyOften(stages: seq<nat>, last: nat, i: nat)
    requires Staged(stages, last) && i < |stages|
    ensures multiset(Issued(stages, last, 2 * last + 1))[i] == last + 1
  {
    CountIsIssueCount(stages, last, 2 * last + 1, i);
    CountInClosedForm(last, 2 * last + 1, stages[i]);
  }

  /**
    Order is kept: at every moment an earlier position has been issued at least as often as a
    later one, so its n-th occurrence comes before the n-th occurrence of the later one.
   */
  lemma {:induction false} EarlierPositionsLead(stages: seq<nat>, last: nat, k: nat, t: nat, i: nat, j: nat)
    requires Staged(stages, last) && i < j < |stages| && k <= 2 * last + 1
    requires t <= |Issued(stages, last, k)|
    ensures multiset(Issued(stages, last, k)[..t])[i] >= multiset(Issued(stages, last, k)[..t])[j]
  {
    if k > 0 {
      var done := Issued(stages, last, k - 1);
      if t <= |done| {
        EarlierPositionsLead(stages, last, k - 1, t, i, j);
        assert Issued(stages, last, k)[..t] == done[..t];
      } else {
        var part := StepOf(stages, last, k - 1)[..t - |done|];
        assert Issued(stages, last, k)[..t] == done + part;
        LeadInsideStep(stages, last, k - 1, done, part, i, j);
      }
    } else {
      assert Issued(stages, last, k)[..t] == [];
    }
  }

  lemma LeadInsideStep(stages: seq<nat>, last: nat, k: nat, done: seq<nat>, part: seq<nat>, i: nat, j: nat)
    requires Staged(stages, last) && i < j < |stages| && k <= 2 * last
    requires done == Issued(stages, last, k) && part <= StepOf(stages, last, k)
    ensures multiset(done + part)[i] >= multiset(done + part)[j]
  {
    assert multiset(done + part) == multiset(done) + multiset(part);
    CountIsIssueCount(stages, last, k, i);
    CountIsIssueCount(stages, last, k, j);
    LeadAfterSteps(last, k, stages[i], stages[j]);
    LeadAfterSteps(last, k + 1, stages[i], stages[j]);
    PartOfStep(stages, last, k, |part|, i, j);
    assert StepOf(stages, last, k)[..|part|] == part;
  }

  lemma LeadAfterSteps(last: nat, k: nat, early: nat, late: nat)
    requires early <= late <= last && k <= 2 * last + 1
    ensures IssueCount(last, k, early) >= IssueCount(last, k, late)
  {
    CountInClosedForm(last, k, early);
    CountInClosedForm(last, k, late);
  }

  lemma EarlierInStep(stages: seq<nat>, last: nat, k: nat, u: nat, i: nat, j: nat)
    requires i < j < |stages| && u <= |StepOf(stages, last, k)|
    requires j in StepOf(stages, last, k)[..u] && i in StepOf(stages, last, k)
    ensures i in StepOf(stages, last, k)[..u]
  {
    var step := StepOf(stages, last, k);
    var a :| 0 <= a < u && step[a] == j;
    var c :| 0 <= c < |step| && step[c] == i;
    if a < c { StepAscends(stages, last, k, |stages|, a, c); }
    assert step[..u][c] == i;
  }

  /** Within a step, a position that is issued at all is issued before every later one. */
  lemma PartOfStep(stages: seq<nat>, last: nat, k: nat, u: nat, i: nat, j: nat)
    requires i < j < |stages| && u <= |StepOf(stages, last, k)|
    ensures var part := multiset(StepOf(stages, last, k)[..u]);
            part[j] <= (if Issues(last, k, stages[j]) then 1 else 0)
            && (part[j] == 1 && Issues(last, k, stages[i]) ==> part[i] == 1)
  {
    var step := StepOf(stages, last, k);
    StepCounts(stages, last, k, |stages|, i);
    StepCounts(stages, last, k, |stages|, j);
    assert step == step[..u] + step[u..];
    if j in step[..u] && i in step { EarlierInStep(stages, last, k, u, i, j); }
  }

  lemma {:induction false} ProductGrows(d: nat, x: nat, y: nat)
    requires x < y
    ensures d * x + d <= d * y
  {
    assert d * y == d * (y - 1) + d;
    if x < y - 1 { ProductGrows(d, x, y - 1); }
  }

  lemma QuotientMonotone(a: nat, b: nat, d: nat)
    requires d > 0 && a <= b
    ensures a / d <= b / d
  {
    if b / d < a / d {
      ProductGrows(d, b / d, a / d);
      assert false;
    }
  }

  // ---- Scheduling ----

  /** Stage k of the pipeline: the chosen positions of the body, in body order. */
  ghost predicate IsStep(stage: PipelineStage, body: seq<MachineInstr>, stages: seq<nat>, last: nat, k: nat, cycle: int)
    requires |stages| == |body|
  {
    stage == PipelineStage(Pick(body, StepOf(stages, last, k)), cycle)
  }

  /** The steps of the schedule in time order. */
  function Steps(s: PipelineSchedule): seq<PipelineStage> {
    s.prologue + s.kernel + s.epilogue
  }

  ghost predicate IsModuloSchedule(s: PipelineSchedule, body: seq<MachineInstr>, ii: int, stages: seq<nat>, last: nat) {
    && s.initiationInterval == ii
    && |stages| == |body| && |s.prologue| == last && |s.kernel| == 1 && |s.epilogue| == last
    && (forall k :: 0 <= k < last ==> IsStep(s.prologue[k], body, stages, last, k, k * ii))
    && IsStep(s.kernel[0], body, stages, last, last, last * ii)
    && (forall e :: 0 <= e < last ==> IsStep(s.epilogue[e], body, stages, last, last + 1 + e, (last + 1 + e) * ii))
  }

  /** A position's stage is its place in the body divided by the interval, rounded down. */
  ghost predicate ByDivision(stages: seq<nat>, last: nat, ii: int)
    requires ii >= 1
  {
    && Staged(stages, last)
    && (forall i :: 0 <= i < |stages| ==> stages[i] == i / ii)
    && (stages != [] ==> stages[0] == 0 && stages[|stages| - 1] == last)
  }

  method AssignStages(n: nat, targetII: int) returns (stages: seq<nat>, maxStage: nat)
    requires targetII >= 1 && n > 0
    ensures |stages| == n && ByDivision(stages, maxStage, targetII)
  {
    stages, maxStage := [], 0;
    for i := 0 to n
      invariant |stages| == i && Staged(stages, maxStage)
      invariant forall k :: 0 <= k < i ==> stages[k] == k / targetII
      invariant i == 0 ==> maxStage == 0
      invariant i > 0 ==> stages[0] == 0 && stages[i - 1] == maxStage
    {
      if i > 0 { QuotientMonotone(i - 1, i, targetII); }
      stages := stages + [i / targetII];
      if stages[i] > maxStage {
        maxStage := stages[i];
      }
    }
  }

  /** The instructions of one filling step. */
  method FillStep(body: seq<MachineInstr>, stages: seq<nat>, maxStage: nat, s: nat)
    returns (instructions: seq<MachineInstr>)
    requires |stages| == |body| > 0 && stages[0] == 0 && s < maxStage
    ensures instructions == Pick(body, StepOf(stages, maxStage, s)) && instructions != []
  {
    instructions := [];
    for i := 0 to |body|
      invariant instructions == Pick(body, StepUpTo(stages, maxStage, s, i))
      invariant i > 0 ==> instructions != []
    {
      if stages[i] <= s {
        instructions := instructions + [body[i]];
      }
    }
  }

  /** The instructions of one draining step. */
  method DrainStep(body: seq<MachineInstr>, stages: seq<nat>, maxStage: nat, s: nat)
    returns (instructions: seq<MachineInstr>)
    requires |stages| == |body| > 0 && stages[|body| - 1] == maxStage && s < maxStage
    ensures instructions == Pick(body, StepOf(stages, maxStage, 2 * maxStage - s)) && instructions != []
  {
    instructions := [];
    for i := 0 to |body|
      invariant instructions == Pick(body, StepUpTo(stages, maxStage, 2 * maxStage - s, i))
      invariant i == |body| ==> instructions != []
    {
      if stages[i] > s {
        instructions := instructions + [body[i]];
      }
    }
  }

  lemma {:induction false} KernelIssuesAll(stages: seq<nat>, last: nat, bound: nat)
    requires bound <= |stages|
    ensures StepUpTo(stages, last, last, bound) == Identity(bound)
  {
    if bound > 0 {
      KernelIssuesAll(stages, last, bound - 1);
      assert Identity(bound) == Identity(bound - 1) + [bound - 1];
    }
  }

  method ModuloScheduling(body: seq<MachineInstr>, targetII: int)
    returns (schedule: PipelineSchedule, ghost stages: seq<nat>, ghost last: nat)
    requires targetII >= 1
    ensures body == [] ==> schedule == PipelineSchedule([], [], [], targetII)
    ensures body != [] ==>
              && IsModuloSchedule(schedule, body, targetII, stages, last)
              && ByDivision(stages, last, targetII)
              && schedule.kernel[0].instructions == body
  {
    stages, last := [], 0;
    if body == [] {
      return PipelineSchedule([], [], [], targetII), stages, last;
    }
    var stageOf, maxStage := AssignStages(|body|, targetII);
    stages, last := stageOf, maxStage;
    var prologue := [];
    for s := 0 to maxStage
      invariant |prologue| == s
      invariant forall k :: 0 <= k < s ==> IsStep(prologue[k], body, stages, last, k, k * targetII)
    {
      var instructions := FillStep(body, stageOf, maxStage, s);
      if instructions != [] {
        prologue := prologue + [PipelineStage(instructions, s * targetII)];
      }
    }
    var kernel := [PipelineStage(body, maxStage * targetII)];
    KernelIssuesAll(stages, last, |stages|);
    assert Pick(body, Identity(|body|)) == body;
    var epilogue := [];
    for s := maxStage downto 0
      invariant |epilogue| == maxStage - s
      invariant forall e :: 0 <= e < maxStage - s ==>
                  IsStep(epilogue[e], body, stages, last, last + 1 + e, (last + 1 + e) * targetII)
    {
      var instructions := DrainStep(body, stageOf, maxStage, s);
      if instructions != [] {
        epilogue := epilogue + [PipelineStage(instructions, (maxStage + (maxStage - s)) * targetII)];
      }
    }
    schedule := PipelineSchedule(prologue, kernel, epilogue, targetII);
  }

  /** Step by step, the instructions of the schedule are the issued positions of the body. */
  function Flatten(steps: seq<PipelineStage>): seq<MachineInstr> {
    if steps == [] then [] else Flatten(steps[..|steps| - 1]) + steps[|steps| - 1].instructions
  }

  lemma {:induction false} ScheduleIssues(s: PipelineSchedule, body: seq<MachineInstr>, ii: int,
                                          stages: seq<nat>, last: nat, k: nat)
    requires IsModuloSchedule(s, body, ii, stages, last) && k <= 2 * last + 1
    ensures |Steps(s)| == 2 * last + 1
    ensures Flatten(Steps(s)[..k]) == Pick(body, Issued(stages, last, k))
  {
    if k > 0 {
      ScheduleIssues(s, body, ii, stages, last, k - 1);
      assert Steps(s)[..k][..k - 1] == Steps(s)[..k - 1];
      PickAppend(body, Issued(stages, last, k - 1), StepOf(stages, last, k - 1));
      StepAt(s, body, ii, stages, last, k - 1);
    }
  }

  lemma StepAt(s: PipelineSchedule, body: seq<MachineInstr>, ii: int, stages: seq<nat>, last: nat, k: nat)
    requires IsModuloSchedule(s, body, ii, stages, last) && k < 2 * last + 1
    ensures |Steps(s)| == 2 * last + 1 && IsStep(Steps(s)[k], body, stages, last, k, k * ii)
  {
    if k > last {
      assert Steps(s)[k] == s.epilogue[k - (last + 1)];
    }
  }

  /** One step per interval: cycles are the multiples of the interval, so they strictly increase. */
  lemma CyclesIncrease(s: PipelineSchedule, body: seq<MachineInstr>, ii: int, stages: seq<nat>, last: nat, k: nat,
                       l: nat)
    requires IsModuloSchedule(s, body, ii, stages, last) && ii >= 1 && k < l < |Steps(s)|
    ensures Steps(s)[k].cycle < Steps(s)[l].cycle
  {
    StepAt(s, body, ii, stages, last, k);
    StepAt(s, body, ii, stages, last, l);
    ProductGrows(ii, k, l);
  }

  /** The least sustainable interval that is at least the given bound. */
  ghost predicate IsLeastInterval(body: seq<MachineInstr>, ii: int, bound: int) {
    && ii >= bound && Sustainable(body, ii)
    && forall i :: bound <= i < ii ==> !Sustainable(body, i)
  }

  lemma SustainableStays(body: seq<MachineInstr>, ii: int, more: int)
    requires Sustainable(body, ii) && ii <= more
    ensures Sustainable(body, more)
  {
  }

  /** Loops known to run fewer than four times stay as they are; side effects force an interval of two. */
  method PipelineLoop(loopBody: seq<MachineInstr>, loopInfo: LoopInfo)
    returns (schedule: PipelineSchedule, ghost stages: seq<nat>, ghost last: nat)
    ensures 0 <= loopInfo.tripCount < 4 ==>
              schedule == PipelineSchedule([], [PipelineStage(loopBody, 0)], [], 1)
    ensures !(0 <= loopInfo.tripCount < 4) && loopBody != [] ==>
              && schedule.initiationInterval >= 1
              && IsModuloSchedule(schedule, loopBody, schedule.initiationInterval, stages, last)
              && ByDivision(stages, last, schedule.initiationInterval)
    ensures !(0 <= loopInfo.tripCount < 4) ==>
              && IsLeastInterval(loopBody, schedule.initiationInterval, if loopInfo.hasSideEffects then 2 else 1)
    ensures !(0 <= loopInfo.tripCount < 4) && loopBody == [] ==>
              schedule == PipelineSchedule([], [], [], if loopInfo.hasSideEffects then 2 else 1)
  {
    stages, last := [], 0;
    var mii := ComputeMII(loopBody);
    if loopInfo.tripCount >= 0 && loopInfo.tripCount < 4 {
      return PipelineSchedule([], [PipelineStage(loopBody, 0)], [], 1), stages, last;
    }
    var targetII := mii;
    if loopInfo.hasSideEffects {
      targetII := Max(targetII, 2);
    }
    SustainableStays(loopBody, mii, targetII);
    schedule, stages, last := ModuloScheduling(loopBody, targetII);
  }
}
