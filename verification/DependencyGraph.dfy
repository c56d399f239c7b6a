/** The dependency graph of a block, and what reordering along it preserves. */
module DependencyGraph {
  import opened MachineIR
  import opened Meaning
  import opened Sequences
  import opened Dags

  type Block = seq<MachineInstr>

  predicate HasEdge(b: Block, i: nat, j: nat) {
    && i < j < |b|
    && (|| HasDataDependency(b[i], b[j])
        || HasMemoryDependency(b[i], b[j])
        || b[i].terminator || b[j].terminator)
  }

  function GraphOf(b: Block): Dag {
    Dag(|b|, (i: nat, j: nat) => HasEdge(b, i, j), (i: nat) => if i < |b| then Latency(b[i].opcode) else 0)
  }

  /** g is the dependency graph of b; stated so that proofs look inside an edge only on demand. */
  ghost predicate IsGraphOf(g: Dag, b: Block) {
    && g.n == |b|
    && (forall i: nat, j: nat {:trigger HasEdge(b, i, j)} :: g.edge(i, j) <==> HasEdge(b, i, j))
    && (forall i: nat {:trigger Latency(b[i].opcode)} :: i < |b| ==> g.cost(i) == Latency(b[i].opcode))
  }

  /** Every pair of instructions that may not trade places is ordered by the graph. */
  ghost predicate Covered(m: Machine, b: Block) {
    forall i, j :: 0 <= i < j < |b| && Conflicts(m, b[i], b[j]) ==> Reaches(GraphOf(b), i, j)
  }

  lemma CoveredOrdersAgree(m: Machine, b: Block, order: seq<nat>)
    requires LinearExtension(GraphOf(b), order) && Covered(m, b)
    ensures Agree(m, b, Identity(|b|), order)
  {
    var id := Identity(|b|);
    forall x | x in order ensures x in id { assert id[x] == x; }
    forall i, j | 0 <= i < j < |id| && Conflicts(m, b[id[i]], b[id[j]]) ensures Before(order, id[i], id[j]) {
      assert Reaches(GraphOf(b), i, j);
      var p :| Path(GraphOf(b), p) && First(p) == i && Last(p) == j;
      PathKeepsOrder(GraphOf(b), order, p);
    }
  }

  /** Every legal order of a covered block computes what the block computes. */
  lemma LegalOrderKeepsMeaning(m: Machine, b: Block, order: seq<nat>, s: State)
    requires LinearExtension(GraphOf(b), order) && Covered(m, b)
    ensures Run(m, Pick(b, order), s) == Run(m, b, s)
  {
    CoveredOrdersAgree(m, b, order);
    AgreeingOrdersRunAlike(m, b, Identity(|b|), order, s);
    assert Pick(b, Identity(|b|)) == b;
  }

  /** Only instructions the dependency test regards as memory accesses reach memory. */
  ghost predicate OnlyLoadsAndStoresTouchMemory(m: Machine, b: Block) {
    forall i :: 0 <= i < |b| ==>
      && (m.loads(b[i]) ==> b[i].opcode == Load || b[i].opcode == Store)
      && (m.stores(b[i]) ==> b[i].opcode == Store)
  }

  /** Each virtual register is defined at most once and never read before its definition. */
  ghost predicate SingleAssignment(b: Block) {
    forall i, j :: 0 <= i < j < |b| && b[j].def >= 0 ==> b[i].def != b[j].def && !Reads(b[i], b[j].def)
  }

  /** No edge is there in vain: where only loads and stores reach memory, its two instructions interfere. */
  lemma EdgesAreNeeded(m: Machine, b: Block, i: nat, j: nat)
    requires HasEdge(b, i, j)
    requires forall k :: 0 <= k < |b| ==>
               (m.loads(b[k]) <==> b[k].opcode == Load) && (m.stores(b[k]) <==> b[k].opcode == Store)
    ensures Interferes(m, b[i], b[j])
  {
  }

  lemma SingleAssignmentIsCovered(m: Machine, b: Block)
    requires SingleAssignment(b) && OnlyLoadsAndStoresTouchMemory(m, b)
    ensures Covered(m, b)
  {
    forall i, j | 0 <= i < j < |b| && Conflicts(m, b[i], b[j]) ensures Reaches(GraphOf(b), i, j) {
      assert HasEdge(b, i, j) && Edge(GraphOf(b), i, j);
      var p: seq<nat> := [i, j];
      assert Path(GraphOf(b), p) && First(p) == i && Last(p) == j;
    }
  }

  /** Coverage is exactly what makes every legal order keep every conflicting pair in order. */
  lemma CoverageIsExact(m: Machine, b: Block)
    ensures Covered(m, b) <==>
            forall order :: LinearExtension(GraphOf(b), order) ==> Agree(m, b, Identity(|b|), order)
  {
    if Covered(m, b) {
      forall order | LinearExtension(GraphOf(b), order) ensures Agree(m, b, Identity(|b|), order) {
        CoveredOrdersAgree(m, b, order);
      }
    } else {
      var i, j :| 0 <= i < j < |b| && Conflicts(m, b[i], b[j]) && !Reaches(GraphOf(b), i, j);
      HoistIsLegal(GraphOf(b), j);
      HoistReverses(GraphOf(b), i, j);
      var id := Identity(|b|);
      assert Conflicts(m, b[id[i]], b[id[j]]);
      assert !Agree(m, b, id, HoistOrder(GraphOf(b), j));
    }
  }
}
