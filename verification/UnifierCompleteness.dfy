/**
  When a call succeeds: exactly when a unifier exists and the run never meets a pair that the occurs
  check refuses although it can be unified.
 */
module UnifierCompleteness {
  import opened Types
  import opened Terms
  import opened Unification
  import opened UnifierTheorems

  /**
    The occurs check refuses the pair, but not because of an occurrence that equality looks at: the
    term is a variable, or holds the name among the arguments of variables and primitive types only.
   */
  predicate Needless(v: Type, value: Type) {
    Occurs(VarKey(v), value) && (IsVar(value) || !Shows(VarKey(v), value))
  }

  /** The call comes upon a pair that is refused needlessly. */
  ghost predicate RefusesNeedlessly(s: Subst, universe: set<string>, a: Type, b: Type)
    requires Over(s, universe) && Within(universe, a) && Within(universe, b)
    decreases Unbound(s, universe), Size(Apply(s, a)), 0
  {
    var aa, bb := Apply(s, a), Apply(s, b);
    if IsVar(aa) then Needless(aa, bb)
    else if IsVar(bb) then Needless(bb, aa)
    else
      && SameOperator(aa, bb) && !IsPrimitive(aa)
      && (AppliedParts(s, universe, a, b);
          RefusesNeedlesslyInAll(s, universe, aa.args, bb.args))
  }

  ghost predicate RefusesNeedlesslyInAll(s: Subst, universe: set<string>, xs: seq<Type>, ys: seq<Type>)
    requires Over(s, universe) && AllWithin(universe, xs) && AllWithin(universe, ys) && |xs| == |ys|
    decreases Unbound(s, universe), AppliedSize(s, xs), 1
  {
    if xs == [] then false
    else
      UnifyAllStep(s, universe, xs, ys);
      var r := Unify(s, universe, xs[0], ys[0]);
      || RefusesNeedlessly(s, universe, xs[0], ys[0])
      || (r.ok && RefusesNeedlesslyInAll(r.subst, universe, xs[1..], ys[1..]))
  }

  lemma AppliedParts(s: Subst, universe: set<string>, a: Type, b: Type)
    requires Over(s, universe) && Within(universe, a) && Within(universe, b)
    ensures Within(universe, Apply(s, a)) && Within(universe, Apply(s, b))
    ensures Resolved(s, Apply(s, a)) && Resolved(s, Apply(s, b))
    ensures !IsVar(Apply(s, a)) ==>
              AllWithin(universe, Apply(s, a).args) && AppliedSize(s, Apply(s, a).args) < Size(Apply(s, a))
    ensures !IsVar(Apply(s, b)) ==> AllWithin(universe, Apply(s, b).args)
  {
    ApplyStaysWithin(s, universe, a);
    ApplyStaysWithin(s, universe, b);
    ApplyResolves(s, a);
    ApplyResolves(s, b);
    if !IsVar(Apply(s, a)) {
      WithinParts(universe, Apply(s, a));
      ResolvedParts(s, Apply(s, a));
    }
    if !IsVar(Apply(s, b)) { WithinParts(universe, Apply(s, b)); }
  }

  lemma {:induction false} NeedlessRefusalFails(s: Subst, universe: set<string>, a: Type, b: Type)
    requires Over(s, universe) && Within(universe, a) && Within(universe, b)
    requires RefusesNeedlessly(s, universe, a, b)
    ensures !Unify(s, universe, a, b).ok
    decreases Unbound(s, universe), Size(Apply(s, a)), 0
  {
    var aa, bb := Apply(s, a), Apply(s, b);
    AppliedParts(s, universe, a, b);
    if IsVar(aa) {
      UnboundVar(s, aa);
      ApplyFixes(s, bb);
    } else if IsVar(bb) {
      UnboundVar(s, bb);
      ApplyFixes(s, aa);
    } else {
      NeedlessRefusalFailsInAll(s, universe, aa.args, bb.args);
    }
  }

  lemma {:induction false} NeedlessRefusalFailsInAll(s: Subst, universe: set<string>, xs: seq<Type>, ys: seq<Type>)
    requires Over(s, universe) && AllWithin(universe, xs) && AllWithin(universe, ys) && |xs| == |ys|
    requires RefusesNeedlesslyInAll(s, universe, xs, ys)
    ensures !UnifyAll(s, universe, xs, ys).ok
    decreases Unbound(s, universe), AppliedSize(s, xs), 1
  {
    UnifyAllStep(s, universe, xs, ys);
    var r := Unify(s, universe, xs[0], ys[0]);
    if RefusesNeedlessly(s, universe, xs[0], ys[0]) {
      NeedlessRefusalFails(s, universe, xs[0], ys[0]);
    } else {
      NeedlessRefusalFailsInAll(r.subst, universe, xs[1..], ys[1..]);
    }
  }

  // ---- Completeness ----

  lemma BindSucceeds(theta: Assignment, s: Subst, universe: set<string>, v: Type, value: Type)
    requires Over(s, universe) && Within(universe, v) && Within(universe, value)
    requires IsVar(v) && VarKey(v) !in s.bindings && Resolved(s, value)
    requires Unifies(theta, v, value) && !Needless(v, value)
    ensures Bind(s, universe, v, value).ok
  {
    ApplyFixes(s, value);
    if Occurs(VarKey(v), value) {
      OccursMeansNoSolution(theta, VarKey(v), value);
    }
  }

  lemma {:induction false} UnifyComplete(theta: Assignment, s: Subst, universe: set<string>, a: Type, b: Type)
    requires Over(s, universe) && Within(universe, a) && Within(universe, b)
    requires Respects(theta, s) && Unifies(theta, a, b)
    requires !RefusesNeedlessly(s, universe, a, b)
    ensures Unify(s, universe, a, b).ok
    decreases Unbound(s, universe), Size(Apply(s, a)), 0
  {
    var aa, bb := Apply(s, a), Apply(s, b);
    AppliedParts(s, universe, a, b);
    UnifiesApplied(theta, s, a, b);
    if IsVar(aa) {
      UnboundVar(s, aa);
      BindSucceeds(theta, s, universe, aa, bb);
    } else if IsVar(bb) {
      UnboundVar(s, bb);
      EqvSymmetric(Inst(theta, aa), Inst(theta, bb));
      BindSucceeds(theta, s, universe, bb, aa);
    } else if !IsPrimitive(aa) {
      PartsUnified(theta, aa, bb);
      assert Inst(theta, aa).lifetime == Inst(theta, bb).lifetime;
      assert SameOperator(aa, bb);
      UnifyAllComplete(theta, s, universe, aa.args, bb.args);
    }
  }

  lemma {:induction false} UnifyAllComplete(theta: Assignment, s: Subst, universe: set<string>,
                                            xs: seq<Type>, ys: seq<Type>)
    requires Over(s, universe) && AllWithin(universe, xs) && AllWithin(universe, ys) && |xs| == |ys|
    requires Respects(theta, s) && UnifiesAll(theta, xs, ys)
    requires !RefusesNeedlesslyInAll(s, universe, xs, ys)
    ensures UnifyAll(s, universe, xs, ys).ok
    decreases Unbound(s, universe), AppliedSize(s, xs), 1
  {
    if xs != [] {
      UnifyAllStep(s, universe, xs, ys);
      UnifyComplete(theta, s, universe, xs[0], ys[0]);
      UnifyMostGeneral(theta, s, universe, xs[0], ys[0]);
      UnifyAllComplete(theta, Unify(s, universe, xs[0], ys[0]).subst, universe, xs[1..], ys[1..]);
    }
  }

  // ---- The solution of a successful call is a unifier ----

  ghost function SomeVar(key: string): Type
    ensures IsVar(SomeVar(key)) || forall v: Type :: IsVar(v) ==> VarKey(v) != key
    ensures IsVar(SomeVar(key)) ==> VarKey(SomeVar(key)) == key
  {
    if exists v: Type :: IsVar(v) && VarKey(v) == key then
      var v: Type :| IsVar(v) && VarKey(v) == key; v
    else Plain(Void, "void", [])
  }

  /** The assignment a substitution stands for. */
  ghost function Solution(s: Subst): Assignment
    requires Triangular(s)
  {
    key => if key in s.bindings then Apply(s, s.bindings[key]) else SomeVar(key)
  }

  lemma {:induction false} SolutionApplies(s: Subst, t: Type)
    requires Triangular(s)
    ensures Eqv(Inst(Solution(s), t), Apply(s, t))
  {
    if IsVar(t) {
      EqvReflexive(Apply(s, t));
    } else if !IsPrimitive(t) {
      var x, y := Inst(Solution(s), t), Apply(s, t);
      forall i | 0 <= i < |x.args| ensures Eqv(x.args[i], y.args[i]) { SolutionApplies(s, t.args[i]); }
    }
  }

  lemma SolutionRespects(s: Subst)
    requires Triangular(s)
    ensures Respects(Solution(s), s)
  {
    forall k | k in s.bindings ensures Eqv(Solution(s)(k), Inst(Solution(s), s.bindings[k])) {
      SolutionApplies(s, s.bindings[k]);
      EqvSymmetric(Inst(Solution(s), s.bindings[k]), Solution(s)(k));
    }
  }

  ghost predicate Unifiable(s: Subst, a: Type, b: Type) {
    exists theta: Assignment :: Respects(theta, s) && Unifies(theta, a, b)
  }

  /** Success is exactly unifiability, except where the occurs check refuses needlessly. */
  lemma SuccessIsExact(s: Subst, universe: set<string>, a: Type, b: Type)
    requires Over(s, universe) && Within(universe, a) && Within(universe, b)
    ensures Unify(s, universe, a, b).ok <==> Unifiable(s, a, b) && !RefusesNeedlessly(s, universe, a, b)
  {
    if Unify(s, universe, a, b).ok {
      var s' := Unify(s, universe, a, b).subst;
      SolutionRespects(s');
      UnifiersAreTheInstances(Solution(s'), s, universe, a, b);
      if RefusesNeedlessly(s, universe, a, b) { NeedlessRefusalFails(s, universe, a, b); }
    } else if Unifiable(s, a, b) && !RefusesNeedlessly(s, universe, a, b) {
      var theta: Assignment :| Respects(theta, s) && Unifies(theta, a, b);
      UnifyComplete(theta, s, universe, a, b);
    }
  }

  // ---- Two failures that need no binding at all, or a harmless one ----

  function Pair(x: Type, y: Type): Type {
    Plain(Tuple, "tuple", [x, y])
  }

  /** A fresh variable does not unify with itself, although every assignment is a unifier. */
  lemma VariableFailsWithItself(universe: set<string>, t: Type)
    requires IsVar(t) && Within(universe, t)
    ensures !Unify(Subst(map[], []), universe, t, t).ok
    ensures forall theta: Assignment :: Unifies(theta, t, t)
  {
    var s := Subst(map[], []);
    assert Apply(s, t) == t;
    assert RefusesNeedlessly(s, universe, t, t);
    NeedlessRefusalFails(s, universe, t, t);
    forall theta: Assignment ensures Unifies(theta, t, t) { EqvReflexive(Inst(theta, t)); }
  }

  /** A fresh variable does not unify with an int that has it for an argument, although both can be int. */
  lemma HiddenOccurrenceFails(universe: set<string>, t: Type)
    requires IsVar(t) && Within(universe, t) && Within(universe, Plain(Int, "int", [t]))
    ensures !Unify(Subst(map[], []), universe, t, Plain(Int, "int", [t])).ok
    ensures Unifiable(Subst(map[], []), t, Plain(Int, "int", [t]))
  {
    var s, x := Subst(map[], []), Plain(Int, "int", [t]);
    assert Occurs(VarKey(x.args[0]), x.args[0]);
    ApplyFixes(s, t);
    ApplyFixes(s, x);
    var theta: Assignment := key => x;
    assert Respects(theta, s) && Unifies(theta, t, x);
  }

  /** A pair of one variable does not unify with a pair of another: the second round meets the first binding. */
  lemma RepeatedVariablesFail(universe: set<string>, t: Type, u: Type)
    requires IsVar(t) && IsVar(u) && VarKey(t) != VarKey(u) && t.args == u.args == []
    requires Within(universe, t) && Within(universe, u)
    requires Within(universe, Pair(t, t)) && Within(universe, Pair(u, u))
    ensures !Unify(Subst(map[], []), universe, Pair(t, t), Pair(u, u)).ok
    ensures Unifiable(Subst(map[], []), Pair(t, t), Pair(u, u))
  {
    SecondArgumentFails(universe, t, u);
    ArgumentsFail(universe, Pair(t, t), Pair(u, u));
    SameImageUnifies(t, u);
  }

  lemma ArgumentsFail(universe: set<string>, x: Type, y: Type)
    requires Within(universe, x) && Within(universe, y) && AllWithin(universe, x.args) && AllWithin(universe, y.args)
    requires !IsVar(x) && !IsVar(y) && !IsPrimitive(x) && |x.args| == |y.args|
    requires !UnifyAll(Subst(map[], []), universe, x.args, y.args).ok
    ensures !Unify(Subst(map[], []), universe, x, y).ok
  {
    ApplyFixes(Subst(map[], []), x);
    ApplyFixes(Subst(map[], []), y);
  }

  lemma SecondArgumentFails(universe: set<string>, t: Type, u: Type)
    requires IsVar(t) && IsVar(u) && VarKey(t) != VarKey(u) && t.args == u.args == []
    requires Within(universe, t) && Within(universe, u)
    ensures !UnifyAll(Subst(map[], []), universe, [t, t], [u, u]).ok
  {
    var s := Subst(map[], []);
    var r := Unify(s, universe, t, u);
    SecondRoundRefuses(universe, t, u);
    assert [t, t][1..] == [t] && [u, u][1..] == [u];
    UnifyAllStep(s, universe, [t, t], [u, u]);
    NeedlessRefusalFails(r.subst, universe, t, u);
  }

  lemma SameImageUnifies(t: Type, u: Type)
    requires IsVar(t) && IsVar(u)
    ensures Unifiable(Subst(map[], []), Pair(t, t), Pair(u, u))
  {
    var theta: Assignment := key => u;
    EqvReflexive(Inst(theta, Pair(t, t)));
    assert Inst(theta, Pair(t, t)) == Inst(theta, Pair(u, u));
    assert Respects(theta, Subst(map[], [])) && Unifies(theta, Pair(t, t), Pair(u, u));
  }

  lemma SecondRoundRefuses(universe: set<string>, t: Type, u: Type)
    requires IsVar(t) && IsVar(u) && VarKey(t) != VarKey(u) && t.args == u.args == []
    requires Within(universe, t) && Within(universe, u)
    ensures var r := Unify(Subst(map[], []), universe, t, u);
            r.ok && RefusesNeedlessly(r.subst, universe, t, u)
  {
    var s := Subst(map[], []);
    ApplyFixes(s, t);
    ApplyFixes(s, u);
    var s' := Unify(s, universe, t, u).subst;
    assert s'.bindings == map[VarKey(t) := u];
    assert Apply(s', u) == u;
    assert Apply(s', t) == Apply(s', s'.bindings[VarKey(t)]);
  }
}
