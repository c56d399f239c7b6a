/** What a call of the unifier achieves. */
module UnifierTheorems {
  import opened Types
  import opened Terms
  import opened Unification

  /** One round of the argument loop, with the measure that ends it. */
  lemma UnifyAllStep(s: Subst, universe: set<string>, xs: seq<Type>, ys: seq<Type>)
    requires Over(s, universe) && AllWithin(universe, xs) && AllWithin(universe, ys) && |xs| == |ys|
    requires xs != []
    ensures var r := Unify(s, universe, xs[0], ys[0]);
            && AllWithin(universe, xs[1..]) && AllWithin(universe, ys[1..])
            && (UnifyAll(s, universe, xs, ys) == if r.ok then UnifyAll(r.subst, universe, xs[1..], ys[1..]) else r)
            && Size(Apply(s, xs[0])) <= AppliedSize(s, xs)
            && (|| Unbound(r.subst, universe) < Unbound(s, universe)
                || (Unbound(r.subst, universe) == Unbound(s, universe)
                    && AppliedSize(r.subst, xs[1..]) < AppliedSize(s, xs)))
  {
    FewerUnbound(s, Unify(s, universe, xs[0], ys[0]).subst, universe);
  }

  // ---- Soundness ----

  lemma StaysEquated(s: Subst, s': Subst, x: Type, y: Type)
    requires Extends(s, s') && Eqv(Apply(s, x), Apply(s, y))
    ensures Eqv(Apply(s', x), Apply(s', y))
  {
    ApplyAbsorbs(s, s', x);
    ApplyAbsorbs(s, s', y);
    ApplyCongruence(s', Apply(s, x), Apply(s, y));
  }

  lemma BindSound(s: Subst, universe: set<string>, v: Type, value: Type)
    requires Over(s, universe) && Within(universe, v) && Within(universe, value)
    requires IsVar(v) && VarKey(v) !in s.bindings
    requires Bind(s, universe, v, value).ok
    ensures var s' := Bind(s, universe, v, value).subst; Eqv(Apply(s', v), Apply(s', value))
  {
    var s' := Bind(s, universe, v, value).subst;
    ApplyAbsorbs(s, s', value);
    assert Apply(s', v) == Apply(s', s'.bindings[VarKey(v)]);
    EqvReflexive(Apply(s', v));
  }

  /** After a successful call both sides are equal once the bindings are applied. */
  lemma {:induction false} UnifySound(s: Subst, universe: set<string>, a: Type, b: Type)
    requires Over(s, universe) && Within(universe, a) && Within(universe, b)
    requires Unify(s, universe, a, b).ok
    ensures var s' := Unify(s, universe, a, b).subst; Eqv(Apply(s', a), Apply(s', b))
    decreases Unbound(s, universe), Size(Apply(s, a)), 0
  {
    var s' := Unify(s, universe, a, b).subst;
    var aa, bb := Apply(s, a), Apply(s, b);
    ApplyStaysWithin(s, universe, a);
    ApplyStaysWithin(s, universe, b);
    ApplyResolves(s, a);
    ApplyResolves(s, b);
    ApplyAbsorbs(s, s', a);
    ApplyAbsorbs(s, s', b);
    if IsVar(aa) {
      UnboundVar(s, aa);
      BindSound(s, universe, aa, bb);
    } else if IsVar(bb) {
      UnboundVar(s, bb);
      BindSound(s, universe, bb, aa);
      EqvSymmetric(Apply(s', bb), Apply(s', aa));
    } else if !IsPrimitive(aa) {
      WithinParts(universe, aa);
      WithinParts(universe, bb);
      ResolvedParts(s, aa);
      UnifyAllSound(s, universe, aa.args, bb.args);
      forall i | 0 <= i < |aa.args| ensures Eqv(Apply(s', aa).args[i], Apply(s', bb).args[i]) {
        EquatedAt(s', aa.args, bb.args, i);
      }
    }
  }

  ghost predicate AllEquated(s: Subst, xs: seq<Type>, ys: seq<Type>)
    requires Triangular(s) && |xs| == |ys|
  {
    xs != [] ==> Eqv(Apply(s, xs[0]), Apply(s, ys[0])) && AllEquated(s, xs[1..], ys[1..])
  }

  lemma {:induction false} EquatedAt(s: Subst, xs: seq<Type>, ys: seq<Type>, i: nat)
    requires Triangular(s) && |xs| == |ys| && i < |xs|
    requires AllEquated(s, xs, ys)
    ensures Eqv(Apply(s, xs[i]), Apply(s, ys[i]))
  {
    if i > 0 { EquatedAt(s, xs[1..], ys[1..], i - 1); }
  }

  lemma {:induction false} UnifyAllSound(s: Subst, universe: set<string>, xs: seq<Type>, ys: seq<Type>)
    requires Over(s, universe) && AllWithin(universe, xs) && AllWithin(universe, ys) && |xs| == |ys|
    requires UnifyAll(s, universe, xs, ys).ok
    ensures var s' := UnifyAll(s, universe, xs, ys).subst;
            AllEquated(s', xs, ys)
    decreases Unbound(s, universe), AppliedSize(s, xs), 1
  {
    if xs != [] {
      var r := Unify(s, universe, xs[0], ys[0]);
      UnifyAllStep(s, universe, xs, ys);
      UnifySound(s, universe, xs[0], ys[0]);
      UnifyAllSound(r.subst, universe, xs[1..], ys[1..]);
      StaysEquated(r.subst, UnifyAll(s, universe, xs, ys).subst, xs[0], ys[0]);
    }
  }

  // ---- Most general ----

  /** The assignment satisfies every binding. */
  ghost predicate Respects(theta: Assignment, s: Subst) {
    forall k :: k in s.bindings ==> Eqv(theta(k), Inst(theta, s.bindings[k]))
  }

  ghost predicate Unifies(theta: Assignment, a: Type, b: Type) {
    Eqv(Inst(theta, a), Inst(theta, b))
  }

  /** Bindings an assignment satisfies can be applied without changing what it makes of a term. */
  lemma {:induction false} InstAbsorbs(theta: Assignment, s: Subst, t: Type)
    requires Triangular(s) && Respects(theta, s)
    ensures Eqv(Inst(theta, t), Inst(theta, Apply(s, t)))
    decreases Level(s.trail, t), t
  {
    if IsVar(t) {
      if VarKey(t) in s.bindings {
        ImageIsLower(s, t);
        InstAbsorbs(theta, s, s.bindings[VarKey(t)]);
        EqvTransitive(Inst(theta, t), Inst(theta, s.bindings[VarKey(t)]), Inst(theta, Apply(s, t)));
      } else {
        EqvReflexive(Inst(theta, t));
      }
    } else if !IsPrimitive(t) {
      var x, y := Inst(theta, t), Inst(theta, Apply(s, t));
      forall i | 0 <= i < |x.args| ensures Eqv(x.args[i], y.args[i]) {
        LevelOfPart(s.trail, t, i);
        InstAbsorbs(theta, s, t.args[i]);
      }
    }
  }

  lemma UnifiesApplied(theta: Assignment, s: Subst, a: Type, b: Type)
    requires Triangular(s) && Respects(theta, s)
    ensures Unifies(theta, a, b) <==> Unifies(theta, Apply(s, a), Apply(s, b))
  {
    var x, y := Inst(theta, a), Inst(theta, b);
    var x', y' := Inst(theta, Apply(s, a)), Inst(theta, Apply(s, b));
    InstAbsorbs(theta, s, a);
    InstAbsorbs(theta, s, b);
    EqvSymmetric(x, x');
    EqvSymmetric(y, y');
    if Eqv(x, y) {
      EqvTransitive(x', x, y);
      EqvTransitive(x', y, y');
    }
    if Eqv(x', y') {
      EqvTransitive(x, x', y');
      EqvTransitive(x, y', y);
    }
  }

  lemma BindMostGeneral(theta: Assignment, s: Subst, universe: set<string>, v: Type, value: Type)
    requires Over(s, universe) && Within(universe, v) && Within(universe, value)
    requires IsVar(v) && VarKey(v) !in s.bindings
    requires Respects(theta, s) && Unifies(theta, v, value)
    ensures Respects(theta, Bind(s, universe, v, value).subst)
  {
    InstAbsorbs(theta, s, value);
    EqvTransitive(theta(VarKey(v)), Inst(theta, value), Inst(theta, Apply(s, value)));
  }

  /** No binding excludes a unifier: not even those a failing call leaves behind. */
  lemma {:induction false} UnifyMostGeneral(theta: Assignment, s: Subst, universe: set<string>, a: Type, b: Type)
    requires Over(s, universe) && Within(universe, a) && Within(universe, b)
    requires Respects(theta, s) && Unifies(theta, a, b)
    ensures Respects(theta, Unify(s, universe, a, b).subst)
    decreases Unbound(s, universe), Size(Apply(s, a)), 0
  {
    var aa, bb := Apply(s, a), Apply(s, b);
    ApplyStaysWithin(s, universe, a);
    ApplyStaysWithin(s, universe, b);
    ApplyResolves(s, a);
    ApplyResolves(s, b);
    UnifiesApplied(theta, s, a, b);
    if IsVar(aa) {
      UnboundVar(s, aa);
      BindMostGeneral(theta, s, universe, aa, bb);
    } else if IsVar(bb) {
      UnboundVar(s, bb);
      EqvSymmetric(Inst(theta, aa), Inst(theta, bb));
      BindMostGeneral(theta, s, universe, bb, aa);
    } else if !IsPrimitive(aa) && SameOperator(aa, bb) {
      WithinParts(universe, aa);
      WithinParts(universe, bb);
      ResolvedParts(s, aa);
      PartsUnified(theta, aa, bb);
      UnifyAllMostGeneral(theta, s, universe, aa.args, bb.args);
    }
  }

  lemma PartsUnified(theta: Assignment, x: Type, y: Type)
    requires Unifies(theta, x, y) && !IsVar(x) && !IsVar(y) && !IsPrimitive(x)
    ensures |x.args| == |y.args| && UnifiesAll(theta, x.args, y.args)
  {
    var ix, iy := Inst(theta, x), Inst(theta, y);
    forall i | 0 <= i < |x.args| ensures Unifies(theta, x.args[i], y.args[i]) {
      assert Eqv(ix.args[i], iy.args[i]);
    }
    PartsUnifiedFrom(theta, x.args, y.args);
  }

  ghost predicate UnifiesAll(theta: Assignment, xs: seq<Type>, ys: seq<Type>)
    requires |xs| == |ys|
  {
    xs != [] ==> Unifies(theta, xs[0], ys[0]) && UnifiesAll(theta, xs[1..], ys[1..])
  }

  lemma {:induction false} PartsUnifiedFrom(theta: Assignment, xs: seq<Type>, ys: seq<Type>)
    requires |xs| == |ys| && forall i :: 0 <= i < |xs| ==> Unifies(theta, xs[i], ys[i])
    ensures UnifiesAll(theta, xs, ys)
  {
    if xs != [] { PartsUnifiedFrom(theta, xs[1..], ys[1..]); }
  }

  lemma {:induction false} UnifyAllMostGeneral(theta: Assignment, s: Subst, universe: set<string>,
                                               xs: seq<Type>, ys: seq<Type>)
    requires Over(s, universe) && AllWithin(universe, xs) && AllWithin(universe, ys) && |xs| == |ys|
    requires Respects(theta, s) && UnifiesAll(theta, xs, ys)
    ensures Respects(theta, UnifyAll(s, universe, xs, ys).subst)
    decreases Unbound(s, universe), AppliedSize(s, xs), 1
  {
    if xs != [] {
      var r := Unify(s, universe, xs[0], ys[0]);
      UnifyAllStep(s, universe, xs, ys);
      UnifyMostGeneral(theta, s, universe, xs[0], ys[0]);
      if r.ok {
        UnifyAllMostGeneral(theta, r.subst, universe, xs[1..], ys[1..]);
      }
    }
  }

  /**
    The result of a successful call represents exactly the unifiers that satisfy the old bindings.
   */
  lemma UnifiersAreTheInstances(theta: Assignment, s: Subst, universe: set<string>, a: Type, b: Type)
    requires Over(s, universe) && Within(universe, a) && Within(universe, b)
    requires Unify(s, universe, a, b).ok
    ensures Respects(theta, s) && Unifies(theta, a, b) <==> Respects(theta, Unify(s, universe, a, b).subst)
  {
    var s' := Unify(s, universe, a, b).subst;
    if Respects(theta, s') {
      UnifySound(s, universe, a, b);
      InstCongruence(theta, Apply(s', a), Apply(s', b));
      UnifiesApplied(theta, s', a, b);
    } else if Respects(theta, s) && Unifies(theta, a, b) {
      UnifyMostGeneral(theta, s, universe, a, b);
      assert false;
    }
  }

  // ---- The universe is bookkeeping ----

  lemma OverMore(s: Subst, universe: set<string>, more: set<string>)
    requires Over(s, universe) && universe <= more
    ensures Over(s, more)
  {
  }

  /** The universe only bounds the recursion: any two give the same outcome. */
  lemma {:induction false} UniverseIrrelevant(s: Subst, u1: set<string>, u2: set<string>, a: Type, b: Type)
    requires Over(s, u1) && Within(u1, a) && Within(u1, b)
    requires Over(s, u2) && Within(u2, a) && Within(u2, b)
    ensures Unify(s, u1, a, b) == Unify(s, u2, a, b)
    decreases Unbound(s, u1), Size(Apply(s, a)), 0
  {
    var aa, bb := Apply(s, a), Apply(s, b);
    ApplyStaysWithin(s, u1, a);
    ApplyStaysWithin(s, u1, b);
    ApplyStaysWithin(s, u2, a);
    ApplyStaysWithin(s, u2, b);
    ApplyResolves(s, a);
    ApplyResolves(s, b);
    if IsVar(aa) {
      UnboundVar(s, aa);
      assert Bind(s, u1, aa, bb) == Bind(s, u2, aa, bb);
    } else if IsVar(bb) {
      UnboundVar(s, bb);
      assert Bind(s, u1, bb, aa) == Bind(s, u2, bb, aa);
    } else if SameOperator(aa, bb) && !IsPrimitive(aa) {
      WithinParts(u1, aa);
      WithinParts(u1, bb);
      WithinParts(u2, aa);
      WithinParts(u2, bb);
      ResolvedParts(s, aa);
      UniverseIrrelevantInAll(s, u1, u2, aa.args, bb.args);
    }
  }

  lemma {:induction false} UniverseIrrelevantInAll(s: Subst, u1: set<string>, u2: set<string>,
                                                   xs: seq<Type>, ys: seq<Type>)
    requires Over(s, u1) && AllWithin(u1, xs) && AllWithin(u1, ys) && |xs| == |ys|
    requires Over(s, u2) && AllWithin(u2, xs) && AllWithin(u2, ys)
    ensures UnifyAll(s, u1, xs, ys) == UnifyAll(s, u2, xs, ys)
    decreases Unbound(s, u1), AppliedSize(s, xs), 1
  {
    if xs != [] {
      UnifyAllStep(s, u1, xs, ys);
      UnifyAllStep(s, u2, xs, ys);
      UniverseIrrelevant(s, u1, u2, xs[0], ys[0]);
      var r := Unify(s, u1, xs[0], ys[0]);
      if r.ok { UniverseIrrelevantInAll(r.subst, u1, u2, xs[1..], ys[1..]); }
    }
  }
}
