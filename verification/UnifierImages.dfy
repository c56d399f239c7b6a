/**
  Which types the variables get, literally: widths, signs and flags included, which equality as the unifier
  sees it leaves open.
 */
module UnifierImages {
  import opened Types
  import opened Terms
  import opened Unification
  import opened UnifierTheorems
  import opened UnifierCompleteness

  /** x is t or a part of it; a variable has no parts. */
  predicate IsPart(x: Type, t: Type) {
    x == t || (!IsVar(t) && exists i :: 0 <= i < |t.args| && IsPart(x, t.args[i]))
  }

  lemma BoundGets(s: Subst, universe: set<string>, v: Type, value: Type)
    requires Over(s, universe) && Within(universe, v) && Within(universe, value)
    requires IsVar(v) && VarKey(v) !in s.bindings && Resolved(s, value)
    requires Bind(s, universe, v, value).ok
    ensures Apply(Bind(s, universe, v, value).subst, v) == value
  {
    var s' := Bind(s, universe, v, value).subst;
    ApplyFixes(s, value);
    NotFree(VarKey(v), value);
    ApplyFixes(s', value);
  }

  /** After a success an open variable stands for the other side as it was, to the last field. */
  lemma VariableGetsOtherSide(s: Subst, universe: set<string>, a: Type, b: Type)
    requires Over(s, universe) && Within(universe, a) && Within(universe, b)
    requires Unify(s, universe, a, b).ok
    ensures var s' := Unify(s, universe, a, b).subst;
            && (IsVar(Apply(s, a)) ==> Apply(s', a) == Apply(s, b))
            && (!IsVar(Apply(s, a)) && IsVar(Apply(s, b)) ==> Apply(s', b) == Apply(s, a))
  {
    var s' := Unify(s, universe, a, b).subst;
    var aa, bb := Apply(s, a), Apply(s, b);
    AppliedParts(s, universe, a, b);
    ApplyAbsorbs(s, s', a);
    ApplyAbsorbs(s, s', b);
    if IsVar(aa) {
      UnboundVar(s, aa);
      BoundGets(s, universe, aa, bb);
    } else if IsVar(bb) {
      UnboundVar(s, bb);
      BoundGets(s, universe, bb, aa);
    }
  }

  // ---- Every image is made of the two terms ----

  lemma {:induction false} PartIsApplied(s: Subst, x: Type, t: Type)
    requires Triangular(s) && IsPart(x, t)
    ensures IsPart(Apply(s, x), Apply(s, t))
    decreases t
  {
    if x != t {
      var i :| 0 <= i < |t.args| && IsPart(x, t.args[i]);
      PartIsApplied(s, x, t.args[i]);
      assert Apply(s, t).args[i] == Apply(s, t.args[i]);
    }
  }

  /** Under s, what the key stands for is a part of one of the two terms. */
  ghost predicate ComesFrom(s: Subst, key: string, a: Type, b: Type)
    requires Triangular(s) && key in s.bindings
  {
    var image := Apply(s, s.bindings[key]);
    IsPart(image, Apply(s, a)) || IsPart(image, Apply(s, b))
  }

  ghost predicate NewImagesComeFrom(s: Subst, s': Subst, a: Type, b: Type)
    requires Triangular(s')
  {
    forall key :: key in s'.bindings && key !in s.bindings ==> ComesFrom(s', key, a, b)
  }

  ghost predicate SomePairGives(s: Subst, key: string, xs: seq<Type>, ys: seq<Type>)
    requires Triangular(s) && key in s.bindings && |xs| == |ys|
  {
    exists i :: 0 <= i < |xs| && ComesFrom(s, key, xs[i], ys[i])
  }

  lemma TailPairGives(s: Subst, key: string, xs: seq<Type>, ys: seq<Type>)
    requires Triangular(s) && key in s.bindings && |xs| == |ys| > 0
    requires SomePairGives(s, key, xs[1..], ys[1..])
    ensures SomePairGives(s, key, xs, ys)
  {
    var i :| 0 <= i < |xs| - 1 && ComesFrom(s, key, xs[1..][i], ys[1..][i]);
    assert xs[1..][i] == xs[i + 1] && ys[1..][i] == ys[i + 1];
  }

  lemma ComesFromLater(s: Subst, s': Subst, key: string, a: Type, b: Type)
    requires Extends(s, s') && key in s.bindings && ComesFrom(s, key, a, b)
    ensures ComesFrom(s', key, a, b)
  {
    var image := s.bindings[key];
    ApplyAbsorbs(s, s', image);
    ApplyAbsorbs(s, s', a);
    ApplyAbsorbs(s, s', b);
    if IsPart(Apply(s, image), Apply(s, a)) {
      PartIsApplied(s', Apply(s, image), Apply(s, a));
    } else {
      PartIsApplied(s', Apply(s, image), Apply(s, b));
    }
  }

  lemma ComesFromApplied(s: Subst, s': Subst, key: string, a: Type, b: Type)
    requires Extends(s, s') && key in s'.bindings
    ensures ComesFrom(s', key, Apply(s, a), Apply(s, b)) <==> ComesFrom(s', key, a, b)
  {
    ApplyAbsorbs(s, s', a);
    ApplyAbsorbs(s, s', b);
  }

  lemma ComesFromArgument(s: Subst, key: string, a: Type, b: Type)
    requires Triangular(s) && key in s.bindings && !IsVar(a) && !IsVar(b) && |a.args| == |b.args|
    requires SomePairGives(s, key, a.args, b.args)
    ensures ComesFrom(s, key, a, b)
  {
    var i :| 0 <= i < |a.args| && ComesFrom(s, key, a.args[i], b.args[i]);
    var image := Apply(s, s.bindings[key]);
    assert Apply(s, a).args[i] == Apply(s, a.args[i]) && Apply(s, b).args[i] == Apply(s, b.args[i]);
    if IsPart(image, Apply(s, a).args[i]) {
      assert IsPart(image, Apply(s, a));
    } else {
      assert IsPart(image, Apply(s, b));
    }
  }

  lemma BindComesFrom(s: Subst, universe: set<string>, v: Type, value: Type)
    requires Over(s, universe) && Within(universe, v) && Within(universe, value)
    requires IsVar(v) && VarKey(v) !in s.bindings && Resolved(s, value)
    ensures NewImagesComeFrom(s, Bind(s, universe, v, value).subst, v, value)
    ensures NewImagesComeFrom(s, Bind(s, universe, v, value).subst, value, v)
  {
    ApplyFixes(s, value);
  }

  /** Whatever a call binds, failed or not, stands for a literal part of one of its two terms. */
  lemma {:induction false} ImagesArePartsOfTheTerms(s: Subst, universe: set<string>, a: Type, b: Type)
    requires Over(s, universe) && Within(universe, a) && Within(universe, b)
    ensures NewImagesComeFrom(s, Unify(s, universe, a, b).subst, a, b)
    decreases Unbound(s, universe), Size(Apply(s, a)), 0
  {
    var s' := Unify(s, universe, a, b).subst;
    var aa, bb := Apply(s, a), Apply(s, b);
    AppliedParts(s, universe, a, b);
    forall key | key in s'.bindings && key !in s.bindings ensures ComesFrom(s', key, a, b) {
      ComesFromApplied(s, s', key, a, b);
      if IsVar(aa) {
        UnboundVar(s, aa);
        BindComesFrom(s, universe, aa, bb);
      } else if IsVar(bb) {
        UnboundVar(s, bb);
        BindComesFrom(s, universe, bb, aa);
      } else {
        assert SameOperator(aa, bb) && !IsPrimitive(aa);
        ImageComesFromPair(s, universe, aa.args, bb.args, key);
        ComesFromArgument(s', key, aa, bb);
      }
    }
  }

  lemma {:induction false} ImageComesFromPair(s: Subst, universe: set<string>, xs: seq<Type>, ys: seq<Type>,
                                              key: string)
    requires Over(s, universe) && AllWithin(universe, xs) && AllWithin(universe, ys) && |xs| == |ys|
    requires key in UnifyAll(s, universe, xs, ys).subst.bindings && key !in s.bindings
    ensures SomePairGives(UnifyAll(s, universe, xs, ys).subst, key, xs, ys)
    decreases Unbound(s, universe), AppliedSize(s, xs), 1
  {
    var r, s' := Unify(s, universe, xs[0], ys[0]), UnifyAll(s, universe, xs, ys).subst;
    UnifyAllStep(s, universe, xs, ys);
    if key in r.subst.bindings {
      ImagesArePartsOfTheTerms(s, universe, xs[0], ys[0]);
      ComesFromLater(r.subst, s', key, xs[0], ys[0]);
    } else {
      ImageComesFromPair(r.subst, universe, xs[1..], ys[1..], key);
      TailPairGives(s', key, xs, ys);
    }
  }
}
