/**
  When a call binds anything: exactly when its two applied terms come, from left to right, upon a variable
  that can be bound before they come upon a difference. A call that fails after that leaves its bindings.
 */
module UnifierLeftovers {
  import opened Types
  import opened Terms
  import opened Unification
  import opened UnifierTheorems
  import opened UnifierCompleteness

  /** The terms are equal and no variable is compared. */
  predicate Same(x: Type, y: Type) {
    && !IsVar(x) && !IsVar(y) && x.kind == y.kind
    && (IsPrimitive(x) || (SameOperator(x, y) && x.lifetime == y.lifetime && SameInAll(x.args, y.args)))
  }

  predicate SameInAll(xs: seq<Type>, ys: seq<Type>)
    requires |xs| == |ys|
  {
    xs == [] || (Same(xs[0], ys[0]) && SameInAll(xs[1..], ys[1..]))
  }

  /** A variable that the other term does not contain is come upon before a difference. */
  predicate Binds(x: Type, y: Type) {
    if IsVar(x) then !Occurs(VarKey(x), y)
    else if IsVar(y) then !Occurs(VarKey(y), x)
    else SameOperator(x, y) && !IsPrimitive(x) && BindsInAll(x.args, y.args)
  }

  predicate BindsInAll(xs: seq<Type>, ys: seq<Type>)
    requires |xs| == |ys|
  {
    xs != [] && (Binds(xs[0], ys[0]) || (Same(xs[0], ys[0]) && BindsInAll(xs[1..], ys[1..])))
  }

  /** A call without a new binding succeeds exactly on equal terms. */
  ghost predicate Settles(r: Outcome, s: Subst, binds: bool, same: bool) {
    (r.subst != s <==> binds) && (r.subst == s ==> (r.ok <==> same))
  }

  lemma BindOutcome(s: Subst, universe: set<string>, v: Type, value: Type)
    requires Over(s, universe) && Within(universe, v) && Within(universe, value)
    requires IsVar(v) && VarKey(v) !in s.bindings && Resolved(s, value)
    ensures Settles(Bind(s, universe, v, value), s, !Occurs(VarKey(v), value), false)
  {
    ApplyFixes(s, value);
    if !Occurs(VarKey(v), value) {
      assert VarKey(v) in Bind(s, universe, v, value).subst.bindings;
    }
  }

  ghost predicate AllResolved(s: Subst, ts: seq<Type>) {
    forall i :: 0 <= i < |ts| ==> Resolved(s, ts[i])
  }

  lemma {:induction false} UnifySettles(s: Subst, universe: set<string>, a: Type, b: Type)
    requires Over(s, universe) && Within(universe, a) && Within(universe, b)
    ensures Settles(Unify(s, universe, a, b), s, Binds(Apply(s, a), Apply(s, b)), Same(Apply(s, a), Apply(s, b)))
    decreases Unbound(s, universe), Size(Apply(s, a)), 0
  {
    var aa, bb := Apply(s, a), Apply(s, b);
    AppliedParts(s, universe, a, b);
    if IsVar(aa) {
      UnboundVar(s, aa);
      BindOutcome(s, universe, aa, bb);
    } else if IsVar(bb) {
      UnboundVar(s, bb);
      BindOutcome(s, universe, bb, aa);
    } else if SameOperator(aa, bb) && !IsPrimitive(aa) {
      ResolvedParts(s, aa);
      ResolvedParts(s, bb);
      UnifyAllSettles(s, universe, aa.args, bb.args);
    }
  }

  lemma {:induction false} UnifyAllSettles(s: Subst, universe: set<string>, xs: seq<Type>, ys: seq<Type>)
    requires Over(s, universe) && AllWithin(universe, xs) && AllWithin(universe, ys) && |xs| == |ys|
    requires AllResolved(s, xs) && AllResolved(s, ys)
    ensures Settles(UnifyAll(s, universe, xs, ys), s, BindsInAll(xs, ys), SameInAll(xs, ys))
    decreases Unbound(s, universe), AppliedSize(s, xs), 2
  {
    if xs != [] {
      var r := Unify(s, universe, xs[0], ys[0]);
      UnifyAllStep(s, universe, xs, ys);
      FirstSettles(s, universe, xs, ys);
      if r.subst == s {
        if r.ok { UnifyAllSettles(s, universe, xs[1..], ys[1..]); }
      } else {
        BindingStays(s, r.subst, UnifyAll(s, universe, xs, ys).subst);
      }
    }
  }

  lemma {:induction false} FirstSettles(s: Subst, universe: set<string>, xs: seq<Type>, ys: seq<Type>)
    requires Over(s, universe) && AllWithin(universe, xs) && AllWithin(universe, ys) && |xs| == |ys| > 0
    requires AllResolved(s, xs) && AllResolved(s, ys)
    ensures Settles(Unify(s, universe, xs[0], ys[0]), s, Binds(xs[0], ys[0]), Same(xs[0], ys[0]))
    decreases Unbound(s, universe), AppliedSize(s, xs), 1
  {
    UnifyAllStep(s, universe, xs, ys);
    ApplyFixes(s, xs[0]);
    ApplyFixes(s, ys[0]);
    UnifySettles(s, universe, xs[0], ys[0]);
  }

  lemma BindingStays(s: Subst, s1: Subst, s2: Subst)
    requires Extends(s, s1) && Extends(s1, s2)
    ensures s2 == s ==> s1 == s
  {
    if s2 == s {
      assert s1.trail == s.trail;
      assert s1.bindings == s.bindings;
    }
  }

  /** A call changes the substitution exactly when its applied terms bind. */
  lemma BindingIsExact(s: Subst, universe: set<string>, a: Type, b: Type)
    requires Over(s, universe) && Within(universe, a) && Within(universe, b)
    ensures Unify(s, universe, a, b).subst != s <==> Binds(Apply(s, a), Apply(s, b))
  {
    UnifySettles(s, universe, a, b);
  }

  /** A call that fails leaves the substitution alone exactly when its applied terms do not bind. */
  lemma FailureIsCleanExactly(s: Subst, universe: set<string>, a: Type, b: Type)
    requires Over(s, universe) && Within(universe, a) && Within(universe, b)
    ensures var r := Unify(s, universe, a, b);
            !r.ok && r.subst == s <==> !Binds(Apply(s, a), Apply(s, b)) && !Same(Apply(s, a), Apply(s, b))
  {
    UnifySettles(s, universe, a, b);
  }

  lemma FirstPairBinds(universe: set<string>, t: Type, x: Type)
    requires IsVar(t) && Within(universe, t) && Within(universe, x) && x == Plain(Int, "int", [])
    ensures var r := Unify(Subst(map[], []), universe, t, x); r.ok && VarKey(t) in r.subst.bindings
  {
    ApplyFixes(Subst(map[], []), t);
    ApplyFixes(Subst(map[], []), x);
  }

  lemma KindsDiffer(s: Subst, universe: set<string>, x: Type, y: Type)
    requires Over(s, universe) && Within(universe, x) && Within(universe, y)
    requires !IsVar(x) && !IsVar(y) && x.kind != y.kind
    ensures !Unify(s, universe, x, y).ok
  {
  }

  lemma SecondPairDiffers(universe: set<string>, t: Type, xs: seq<Type>, ys: seq<Type>)
    requires IsVar(t) && AllWithin(universe, xs) && AllWithin(universe, ys)
    requires xs == [t, Plain(Bool, "bool", [])] && ys == [Plain(Int, "int", []), Plain(Int, "int", [])]
    ensures var r := UnifyAll(Subst(map[], []), universe, xs, ys);
            !r.ok && VarKey(t) in r.subst.bindings
  {
    var s := Subst(map[], []);
    var r := Unify(s, universe, xs[0], ys[0]);
    FirstPairBinds(universe, xs[0], ys[0]);
    UnifyAllStep(s, universe, xs, ys);
    KindsDiffer(r.subst, universe, xs[1..][0], ys[1..][0]);
    UnifyAllStep(r.subst, universe, xs[1..], ys[1..]);
  }

  /** A pair of a fresh variable and bool against a pair of ints fails and leaves the variable bound to int. */
  lemma FailedCallLeavesBinding(universe: set<string>, t: Type)
    requires IsVar(t) && Within(universe, t)
    requires Within(universe, Pair(t, Plain(Bool, "bool", [])))
    requires Within(universe, Pair(Plain(Int, "int", []), Plain(Int, "int", [])))
    ensures var s := Subst(map[], []);
            var r := Unify(s, universe, Pair(t, Plain(Bool, "bool", [])),
                           Pair(Plain(Int, "int", []), Plain(Int, "int", [])));
            !r.ok && r.subst != s && VarKey(t) in r.subst.bindings
  {
    var s := Subst(map[], []);
    var x, y := Pair(t, Plain(Bool, "bool", [])), Pair(Plain(Int, "int", []), Plain(Int, "int", []));
    ApplyFixes(s, x);
    ApplyFixes(s, y);
    WithinParts(universe, x);
    WithinParts(universe, y);
    SecondPairDiffers(universe, t, x.args, y.args);
    BindingIsExact(s, universe, x, y);
  }
}
