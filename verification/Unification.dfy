/** Unification over a triangular substitution, as a function of the substitution. */
module Unification {
  import opened Types
  import opened Terms
  import opened Sequences

  /** The bindings together with the order in which they were made. */
  datatype Subst = Subst(bindings: map<string, Type>, trail: seq<string>)

  /** Each image mentions only variables that were unbound when the binding was made. */
  ghost predicate Triangular(s: Subst) {
    && Distinct(s.trail)
    && (forall k :: k in s.trail <==> k in s.bindings)
    && (forall i, j :: 0 <= j <= i < |s.trail| ==> LaterOnly(s, i, j))
  }

  ghost predicate LaterOnly(s: Subst, i: nat, j: nat)
    requires j <= i < |s.trail|
  {
    s.trail[i] in s.bindings ==> !FreeIn(s.trail[j], s.bindings[s.trail[i]])
  }

  /** How much of the trail is left from the first of its variables that occurs in t. */
  ghost function Level(trail: seq<string>, t: Type): nat {
    if trail == [] then 0
    else if FreeIn(trail[0], t) then |trail|
    else Level(trail[1..], t)
  }

  lemma {:induction false} LevelBelow(trail: seq<string>, t: Type, bound: nat)
    requires bound <= |trail|
    requires forall j :: 0 <= j < |trail| - bound ==> !FreeIn(trail[j], t)
    ensures Level(trail, t) <= bound
  {
    if bound < |trail| {
      assert !FreeIn(trail[0], t);
      assert forall j :: 0 <= j < |trail[1..]| - bound ==> trail[1..][j] == trail[j + 1];
      LevelBelow(trail[1..], t, bound);
    } else {
      LevelAtMostLength(trail, t);
    }
  }

  lemma {:induction false} LevelOfPart(trail: seq<string>, t: Type, i: nat)
    requires !IsVar(t) && i < |t.args|
    ensures Level(trail, t.args[i]) <= Level(trail, t)
  {
    if trail != [] {
      LevelOfPart(trail[1..], t, i);
      LevelAtMostLength(trail[1..], t.args[i]);
    }
  }

  lemma {:induction false} LevelAtMostLength(trail: seq<string>, t: Type)
    ensures Level(trail, t) <= |trail|
  {
    if trail != [] { LevelAtMostLength(trail[1..], t); }
  }

  lemma {:induction false} LevelOfVar(trail: seq<string>, t: Type, i: nat)
    requires IsVar(t) && i < |trail| && trail[i] == VarKey(t) && Distinct(trail)
    ensures Level(trail, t) == |trail| - i
  {
    if i > 0 {
      assert trail[0] != trail[i];
      LevelOfVar(trail[1..], t, i - 1);
    }
  }

  /** An image sits strictly lower than its variable, which is why applying a substitution ends. */
  lemma ImageIsLower(s: Subst, t: Type)
    requires Triangular(s) && IsVar(t) && VarKey(t) in s.bindings
    ensures Level(s.trail, s.bindings[VarKey(t)]) < Level(s.trail, t)
  {
    assert VarKey(t) in s.trail;
    var i :| 0 <= i < |s.trail| && s.trail[i] == VarKey(t);
    LevelOfVar(s.trail, t, i);
    forall j | 0 <= j < i + 1 ensures !FreeIn(s.trail[j], s.bindings[s.trail[i]]) {
      assert LaterOnly(s, i, j);
    }
    LevelBelow(s.trail, s.bindings[VarKey(t)], |s.trail| - i - 1);
  }

  ghost function Apply(s: Subst, t: Type): Type
    requires Triangular(s)
    decreases Level(s.trail, t), t
  {
    if IsVar(t) then
      if VarKey(t) in s.bindings then
        ImageIsLower(s, t);
        Apply(s, s.bindings[VarKey(t)])
      else t
    else
      t.(args := seq(|t.args|, i requires 0 <= i < |t.args| =>
        LevelOfPart(s.trail, t, i);
        Apply(s, t.args[i])))
  }

  /** No bound variable is left in t. */
  ghost predicate Resolved(s: Subst, t: Type) {
    forall k :: k in s.bindings ==> !FreeIn(k, t)
  }

  /** All variables of t belong to the universe. */
  ghost predicate Within(universe: set<string>, t: Type) {
    forall k :: FreeIn(k, t) ==> k in universe
  }

  lemma {:induction false} ApplyResolves(s: Subst, t: Type)
    requires Triangular(s)
    ensures Resolved(s, Apply(s, t))
    decreases Level(s.trail, t), t
  {
    if IsVar(t) {
      if VarKey(t) in s.bindings {
        ImageIsLower(s, t);
        ApplyResolves(s, s.bindings[VarKey(t)]);
      }
    } else {
      forall i | 0 <= i < |t.args|
        ensures Resolved(s, Apply(s, t).args[i])
      {
        LevelOfPart(s.trail, t, i);
        ApplyResolves(s, t.args[i]);
      }
    }
  }

  /** A substitution leaves terms without bound variables alone. */
  lemma {:induction false} ApplyFixes(s: Subst, t: Type)
    requires Triangular(s) && Resolved(s, t)
    ensures Apply(s, t) == t
  {
    if !IsVar(t) {
      forall i | 0 <= i < |t.args| ensures Apply(s, t).args[i] == t.args[i] {
        forall k | k in s.bindings ensures !FreeIn(k, t.args[i]) { assert !FreeIn(k, t); }
        ApplyFixes(s, t.args[i]);
      }
      assert Apply(s, t).args == t.args;
    } else {
      assert FreeIn(VarKey(t), t);
    }
  }

  lemma ApplyIdempotent(s: Subst, t: Type)
    requires Triangular(s)
    ensures Apply(s, Apply(s, t)) == Apply(s, t)
  {
    ApplyResolves(s, t);
    ApplyFixes(s, Apply(s, t));
  }

  // ---- Extension ----

  ghost predicate Extends(s: Subst, s': Subst) {
    && Triangular(s) && Triangular(s')
    && s.trail <= s'.trail
    && forall k :: k in s.bindings ==> k in s'.bindings && s'.bindings[k] == s.bindings[k]
  }

  /** Applying the longer substitution absorbs the shorter one. */
  lemma {:induction false} ApplyAbsorbs(s: Subst, s': Subst, t: Type)
    requires Extends(s, s')
    ensures Apply(s', Apply(s, t)) == Apply(s', t)
    decreases Level(s.trail, t), t
  {
    ApplyResolves(s, t);
    if IsVar(t) {
      if VarKey(t) in s.bindings {
        ImageIsLower(s, t);
        ApplyAbsorbs(s, s', s.bindings[VarKey(t)]);
      }
    } else {
      var u := Apply(s, t);
      forall i | 0 <= i < |t.args| ensures Apply(s', u.args[i]) == Apply(s', t.args[i]) {
        LevelOfPart(s.trail, t, i);
        ApplyAbsorbs(s, s', t.args[i]);
      }
      assert Apply(s', u).args == Apply(s', t).args;
    }
  }

  lemma {:induction false} ApplyCongruence(s: Subst, x: Type, y: Type)
    requires Triangular(s) && Eqv(x, y)
    ensures Eqv(Apply(s, x), Apply(s, y))
    decreases x
  {
    if IsVar(x) {
      EqvReflexive(Apply(s, x));
      if VarKey(x) in s.bindings {
        assert Apply(s, x) == Apply(s, s.bindings[VarKey(x)]) == Apply(s, y);
      }
    } else if !IsPrimitive(x) {
      var ax, ay := Apply(s, x), Apply(s, y);
      forall i | 0 <= i < |x.args| ensures Eqv(ax.args[i], ay.args[i]) {
        ApplyCongruence(s, x.args[i], y.args[i]);
      }
    }
  }

  // ---- The algorithm ----

  datatype Outcome = Outcome(ok: bool, subst: Subst)

  /** A substitution over a finite universe of variable names. */
  ghost predicate Over(s: Subst, universe: set<string>) {
    && Triangular(s)
    && s.bindings.Keys <= universe
    && forall k :: k in s.bindings ==> Within(universe, s.bindings[k])
  }

  lemma {:induction false} ApplyStaysWithin(s: Subst, universe: set<string>, t: Type)
    requires Over(s, universe) && Within(universe, t)
    ensures Within(universe, Apply(s, t))
    decreases Level(s.trail, t), t
  {
    ApplyResolves(s, t);
    if IsVar(t) {
      if VarKey(t) in s.bindings {
        ImageIsLower(s, t);
        ApplyStaysWithin(s, universe, s.bindings[VarKey(t)]);
      }
    } else {
      forall i | 0 <= i < |t.args| ensures Within(universe, Apply(s, t).args[i]) {
        forall k | FreeIn(k, t.args[i]) ensures k in universe { assert FreeIn(k, t); }
        LevelOfPart(s.trail, t, i);
        ApplyStaysWithin(s, universe, t.args[i]);
      }
    }
  }

  /** Binds an unbound variable to a term it does not occur in, not even as a variable's argument. */
  ghost function Bind(s: Subst, universe: set<string>, v: Type, value: Type): (r: Outcome)
    requires Over(s, universe) && Within(universe, v) && Within(universe, value)
    requires IsVar(v) && VarKey(v) !in s.bindings
    ensures Over(r.subst, universe) && Extends(s, r.subst)
    ensures !r.ok ==> r.subst == s
    ensures r.ok ==> s.bindings.Keys < r.subst.bindings.Keys
  {
    var key := VarKey(v);
    var applied := Apply(s, value);
    if Occurs(key, applied) then Outcome(false, s)
    else
      ApplyStaysWithin(s, universe, value);
      ApplyResolves(s, value);
      NotFree(key, applied);
      BindStaysTriangular(s, universe, v, applied);
      Outcome(true, Subst(s.bindings[key := applied], s.trail + [key]))
  }

  lemma NotFree(key: string, t: Type)
    requires !Occurs(key, t)
    ensures !FreeIn(key, t)
  {
    if FreeIn(key, t) { FreeOccurs(key, t); }
  }

  lemma BindStaysTriangular(s: Subst, universe: set<string>, v: Type, applied: Type)
    requires Over(s, universe) && Within(universe, v) && Within(universe, applied)
    requires IsVar(v) && VarKey(v) !in s.bindings
    requires Resolved(s, applied) && !FreeIn(VarKey(v), applied)
    ensures var s' := Subst(s.bindings[VarKey(v) := applied], s.trail + [VarKey(v)]);
            Over(s', universe) && Extends(s, s') && s.bindings.Keys < s'.bindings.Keys
  {
    var key := VarKey(v);
    var s' := Subst(s.bindings[key := applied], s.trail + [key]);
    assert FreeIn(key, v);
    assert key !in s.trail;
    assert forall k :: k in s'.trail <==> k in s.trail || k == key;
    forall i, j | 0 <= j <= i < |s'.trail| ensures LaterOnly(s', i, j) {
      if i < |s.trail| {
        assert LaterOnly(s, i, j);
        assert s.trail[i] in s.trail;
      } else if j < |s.trail| {
        assert s.trail[j] in s.trail;
      }
    }
    assert key in s'.bindings.Keys && key !in s.bindings.Keys;
  }

  /** All pairs of arguments are within reach of the substitution. */
  ghost predicate AllWithin(universe: set<string>, ts: seq<Type>) {
    forall i :: 0 <= i < |ts| ==> Within(universe, ts[i])
  }

  lemma WithinParts(universe: set<string>, t: Type)
    requires Within(universe, t) && !IsVar(t)
    ensures AllWithin(universe, t.args)
  {
    forall i | 0 <= i < |t.args| ensures Within(universe, t.args[i]) {
      forall k | FreeIn(k, t.args[i]) ensures k in universe { assert FreeIn(k, t); }
    }
  }

  /** Total size of the terms once the substitution is applied. */
  ghost function AppliedSize(s: Subst, ts: seq<Type>): nat
    requires Triangular(s)
  {
    if ts == [] then 0 else Size(Apply(s, ts[0])) + AppliedSize(s, ts[1..])
  }

  lemma {:induction false} ResolvedSize(s: Subst, ts: seq<Type>)
    requires Triangular(s) && forall i :: 0 <= i < |ts| ==> Resolved(s, ts[i])
    ensures AppliedSize(s, ts) == SizeOfAll(ts)
  {
    if ts != [] {
      ApplyFixes(s, ts[0]);
      ResolvedSize(s, ts[1..]);
    }
  }

  lemma ResolvedParts(s: Subst, t: Type)
    requires Triangular(s) && Resolved(s, t) && !IsVar(t)
    ensures forall i :: 0 <= i < |t.args| ==> Resolved(s, t.args[i])
    ensures AppliedSize(s, t.args) < Size(t)
  {
    forall i | 0 <= i < |t.args| ensures Resolved(s, t.args[i]) {
      forall k | k in s.bindings ensures !FreeIn(k, t.args[i]) { assert !FreeIn(k, t); }
    }
    ResolvedSize(s, t.args);
  }

  predicate SameOperator(x: Type, y: Type) {
    x.kind == y.kind && x.name == y.name && x.language == y.language && |x.args| == |y.args|
  }

  /** Decreases with every new binding. */
  ghost function Unbound(s: Subst, universe: set<string>): nat {
    |universe - s.bindings.Keys|
  }

  lemma FewerUnbound(s: Subst, s': Subst, universe: set<string>)
    requires Over(s, universe) && Over(s', universe) && Extends(s, s')
    ensures Unbound(s', universe) <= Unbound(s, universe)
    ensures Unbound(s', universe) == Unbound(s, universe) ==> s' == s
  {
    SubsetCard(universe - s'.bindings.Keys, universe - s.bindings.Keys);
    if Unbound(s', universe) == Unbound(s, universe) {
      forall k | k in s'.bindings ensures k in s.bindings {
        assert k !in universe - s'.bindings.Keys;
      }
      assert s'.bindings == s.bindings;
      SameKeysSameTrail(s, s');
    }
  }

  lemma SameKeysSameTrail(s: Subst, s': Subst)
    requires Extends(s, s') && s'.bindings == s.bindings
    ensures s'.trail == s.trail
  {
    DistinctCard(s.trail);
    DistinctCard(s'.trail);
    assert Elements(s.trail) == Elements(s'.trail);
  }

  ghost function Unify(s: Subst, universe: set<string>, a: Type, b: Type): (r: Outcome)
    requires Over(s, universe) && Within(universe, a) && Within(universe, b)
    ensures Over(r.subst, universe) && Extends(s, r.subst)
    decreases Unbound(s, universe), Size(Apply(s, a)), 0
  {
    ApplyStaysWithin(s, universe, a);
    ApplyStaysWithin(s, universe, b);
    ApplyResolves(s, a);
    ApplyResolves(s, b);
    var aa, bb := Apply(s, a), Apply(s, b);
    if IsVar(aa) then UnboundVar(s, aa); Bind(s, universe, aa, bb)
    else if IsVar(bb) then UnboundVar(s, bb); Bind(s, universe, bb, aa)
    else if aa.kind != bb.kind then Outcome(false, s)
    else if IsPrimitive(aa) then Outcome(true, s)
    else if !SameOperator(aa, bb) then Outcome(false, s)
    else
      WithinParts(universe, aa);
      WithinParts(universe, bb);
      ResolvedParts(s, aa);
      var r := UnifyAll(s, universe, aa.args, bb.args);
      if r.ok && aa.lifetime != bb.lifetime then Outcome(false, r.subst) else r
  }

  /** Unifies two argument lists from left to right, stopping at the first failure. */
  ghost function UnifyAll(s: Subst, universe: set<string>, xs: seq<Type>, ys: seq<Type>): (r: Outcome)
    requires Over(s, universe) && AllWithin(universe, xs) && AllWithin(universe, ys) && |xs| == |ys|
    ensures Over(r.subst, universe) && Extends(s, r.subst)
    decreases Unbound(s, universe), AppliedSize(s, xs), 1
  {
    if xs == [] then Outcome(true, s)
    else
      var r := Unify(s, universe, xs[0], ys[0]);
      if !r.ok then r
      else
        FewerUnbound(s, r.subst, universe);
        UnifyAll(r.subst, universe, xs[1..], ys[1..])
  }

  lemma UnboundVar(s: Subst, v: Type)
    requires IsVar(v) && Resolved(s, v)
    ensures VarKey(v) !in s.bindings
  {
    assert FreeIn(VarKey(v), v);
  }
}
