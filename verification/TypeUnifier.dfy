/** The unifier as an object: a substitution that grows by one binding at a time. */
module TypeUnifiers {
  import opened Types
  import opened Terms
  import Unification
  import UnifierTheorems

  type Subst = Unification.Subst

  function KeysOf(t: Type): (keys: set<string>)
    ensures Unification.Within(keys, t)
  {
    (if IsVar(t) then {VarKey(t)} else {}) + KeysOfAll(t.args)
  }

  function KeysOfAll(ts: seq<Type>): (keys: set<string>)
    ensures forall i :: 0 <= i < |ts| ==> Unification.Within(keys, ts[i])
  {
    if ts == [] then {} else KeysOf(ts[0]) + KeysOfAll(ts[1..])
  }

  class TypeUnifier {
    var subst: map<string, Type>
    ghost var trail: seq<string>        // the keys of subst in binding order
    ghost var universe: set<string>     // all variables mentioned so far

    ghost function State(): Subst
      reads this
    {
      Unification.Subst(subst, trail)
    }

    ghost predicate Valid()
      reads this
    {
      Unification.Over(State(), universe)
    }

    constructor ()
      ensures Valid() && subst == map[] && universe == {}
    {
      subst, trail, universe := map[], [], {};
    }

    method Occurs(key: string, t: Type) returns (found: bool)
      ensures found <==> Terms.Occurs(key, t)
      decreases t
    {
      if IsVar(t) && VarKey(t) == key {
        return true;
      }
      for i := 0 to |t.args|
        invariant forall k :: 0 <= k < i ==> !Terms.Occurs(key, t.args[k])
      {
        var inArg := Occurs(key, t.args[i]);
        if inArg {
          return true;
        }
      }
      return IsVar(t) && VarKey(t) == key;
    }

    /** Replaces bound variables until none is left. */
    method Apply(t: Type) returns (out: Type)
      requires Valid()
      ensures out == Unification.Apply(State(), t)
      decreases Unification.Level(trail, t), t
    {
      if IsVar(t) {
        if VarKey(t) in subst {
          Unification.ImageIsLower(State(), t);
          out := Apply(subst[VarKey(t)]);
        } else {
          out := t;
        }
        return;
      }
      out := t;
      for i := 0 to |t.args|
        invariant out == t.(args := out.args) && |out.args| == |t.args|
        invariant forall k :: 0 <= k < i ==> out.args[k] == Unification.Apply(State(), t.args[k])
        invariant forall k :: i <= k < |t.args| ==> out.args[k] == t.args[k]
      {
        Unification.LevelOfPart(trail, t, i);
        var arg := Apply(t.args[i]);
        out := out.(args := out.args[i := arg]);
      }
      assert out.args == Unification.Apply(State(), t).args;
    }

    method Bind(v: Type, value: Type) returns (ok: bool)
      requires Valid() && Unification.Within(universe, v) && Unification.Within(universe, value)
      requires IsVar(v) && VarKey(v) !in subst
      modifies this`subst, this`trail
      ensures Valid()
      ensures Unification.Outcome(ok, State()) == Unification.Bind(old(State()), universe, v, value)
    {
      var key := VarKey(v);
      var applied := Apply(value);
      var occurs := Occurs(key, applied);
      if occurs {
        return false;
      }
      Unification.ApplyStaysWithin(State(), universe, value);
      Unification.ApplyResolves(State(), value);
      Unification.NotFree(key, applied);
      Unification.BindStaysTriangular(State(), universe, v, applied);
      subst := subst[key := applied];
      trail := trail + [key];
      return true;
    }

    /** The recursion of Unify, once the universe covers both sides. */
    method UnifyTerms(a: Type, b: Type) returns (ok: bool)
      requires Valid() && Unification.Within(universe, a) && Unification.Within(universe, b)
      modifies this`subst, this`trail
      ensures Valid()
      ensures Unification.Outcome(ok, State()) == Unification.Unify(old(State()), universe, a, b)
      decreases Unification.Unbound(State(), universe), Size(Unification.Apply(State(), a)), 0
    {
      var aa := Apply(a);
      var bb := Apply(b);
      Unification.ApplyStaysWithin(State(), universe, a);
      Unification.ApplyStaysWithin(State(), universe, b);
      Unification.ApplyResolves(State(), a);
      Unification.ApplyResolves(State(), b);
      if IsVar(aa) {
        Unification.UnboundVar(State(), aa);
        ok := Bind(aa, bb);
        return;
      }
      if IsVar(bb) {
        Unification.UnboundVar(State(), bb);
        ok := Bind(bb, aa);
        return;
      }
      if aa.kind != bb.kind {
        return false;
      }
      if IsPrimitive(aa) {
        return true;
      }
      if aa.name != bb.name || aa.language != bb.language {
        return false;
      }
      if |aa.args| != |bb.args| {
        return false;
      }
      Unification.WithinParts(universe, aa);
      Unification.WithinParts(universe, bb);
      Unification.ResolvedParts(State(), aa);
      ok := UnifyArgs(aa.args, bb.args);
      if !ok {
        return false;
      }
      return aa.lifetime == bb.lifetime;
    }

    /** The argument loop of Unify. */
    method UnifyArgs(xs: seq<Type>, ys: seq<Type>) returns (ok: bool)
      requires Valid() && Unification.AllWithin(universe, xs) && Unification.AllWithin(universe, ys) && |xs| == |ys|
      modifies this`subst, this`trail
      ensures Valid()
      ensures Unification.Outcome(ok, State()) == Unification.UnifyAll(old(State()), universe, xs, ys)
      decreases Unification.Unbound(State(), universe), Unification.AppliedSize(State(), xs), 2
    {
      ghost var whole := Unification.UnifyAll(State(), universe, xs, ys);
      ghost var unbound, size := Unification.Unbound(State(), universe), Unification.AppliedSize(State(), xs);
      var i := 0;
      assert xs[0..] == xs && ys[0..] == ys;
      while i < |xs|
        invariant i <= |xs| && Valid()
        invariant Leads(State(), universe, xs[i..], ys[i..], whole)
        invariant Smaller(State(), universe, xs[i..], unbound, size)
      {
        TailOf(xs, i);
        TailOf(ys, i);
        ok := UnifyArg(xs[i], ys[i], xs[i..], ys[i..], whole, unbound, size);
        if !ok {
          return false;
        }
        i := i + 1;
      }
      return true;
    }

    static lemma TailOf<T>(s: seq<T>, i: nat)
      requires i < |s|
      ensures s[i..][0] == s[i] && s[i..][1..] == s[i + 1..]
    {
    }

    /** One round of the argument loop. */
    method UnifyArg(x: Type, y: Type, ghost xs: seq<Type>, ghost ys: seq<Type>, ghost whole: Unification.Outcome,
                    ghost unbound: nat, ghost size: nat)
      returns (ok: bool)
      requires Valid() && Unification.AllWithin(universe, xs) && Unification.AllWithin(universe, ys)
      requires |xs| == |ys| > 0 && x == xs[0] && y == ys[0]
      requires Leads(State(), universe, xs, ys, whole) && Smaller(State(), universe, xs, unbound, size)
      modifies this`subst, this`trail
      ensures Valid()
      ensures ok ==> Leads(State(), universe, xs[1..], ys[1..], whole)
                     && Smaller(State(), universe, xs[1..], unbound, size)
      ensures !ok ==> whole == Unification.Outcome(false, State())
      decreases unbound, size, 1
    {
      RoundLeads(State(), universe, xs, ys, whole, unbound, size);
      ok := UnifyTerms(x, y);
    }

    /** What one round does to the result of the whole and to the measure. */
    static lemma RoundLeads(s: Subst, universe: set<string>, xs: seq<Type>, ys: seq<Type>, whole: Unification.Outcome,
                            unbound: nat, size: nat)
      requires Unification.Over(s, universe) && Unification.AllWithin(universe, xs)
      requires Unification.AllWithin(universe, ys) && |xs| == |ys| > 0
      requires Leads(s, universe, xs, ys, whole) && Smaller(s, universe, xs, unbound, size)
      ensures Unification.Unbound(s, universe) < unbound
              || (Unification.Unbound(s, universe) == unbound && Size(Unification.Apply(s, xs[0])) <= size)
      ensures Unification.AllWithin(universe, xs[1..])
      ensures var r := Unification.Unify(s, universe, xs[0], ys[0]);
              if r.ok then Leads(r.subst, universe, xs[1..], ys[1..], whole)
                           && Smaller(r.subst, universe, xs[1..], unbound, size)
              else whole == r
    {
      UnifierTheorems.UnifyAllStep(s, universe, xs, ys);
    }

    /** Unifying the rest from here gives the result of the whole. */
    static ghost predicate Leads(s: Subst, universe: set<string>, xs: seq<Type>, ys: seq<Type>,
                                 whole: Unification.Outcome)
      requires Unification.Over(s, universe)
    {
      && Unification.AllWithin(universe, xs) && Unification.AllWithin(universe, ys) && |xs| == |ys|
      && whole == Unification.UnifyAll(s, universe, xs, ys)
    }

    static ghost predicate Smaller(s: Subst, universe: set<string>, ts: seq<Type>, unbound: nat, size: nat)
      requires Unification.Over(s, universe) && Unification.AllWithin(universe, ts)
    {
      || Unification.Unbound(s, universe) < unbound
      || (Unification.Unbound(s, universe) == unbound && Unification.AppliedSize(s, ts) <= size)
    }

    method Unify(a: Type, b: Type) returns (ok: bool)
      requires Valid()
      modifies this
      ensures Valid() && universe == old(universe) + KeysOf(a) + KeysOf(b)
      ensures Unification.Over(old(State()), universe)
      ensures Unification.Outcome(ok, State()) == Unification.Unify(old(State()), universe, a, b)
    {
      universe := universe + KeysOf(a) + KeysOf(b);
      assert Valid();
      ok := UnifyTerms(a, b);
    }

    method Reset()
      modifies this
      ensures Valid() && subst == map[] && universe == {}
    {
      subst, trail, universe := map[], [], {};
    }
  }

  // ---- Whole runs ----

  /** The state of a unifier: its substitution and the variables mentioned so far. */
  datatype Run = Run(subst: Subst, universe: set<string>)

  ghost predicate Sound(r: Run) {
    Unification.Over(r.subst, r.universe)
  }

  /** One call of the class, failed or not: the universe takes in the variables of both terms first. */
  ghost function AfterCall(r: Run, a: Type, b: Type): (r': Run)
    requires Sound(r)
    ensures Sound(r') && Unification.Extends(r.subst, r'.subst)
  {
    var universe := r.universe + KeysOf(a) + KeysOf(b);
    UnifierTheorems.OverMore(r.subst, r.universe, universe);
    Run(Unification.Unify(r.subst, universe, a, b).subst, universe)
  }

  /** The state after a series of calls. */
  ghost function AfterCalls(r: Run, calls: seq<(Type, Type)>): (r': Run)
    requires Sound(r)
    ensures Sound(r') && Unification.Extends(r.subst, r'.subst)
    decreases |calls|
  {
    if calls == [] then r
    else
      AfterCalls(AfterCall(r, calls[0].0, calls[0].1), calls[1..])
  }

  /** A success is never undone: whatever is unified later, or fails to unify, both sides stay equal. */
  lemma SuccessLasts(r: Run, a: Type, b: Type, calls: seq<(Type, Type)>)
    requires Sound(r)
    requires var universe := r.universe + KeysOf(a) + KeysOf(b);
             Unification.Over(r.subst, universe) && Unification.Unify(r.subst, universe, a, b).ok
    ensures var s' := AfterCalls(AfterCall(r, a, b), calls).subst;
            Eqv(Unification.Apply(s', a), Unification.Apply(s', b))
  {
    var r1 := AfterCall(r, a, b);
    UnifierTheorems.UnifySound(r.subst, r1.universe, a, b);
    UnifierTheorems.StaysEquated(r1.subst, AfterCalls(r1, calls).subst, a, b);
  }

  /** Variables mentioned earlier do not matter: a run depends on the substitution it starts from alone. */
  lemma {:induction false} RunsAgree(r1: Run, r2: Run, calls: seq<(Type, Type)>)
    requires Sound(r1) && Sound(r2) && r1.subst == r2.subst
    ensures AfterCalls(r1, calls).subst == AfterCalls(r2, calls).subst
    decreases |calls|
  {
    if calls != [] {
      var a, b := calls[0].0, calls[0].1;
      UnifierTheorems.OverMore(r1.subst, r1.universe, r1.universe + KeysOf(a) + KeysOf(b));
      UnifierTheorems.OverMore(r2.subst, r2.universe, r2.universe + KeysOf(a) + KeysOf(b));
      UnifierTheorems.UniverseIrrelevant(r1.subst, r1.universe + KeysOf(a) + KeysOf(b),
                                         r2.universe + KeysOf(a) + KeysOf(b), a, b);
      RunsAgree(AfterCall(r1, a, b), AfterCall(r2, a, b), calls[1..]);
    }
  }
}
