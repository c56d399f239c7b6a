/** Types as first-order terms: generic parameters are variables, everything else is an operator. */
module Terms {
  import opened Types

  predicate IsVar(t: Type) {
    t.kind == GenericParam
  }

  function VarKey(t: Type): string {
    t.language + ":" + t.name
  }

  /** Kinds the unifier compares by kind alone. */
  predicate IsPrimitive(t: Type) {
    t.kind in {Int, Float, Bool, String, Void, Any}
  }

  /** The name occurs somewhere in t, be it among the arguments of a variable. */
  predicate Occurs(key: string, t: Type) {
    || (IsVar(t) && VarKey(t) == key)
    || exists i :: 0 <= i < |t.args| && Occurs(key, t.args[i])
  }

  /** The variable is one that applying a substitution to t comes upon: a variable hides its own arguments. */
  predicate FreeIn(key: string, t: Type) {
    if IsVar(t) then VarKey(t) == key else exists i :: 0 <= i < |t.args| && FreeIn(key, t.args[i])
  }

  /** The variable is one that equality looks at: variables and primitive types hide their arguments. */
  predicate Shows(key: string, t: Type) {
    if IsVar(t) then VarKey(t) == key
    else !IsPrimitive(t) && exists i :: 0 <= i < |t.args| && Shows(key, t.args[i])
  }

  lemma {:induction false} FreeOccurs(key: string, t: Type)
    requires FreeIn(key, t)
    ensures Occurs(key, t)
  {
    if !IsVar(t) {
      var i :| 0 <= i < |t.args| && FreeIn(key, t.args[i]);
      FreeOccurs(key, t.args[i]);
    }
  }

  /** Number of nodes. */
  function Size(t: Type): nat
    ensures Size(t) > 0
  {
    1 + SizeOfAll(t.args)
  }

  function SizeOfAll(ts: seq<Type>): nat {
    if ts == [] then 0 else Size(ts[0]) + SizeOfAll(ts[1..])
  }

  // ---- Equality as the unifier sees it ----

  predicate Eqv(x: Type, y: Type) {
    if IsVar(x) || IsVar(y) then IsVar(x) && IsVar(y) && VarKey(x) == VarKey(y)
    else
      && x.kind == y.kind
      && (IsPrimitive(x) ||
          (&& x.name == y.name && x.language == y.language && x.lifetime == y.lifetime
           && |x.args| == |y.args|
           && forall i :: 0 <= i < |x.args| ==> Eqv(x.args[i], y.args[i])))
  }

  lemma {:induction false} EqvReflexive(x: Type)
    ensures Eqv(x, x)
  {
    forall i | 0 <= i < |x.args| ensures Eqv(x.args[i], x.args[i]) { EqvReflexive(x.args[i]); }
  }

  lemma {:induction false} EqvSymmetric(x: Type, y: Type)
    requires Eqv(x, y)
    ensures Eqv(y, x)
  {
    if !IsVar(x) && !IsPrimitive(x) {
      forall i | 0 <= i < |x.args| ensures Eqv(y.args[i], x.args[i]) { EqvSymmetric(x.args[i], y.args[i]); }
    }
  }

  lemma {:induction false} EqvTransitive(x: Type, y: Type, z: Type)
    requires Eqv(x, y) && Eqv(y, z)
    ensures Eqv(x, z)
  {
    if !IsVar(x) && !IsPrimitive(x) {
      forall i | 0 <= i < |x.args| ensures Eqv(x.args[i], z.args[i]) {
        EqvTransitive(x.args[i], y.args[i], z.args[i]);
      }
    }
  }

  // ---- Instantiation by an arbitrary assignment of the variables ----

  type Assignment = string -> Type

  function Inst(theta: Assignment, t: Type): Type {
    if IsVar(t) then theta(VarKey(t))
    else t.(args := seq(|t.args|, i requires 0 <= i < |t.args| => Inst(theta, t.args[i])))
  }

  /** Instantiation respects the unifier's equality. */
  lemma {:induction false} InstCongruence(theta: Assignment, x: Type, y: Type)
    requires Eqv(x, y)
    ensures Eqv(Inst(theta, x), Inst(theta, y))
  {
    if IsVar(x) {
      EqvReflexive(theta(VarKey(x)));
    } else {
      var ix, iy := Inst(theta, x), Inst(theta, y);
      if !IsPrimitive(x) {
        forall i | 0 <= i < |ix.args| ensures Eqv(ix.args[i], iy.args[i]) {
          InstCongruence(theta, x.args[i], y.args[i]);
        }
      }
    }
  }

  // ---- Weight: finite types cannot equal a proper part of themselves ----

  function Weight(t: Type): nat
    ensures Weight(t) > 0
  {
    if IsVar(t) || IsPrimitive(t) then 1 else 1 + WeightOfAll(t.args)
  }

  function WeightOfAll(ts: seq<Type>): nat {
    if ts == [] then 0 else Weight(ts[0]) + WeightOfAll(ts[1..])
  }

  lemma {:induction false} EqvSameWeight(x: Type, y: Type)
    requires Eqv(x, y)
    ensures Weight(x) == Weight(y)
    decreases x
  {
    if !IsVar(x) && !IsPrimitive(x) {
      forall i | 0 <= i < |x.args| ensures Weight(x.args[i]) == Weight(y.args[i]) {
        EqvSameWeight(x.args[i], y.args[i]);
      }
      SameWeights(x.args, y.args);
    }
  }

  lemma {:induction false} SameWeights(xs: seq<Type>, ys: seq<Type>)
    requires |xs| == |ys| && forall i :: 0 <= i < |xs| ==> Weight(xs[i]) == Weight(ys[i])
    ensures WeightOfAll(xs) == WeightOfAll(ys)
  {
    if xs != [] { SameWeights(xs[1..], ys[1..]); }
  }

  lemma {:induction false} PartWeighsLess(ts: seq<Type>, i: nat)
    requires i < |ts|
    ensures Weight(ts[i]) <= WeightOfAll(ts)
  {
    if i > 0 { PartWeighsLess(ts[1..], i - 1); }
  }

  /** Whatever is put for a variable weighs at most as much as the term around it, and less if there is any. */
  lemma {:induction false} OccurrenceWeighsLess(theta: Assignment, key: string, t: Type)
    requires Shows(key, t)
    ensures Weight(theta(key)) <= Weight(Inst(theta, t))
    ensures !IsVar(t) ==> Weight(theta(key)) < Weight(Inst(theta, t))
  {
    if !IsVar(t) {
      var i :| 0 <= i < |t.args| && Shows(key, t.args[i]);
      OccurrenceWeighsLess(theta, key, t.args[i]);
      PartWeighsLess(Inst(theta, t).args, i);
    }
  }

  /** The occurs check is justified: a variable inside a larger term never equals that term. */
  lemma OccursMeansNoSolution(theta: Assignment, key: string, t: Type)
    requires Shows(key, t) && !IsVar(t)
    ensures !Eqv(theta(key), Inst(theta, t))
  {
    OccurrenceWeighsLess(theta, key, t);
    if Eqv(theta(key), Inst(theta, t)) {
      EqvSameWeight(theta(key), Inst(theta, t));
      assert false;
    }
  }
}
