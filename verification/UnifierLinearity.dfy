/**
  A condition on the two terms alone under which success is exactly unifiability: they share no
  variable, and one of them repeats none.
 */
module UnifierLinearity {
  import opened Types
  import opened Terms
  import opened Unification
  import opened UnifierTheorems
  import opened UnifierCompleteness

  /** No variable occurs on both sides. */
  ghost predicate Apart(x: Type, y: Type) {
    forall k :: !(Occurs(k, x) && Occurs(k, y))
  }

  /** No variable occurs twice. */
  ghost predicate Linear(t: Type) {
    && (forall i :: 0 <= i < |t.args| ==> Linear(t.args[i]))
    && ApartFromEachOther(t.args)
  }

  ghost predicate ApartFromEachOther(ts: seq<Type>) {
    forall i, j :: 0 <= i < j < |ts| ==> Apart(ts[i], ts[j])
  }

  ghost predicate AllLinear(ts: seq<Type>) {
    (forall i :: 0 <= i < |ts| ==> Linear(ts[i])) && ApartFromEachOther(ts)
  }

  // ---- A call binds variables of its two terms only, to terms over them ----

  ghost predicate MentionsOnly(t: Type, names: iset<string>) {
    forall k :: Occurs(k, t) ==> k in names
  }

  ghost predicate Confined(s: Subst, s': Subst, names: iset<string>) {
    forall k :: k in s'.bindings && k !in s.bindings ==> k in names && MentionsOnly(s'.bindings[k], names)
  }

  lemma NewImageIsResolved(s: Subst, s': Subst, key: string)
    requires Extends(s, s') && key in s'.bindings && key !in s.bindings
    ensures Resolved(s, s'.bindings[key])
  {
    assert key in s'.trail;
    assert forall j :: 0 <= j < |s.trail| ==> s'.trail[j] in s.trail;
    var i :| 0 <= i < |s'.trail| && s'.trail[i] == key;
    forall k | k in s.bindings ensures !FreeIn(k, s'.bindings[key]) {
      assert k in s.trail;
      var j :| 0 <= j < |s.trail| && s.trail[j] == k;
      assert LaterOnly(s', i, j);
    }
  }

  /** Confined bindings bring only their own names into a term. */
  lemma {:induction false} ApplyConfined(s: Subst, s': Subst, names: iset<string>, t: Type)
    requires Extends(s, s') && Confined(s, s', names)
    ensures forall k :: Occurs(k, Apply(s', t)) ==> Occurs(k, Apply(s, t)) || k in names
    decreases Level(s'.trail, t), t
  {
    if IsVar(t) {
      if VarKey(t) in s'.bindings {
        var image := s'.bindings[VarKey(t)];
        ImageIsLower(s', t);
        ApplyConfined(s, s', names, image);
        if VarKey(t) !in s.bindings {
          NewImageIsResolved(s, s', VarKey(t));
          ApplyFixes(s, image);
        }
      }
    } else {
      forall k | Occurs(k, Apply(s', t)) ensures Occurs(k, Apply(s, t)) || k in names {
        var i :| 0 <= i < |t.args| && Occurs(k, Apply(s', t).args[i]);
        LevelOfPart(s'.trail, t, i);
        ApplyConfined(s, s', names, t.args[i]);
        if Occurs(k, Apply(s, t.args[i])) { assert Occurs(k, Apply(s, t).args[i]); }
      }
    }
  }

  lemma ConfinedTwice(s: Subst, s1: Subst, s2: Subst, names: iset<string>)
    requires Extends(s, s1) && Extends(s1, s2)
    requires Confined(s, s1, names) && Confined(s1, s2, names)
    ensures Confined(s, s2, names)
  {
  }

  ghost predicate AppliedMentionsOnly(s: Subst, universe: set<string>, ts: seq<Type>, names: iset<string>)
    requires Over(s, universe) && AllWithin(universe, ts)
  {
    forall i :: 0 <= i < |ts| ==> MentionsOnly(Apply(s, ts[i]), names)
  }

  lemma PartsMentionOnly(s: Subst, universe: set<string>, t: Type, names: iset<string>)
    requires Over(s, universe) && AllWithin(universe, t.args)
    requires !IsVar(t) && Resolved(s, t) && MentionsOnly(t, names)
    ensures AppliedMentionsOnly(s, universe, t.args, names)
  {
    ResolvedParts(s, t);
    forall i | 0 <= i < |t.args| ensures MentionsOnly(Apply(s, t.args[i]), names) {
      ApplyFixes(s, t.args[i]);
      forall k | Occurs(k, t.args[i]) ensures k in names { assert Occurs(k, t); }
    }
  }

  lemma RestMentionsOnly(s: Subst, s': Subst, universe: set<string>, ts: seq<Type>, names: iset<string>)
    requires Over(s, universe) && Over(s', universe) && Extends(s, s') && Confined(s, s', names)
    requires ts != [] && AllWithin(universe, ts) && AllWithin(universe, ts[1..])
    requires AppliedMentionsOnly(s, universe, ts, names)
    ensures AppliedMentionsOnly(s', universe, ts[1..], names)
  {
    forall i | 0 <= i < |ts[1..]| ensures MentionsOnly(Apply(s', ts[1..][i]), names) {
      assert ts[1..][i] == ts[i + 1];
      ApplyConfined(s, s', names, ts[i + 1]);
      assert MentionsOnly(Apply(s, ts[i + 1]), names);
    }
  }

  lemma {:induction false} UnifyConfined(s: Subst, universe: set<string>, a: Type, b: Type, names: iset<string>)
    requires Over(s, universe) && Within(universe, a) && Within(universe, b)
    requires MentionsOnly(Apply(s, a), names) && MentionsOnly(Apply(s, b), names)
    ensures Confined(s, Unify(s, universe, a, b).subst, names)
    decreases Unbound(s, universe), Size(Apply(s, a)), 0
  {
    var aa, bb := Apply(s, a), Apply(s, b);
    AppliedParts(s, universe, a, b);
    if IsVar(aa) {
      ApplyFixes(s, bb);
      assert Occurs(VarKey(aa), aa);
    } else if IsVar(bb) {
      ApplyFixes(s, aa);
      assert Occurs(VarKey(bb), bb);
    } else if SameOperator(aa, bb) && !IsPrimitive(aa) {
      PartsMentionOnly(s, universe, aa, names);
      PartsMentionOnly(s, universe, bb, names);
      UnifyAllConfined(s, universe, aa.args, bb.args, names);
    }
  }

  lemma {:induction false} UnifyAllConfined(s: Subst, universe: set<string>, xs: seq<Type>, ys: seq<Type>,
                                            names: iset<string>)
    requires Over(s, universe) && AllWithin(universe, xs) && AllWithin(universe, ys) && |xs| == |ys|
    requires AppliedMentionsOnly(s, universe, xs, names) && AppliedMentionsOnly(s, universe, ys, names)
    ensures Confined(s, UnifyAll(s, universe, xs, ys).subst, names)
    decreases Unbound(s, universe), AppliedSize(s, xs), 1
  {
    if xs != [] {
      UnifyAllStep(s, universe, xs, ys);
      UnifyConfined(s, universe, xs[0], ys[0], names);
      var r := Unify(s, universe, xs[0], ys[0]);
      if r.ok {
        RestMentionsOnly(s, r.subst, universe, xs, names);
        RestMentionsOnly(s, r.subst, universe, ys, names);
        UnifyAllConfined(r.subst, universe, xs[1..], ys[1..], names);
        ConfinedTwice(s, r.subst, UnifyAll(s, universe, xs, ys).subst, names);
      }
    }
  }

  // ---- Two sides that stay apart ----

  /** The pairs are apart, and those of one side, which no binding has touched, repeat no variable. */
  ghost predicate Separate(s: Subst, universe: set<string>, linear: seq<Type>, other: seq<Type>)
    requires Over(s, universe) && AllWithin(universe, linear) && AllWithin(universe, other)
  {
    && AllLinear(linear)
    && (forall i :: 0 <= i < |linear| ==> Resolved(s, linear[i]))
    && (forall i, j :: 0 <= i < |linear| && 0 <= j < |other| ==> Apart(linear[i], Apply(s, other[j])))
  }

  lemma PartsSeparate(s: Subst, universe: set<string>, x: Type, y: Type)
    requires Over(s, universe) && AllWithin(universe, x.args) && AllWithin(universe, y.args)
    requires !IsVar(x) && !IsVar(y) && Resolved(s, x) && Resolved(s, y) && Apart(x, y) && Linear(x)
    ensures Separate(s, universe, x.args, y.args)
  {
    ResolvedParts(s, x);
    ResolvedParts(s, y);
    forall i, j | 0 <= i < |x.args| && 0 <= j < |y.args| ensures Apart(x.args[i], Apply(s, y.args[j])) {
      ApplyFixes(s, y.args[j]);
      forall k ensures !(Occurs(k, x.args[i]) && Occurs(k, y.args[j])) {
        assert !(Occurs(k, x) && Occurs(k, y));
      }
    }
  }

  ghost function NamesOf(x: Type, y: Type): iset<string> {
    iset k: string | Occurs(k, x) || Occurs(k, y)
  }

  /** What the first pair binds leaves the other pairs separate. */
  lemma RestSeparate(s: Subst, s': Subst, universe: set<string>, linear: seq<Type>, other: seq<Type>)
    requires Over(s, universe) && Over(s', universe) && Extends(s, s') && |linear| == |other| > 0
    requires AllWithin(universe, linear) && AllWithin(universe, other)
    requires AllWithin(universe, linear[1..]) && AllWithin(universe, other[1..])
    requires Separate(s, universe, linear, other)
    requires Confined(s, s', NamesOf(linear[0], Apply(s, other[0])))
    ensures Separate(s', universe, linear[1..], other[1..])
  {
    var names := NamesOf(linear[0], Apply(s, other[0]));
    forall i, k | 1 <= i < |linear| && k in names ensures !Occurs(k, linear[i]) {
      assert Apart(linear[0], linear[i]) && Apart(linear[i], Apply(s, other[0]));
    }
    forall i | 1 <= i < |linear| ensures Resolved(s', linear[i]) {
      assert Resolved(s, linear[i]);
      forall k | k in s'.bindings ensures !FreeIn(k, linear[i]) {
        if k !in s.bindings { NotFree(k, linear[i]); }
      }
    }
    forall i, j | 1 <= i < |linear| && 1 <= j < |other| ensures Apart(linear[i], Apply(s', other[j])) {
      ApplyConfined(s, s', names, other[j]);
      assert Apart(linear[i], Apply(s, other[j]));
    }
  }

  /** The first pair of separate lists is apart, and one side of it is linear. */
  lemma FirstApart(s: Subst, universe: set<string>, linear: seq<Type>, other: seq<Type>)
    requires Over(s, universe) && |linear| == |other| > 0
    requires AllWithin(universe, linear) && AllWithin(universe, other)
    requires Separate(s, universe, linear, other)
    ensures Apply(s, linear[0]) == linear[0] && Linear(linear[0])
    ensures Apart(Apply(s, linear[0]), Apply(s, other[0])) && Apart(Apply(s, other[0]), Apply(s, linear[0]))
  {
    ApplyFixes(s, linear[0]);
    assert Apart(linear[0], Apply(s, other[0]));
  }

  /** One round of the argument loop keeps the rest separate. */
  lemma RoundSeparate(s: Subst, universe: set<string>, xs: seq<Type>, ys: seq<Type>, left: bool)
    requires Over(s, universe) && |xs| == |ys| > 0
    requires AllWithin(universe, xs) && AllWithin(universe, ys)
    requires AllWithin(universe, xs[1..]) && AllWithin(universe, ys[1..])
    requires if left then Separate(s, universe, xs, ys) else Separate(s, universe, ys, xs)
    ensures var s' := Unify(s, universe, xs[0], ys[0]).subst;
            if left then Separate(s', universe, xs[1..], ys[1..]) else Separate(s', universe, ys[1..], xs[1..])
  {
    var s' := Unify(s, universe, xs[0], ys[0]).subst;
    if left {
      FirstApart(s, universe, xs, ys);
      UnifyConfined(s, universe, xs[0], ys[0], NamesOf(xs[0], Apply(s, ys[0])));
      RestSeparate(s, s', universe, xs, ys);
    } else {
      FirstApart(s, universe, ys, xs);
      UnifyConfined(s, universe, xs[0], ys[0], NamesOf(ys[0], Apply(s, xs[0])));
      RestSeparate(s, s', universe, ys, xs);
    }
  }

  lemma {:induction false} SeparateNeverMeets(s: Subst, universe: set<string>, a: Type, b: Type, left: bool)
    requires Over(s, universe) && Within(universe, a) && Within(universe, b)
    requires Apart(Apply(s, a), Apply(s, b)) && Linear(if left then Apply(s, a) else Apply(s, b))
    ensures !RefusesNeedlessly(s, universe, a, b)
    decreases Unbound(s, universe), Size(Apply(s, a)), 0
  {
    var aa, bb := Apply(s, a), Apply(s, b);
    AppliedParts(s, universe, a, b);
    if IsVar(aa) {
      assert Occurs(VarKey(aa), aa);
    } else if !IsVar(bb) && SameOperator(aa, bb) {
      if left { PartsSeparate(s, universe, aa, bb); } else { PartsSeparate(s, universe, bb, aa); }
      SeparateNeverMeetInAll(s, universe, aa.args, bb.args, left);
    }
  }

  lemma {:induction false} SeparateNeverMeetInAll(s: Subst, universe: set<string>, xs: seq<Type>, ys: seq<Type>,
                                                  left: bool)
    requires Over(s, universe) && AllWithin(universe, xs) && AllWithin(universe, ys) && |xs| == |ys|
    requires if left then Separate(s, universe, xs, ys) else Separate(s, universe, ys, xs)
    ensures !RefusesNeedlesslyInAll(s, universe, xs, ys)
    decreases Unbound(s, universe), AppliedSize(s, xs), 1
  {
    if xs != [] {
      UnifyAllStep(s, universe, xs, ys);
      if left { FirstApart(s, universe, xs, ys); } else { FirstApart(s, universe, ys, xs); }
      SeparateNeverMeets(s, universe, xs[0], ys[0], left);
      var r := Unify(s, universe, xs[0], ys[0]);
      if r.ok {
        RoundSeparate(s, universe, xs, ys, left);
        SeparateNeverMeetInAll(r.subst, universe, xs[1..], ys[1..], left);
      }
    }
  }

  /**
    Where the two terms share no variable and one of them repeats none, a call succeeds exactly if
    they can be unified. The two failures of the previous module break one half of the condition each.
   */
  lemma LinearSuccessIsExact(s: Subst, universe: set<string>, a: Type, b: Type)
    requires Over(s, universe) && Within(universe, a) && Within(universe, b)
    requires Apart(Apply(s, a), Apply(s, b)) && (Linear(Apply(s, a)) || Linear(Apply(s, b)))
    ensures Unify(s, universe, a, b).ok <==> Unifiable(s, a, b)
  {
    SeparateNeverMeets(s, universe, a, b, Linear(Apply(s, a)));
    SuccessIsExact(s, universe, a, b);
  }
}
