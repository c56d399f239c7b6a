/** Sequences used as reorderings of 0, .., n - 1. */
module Sequences {
  predicate Distinct<T(==)>(s: seq<T>) {
    forall i, j :: 0 <= i < j < |s| ==> s[i] != s[j]
  }

  /** Lists the positions 0, .., n - 1 once each. */
  ghost predicate IsPermutation(order: seq<nat>, n: nat) {
    && |order| == n
    && Distinct(order)
    && (forall t :: 0 <= t < n ==> order[t] < n)
    && (forall x: nat :: x < n ==> x in order)
  }

  function Identity(n: nat): (order: seq<nat>)
    ensures |order| == n && forall t :: 0 <= t < n ==> order[t] == t
  {
    seq(n, t => t)
  }

  function Pick<T>(b: seq<T>, order: seq<nat>): (out: seq<T>)
    requires InRange(order, |b|)
    ensures |out| == |order|
    ensures forall t :: 0 <= t < |order| ==> out[t] == b[order[t]]
  {
    seq(|order|, t requires 0 <= t < |order| => b[order[t]])
  }

  ghost predicate Before(q: seq<nat>, x: nat, y: nat) {
    exists k, l :: 0 <= k < l < |q| && q[k] == x && q[l] == y
  }

  predicate InRange(order: seq<nat>, n: nat) {
    forall t :: 0 <= t < |order| ==> order[t] < n
  }

  lemma PickAppend<T>(b: seq<T>, p: seq<nat>, q: seq<nat>)
    requires InRange(p, |b|) && InRange(q, |b|)
    ensures InRange(p + q, |b|) && Pick(b, p + q) == Pick(b, p) + Pick(b, q)
  {
    var whole, parts := Pick(b, p + q), Pick(b, p) + Pick(b, q);
    forall t | 0 <= t < |p + q| ensures whole[t] == parts[t] {
      if t < |p| {
        assert whole[t] == b[p[t]] == parts[t];
      } else {
        assert whole[t] == b[q[t - |p|]] == parts[t];
      }
    }
  }

  lemma PickOneMore<T>(b: seq<T>, q: seq<nat>, x: nat)
    requires InRange(q, |b|) && x < |b|
    ensures InRange(q + [x], |b|) && Pick(b, q + [x]) == Pick(b, q) + [b[x]]
  {
    PickAppend(b, q, [x]);
    assert Pick(b, [x]) == [b[x]];
  }

  lemma PickLast<T>(b: seq<T>, q: seq<nat>)
    requires InRange(q, |b|) && |q| > 0
    ensures Pick(b, q) == Pick(b, q[..|q| - 1]) + [b[q[|q| - 1]]]
  {
    PickOneMore(b, q[..|q| - 1], q[|q| - 1]);
    assert q == q[..|q| - 1] + [q[|q| - 1]];
  }

  lemma PickSplit<T>(b: seq<T>, p: seq<nat>, t: nat)
    requires InRange(p, |b|) && t < |p|
    ensures Pick(b, p) == Pick(b, p[..t]) + [b[p[t]]] + Pick(b, p[t + 1..])
  {
    var front, back := p[..t], p[t + 1..];
    PickOneMore(b, front, p[t]);
    PickAppend(b, front + [p[t]], back);
    assert p == front + [p[t]] + back;
  }

  lemma PickSkipped<T>(b: seq<T>, p: seq<nat>, t: nat)
    requires InRange(p, |b|) && t < |p|
    ensures InRange(p[..t] + p[t + 1..], |b|)
    ensures Pick(b, p[..t] + p[t + 1..]) == Pick(b, p[..t]) + Pick(b, p[t + 1..])
  {
    PickAppend(b, p[..t], p[t + 1..]);
  }

  function Below(n: nat): (s: set<nat>)
    ensures forall x: nat :: x in s <==> x < n
    ensures |s| == n
  {
    if n == 0 then {} else Below(n - 1) + {n - 1}
  }

  function Elements<T>(s: seq<T>): set<T> {
    set x | x in s
  }

  lemma {:induction false} DistinctSize(s: seq<nat>, n: nat)
    requires Distinct(s) && InRange(s, n)
    ensures |s| == |Elements(s)| <= n
    ensures |s| == n ==> forall x: nat :: x < n ==> x in s
  {
    var elems := Elements(s);
    DistinctCard(s);
    assert elems <= Below(n);
    SubsetCard(elems, Below(n));
    if |s| == n {
      forall x: nat | x < n ensures x in s { assert x in elems; }
    }
  }

  lemma {:induction false} DistinctCard<T>(s: seq<T>)
    requires Distinct(s)
    ensures |s| == |Elements(s)|
  {
    if s != [] {
      var n := |s| - 1;
      DistinctCard(s[..n]);
      assert s[n] !in s[..n];
      assert Elements(s) == Elements(s[..n]) + {s[n]};
    }
  }

  lemma {:induction false} SubsetCard<T>(a: set<T>, c: set<T>)
    requires a <= c
    ensures |a| <= |c| && (|a| == |c| ==> a == c)
  {
    if a != {} {
      var x :| x in a;
      SubsetCard(a - {x}, c - {x});
    }
  }

  lemma FirstMissing(done: seq<nat>, n: nat) returns (x: nat)
    requires Distinct(done) && InRange(done, n) && |done| < n
    ensures x < n && x !in done && forall y: nat :: y < x ==> y in done
  {
    if forall y: nat :: y < n ==> y in done {
      assert Below(n) == Elements(done);
      DistinctCard(done);
      assert false;
    }
    x :| x < n && x !in done;
    while exists y: nat :: y < x && y !in done
      invariant x < n && x !in done
      decreases x
    {
      var y: nat :| y < x && y !in done;
      x := y;
    }
  }

  lemma {:induction false} PermutationKeepsElements<T>(b: seq<T>, order: seq<nat>)
    requires IsPermutation(order, |b|)
    ensures multiset(Pick(b, order)) == multiset(b)
    decreases |b|
  {
    if b == [] {
      assert Pick(b, order) == b;
    } else {
      var n := |b| - 1;
      assert n in order;
      var t :| 0 <= t < |order| && order[t] == n;
      DropLargest(order, n, t);
      PermutationKeepsElements(b[..n], order[..t] + order[t + 1..]);
      PickWithoutLargest(b, order, t);
      InsertedAnywhere(Pick(b, order[..t]), b[n], Pick(b, order[t + 1..]), b[..n]);
    }
  }

  lemma PickWithoutLargest<T>(b: seq<T>, order: seq<nat>, t: nat)
    requires InRange(order, |b|) && t < |order| && order[t] == |b| - 1
    requires InRange(order[..t] + order[t + 1..], |b| - 1)
    ensures InRange(order[..t], |b|) && InRange(order[t + 1..], |b|)
    ensures b == b[..|b| - 1] + [b[|b| - 1]]
    ensures Pick(b, order) == Pick(b, order[..t]) + [b[|b| - 1]] + Pick(b, order[t + 1..])
    ensures Pick(b[..|b| - 1], order[..t] + order[t + 1..]) == Pick(b, order[..t]) + Pick(b, order[t + 1..])
  {
    var rest := order[..t] + order[t + 1..];
    PickSplit(b, order, t);
    PickSkipped(b, order, t);
    assert Pick(b[..|b| - 1], rest) == Pick(b, rest) by {
      forall i | 0 <= i < |rest| ensures Pick(b[..|b| - 1], rest)[i] == Pick(b, rest)[i] {
        assert rest[i] < |b| - 1;
      }
    }
  }

  lemma InsertedAnywhere<T>(front: seq<T>, x: T, back: seq<T>, c: seq<T>)
    requires multiset(front + back) == multiset(c)
    ensures multiset(front + [x] + back) == multiset(c + [x])
  {
  }

  lemma DropLargest(order: seq<nat>, n: nat, t: nat)
    requires IsPermutation(order, n + 1) && t < |order| && order[t] == n
    ensures IsPermutation(order[..t] + order[t + 1..], n)
  {
    var rest := order[..t] + order[t + 1..];
    assert forall i :: 0 <= i < |rest| ==> rest[i] == order[if i < t then i else i + 1];
    forall x: nat | x < n ensures x in rest {
      assert x in order;
      var i :| 0 <= i < |order| && order[i] == x;
      assert rest[if i < t then i else i - 1] == x;
    }
  }
}
