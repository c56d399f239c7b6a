/** The cross-language type equivalences of the type registry. */
module Equivalences {
  import opened Options
  import opened Sequences

  type Key = string

  /** A language's type; the registry knows it by the key "language:type". */
  datatype TypeName = TypeName(lang: string, name: string)

  function KeyOf(t: TypeName): Key {
    t.lang + ":" + t.name
  }

  /** Splits a key at its first colon. */
  function SplitKey(key: Key): Option<TypeName> {
    if key == "" then None
    else if key[0] == ':' then Some(TypeName("", key[1..]))
    else
      match SplitKey(key[1..])
      case None => None
      case Some(t) => Some(TypeName([key[0]] + t.lang, t.name))
  }

  lemma {:induction false} SplitKeyIsExact(key: Key, t: TypeName)
    requires ':' !in t.lang
    ensures SplitKey(key) == Some(t) <==> key == KeyOf(t)
  {
    if key != "" && key[0] != ':' {
      if t.lang == "" {
        assert KeyOf(t)[0] == ':';
      } else {
        var u := TypeName(t.lang[1..], t.name);
        SplitKeyIsExact(key[1..], u);
        assert KeyOf(t)[1..] == KeyOf(u) && KeyOf(t)[0] == t.lang[0];
        assert t.lang == [t.lang[0]] + u.lang && key == [key[0]] + key[1..];
        if key == KeyOf(t) {
          assert key[1..] == KeyOf(u);
        }
        if SplitKey(key) == Some(t) {
          assert SplitKey(key[1..]).value.lang == t.lang[1..];
        }
      }
    } else if key != "" {
      assert key == ":" + key[1..];
      if t.lang != "" {
        assert KeyOf(t)[0] == t.lang[0];
      } else {
        assert KeyOf(t) == ":" + t.name;
      }
    }
  }

  lemma {:induction false} SplitHasNoColon(key: Key)
    requires SplitKey(key).Some?
    ensures ':' !in SplitKey(key).value.lang && KeyOf(SplitKey(key).value) == key
  {
    if key[0] == ':' {
      assert "" + ":" + key[1..] == key;
    } else {
      SplitHasNoColon(key[1..]);
      var t := SplitKey(key[1..]).value;
      assert [key[0]] + t.lang + ":" + t.name == [key[0]] + (t.lang + ":" + t.name) == key;
    }
  }

  /** Different keys are split into different types. */
  lemma SplitIsNew(list: seq<Key>, i: nat, t: TypeName)
    requires Distinct(list) && i < |list| && SplitKey(list[i]) == Some(t)
    ensures ':' !in t.lang && forall k: nat :: k < i ==> SplitKey(list[k]) != Some(t)
  {
    SplitHasNoColon(list[i]);
    forall k: nat | k < i ensures SplitKey(list[k]) != Some(t) {
      if SplitKey(list[k]) == Some(t) { SplitHasNoColon(list[k]); }
    }
  }

  /** Two types of different languages with one key: neither is equivalent to the other for the query. */
  lemma KeysCoincide()
    ensures var a, b := TypeName("a:b", "c"), TypeName("a", "b:c");
            a != b && KeyOf(a) == KeyOf(b) && forall pairs :: Connected(pairs, KeyOf(a), KeyOf(b))
  {
    var a, b := TypeName("a:b", "c"), TypeName("a", "b:c");
    assert KeyOf(a) == "a:b:c" == KeyOf(b);
    forall pairs ensures Connected(pairs, KeyOf(a), KeyOf(b)) { Reflexive(pairs, KeyOf(a)); }
  }

  lemma KeysDiffer(a: TypeName, b: TypeName)
    requires ':' !in a.lang && ':' !in b.lang
    ensures KeyOf(a) == KeyOf(b) <==> a == b
  {
    SplitKeyIsExact(KeyOf(a), a);
    SplitKeyIsExact(KeyOf(a), b);
  }

  // ---- The reflexive, symmetric and transitive closure, by chains of registered pairs ----

  predicate Linked(pairs: seq<(Key, Key)>, x: Key, y: Key) {
    (x, y) in pairs || (y, x) in pairs
  }

  predicate Chain(pairs: seq<(Key, Key)>, p: seq<Key>) {
    |p| > 0 && forall i: nat :: i + 1 < |p| ==> Linked(pairs, p[i], p[i + 1])
  }

  predicate ChainFromTo(pairs: seq<(Key, Key)>, p: seq<Key>, x: Key, y: Key) {
    Chain(pairs, p) && p[0] == x && p[|p| - 1] == y
  }

  ghost predicate Connected(pairs: seq<(Key, Key)>, x: Key, y: Key) {
    exists p :: ChainFromTo(pairs, p, x, y)
  }

  lemma Reflexive(pairs: seq<(Key, Key)>, x: Key)
    ensures Connected(pairs, x, x)
  {
    assert ChainFromTo(pairs, [x], x, x);
  }

  lemma NothingLinked(x: Key, y: Key)
    ensures Connected([], x, y) ==> y == x
  {
    if Connected([], x, y) {
      var p :| ChainFromTo([], p, x, y);
      assert 0 + 1 < |p| ==> Linked([], p[0], p[0 + 1]);
    }
  }

  lemma Transitive(pairs: seq<(Key, Key)>, x: Key, y: Key, z: Key)
    requires Connected(pairs, x, y) && Connected(pairs, y, z)
    ensures Connected(pairs, x, z)
  {
    var p :| ChainFromTo(pairs, p, x, y);
    var q :| ChainFromTo(pairs, q, y, z);
    var r := p + q[1..];
    forall i: nat | i + 1 < |r| ensures Linked(pairs, r[i], r[i + 1]) {
      if i + 1 >= |p| {
        var k := i + 1 - |p|;
        assert Linked(pairs, q[k], q[k + 1]);
      }
    }
    assert ChainFromTo(pairs, r, x, z);
  }

  lemma {:induction false} ChainReversed(pairs: seq<(Key, Key)>, p: seq<Key>, x: Key, y: Key)
    requires ChainFromTo(pairs, p, x, y)
    ensures Connected(pairs, y, x)
    decreases |p|
  {
    if |p| == 1 {
      Reflexive(pairs, x);
    } else {
      assert Linked(pairs, p[0], p[0 + 1]);
      var q := p[1..];
      forall i: nat | i + 1 < |q| ensures Linked(pairs, q[i], q[i + 1]) {
        assert Linked(pairs, p[i + 1], p[i + 1 + 1]);
      }
      ChainReversed(pairs, q, p[1], y);
      assert ChainFromTo(pairs, [p[1], x], p[1], x);
      Transitive(pairs, y, p[1], x);
    }
  }

  lemma Symmetric(pairs: seq<(Key, Key)>, x: Key, y: Key)
    requires Connected(pairs, x, y)
    ensures Connected(pairs, y, x)
  {
    var p :| ChainFromTo(pairs, p, x, y);
    ChainReversed(pairs, p, x, y);
  }

  lemma MorePairs(pairs: seq<(Key, Key)>, pair: (Key, Key), x: Key, y: Key)
    requires Connected(pairs, x, y)
    ensures Connected(pairs + [pair], x, y)
  {
    var p :| ChainFromTo(pairs, p, x, y);
    forall i: nat | i + 1 < |p| ensures Linked(pairs + [pair], p[i], p[i + 1]) {
      assert Linked(pairs, p[i], p[i + 1]);
    }
    assert ChainFromTo(pairs + [pair], p, x, y);
  }

  /** The class of a key. */
  ghost predicate IsClass(pairs: seq<(Key, Key)>, x: Key, members: set<Key>) {
    forall y :: y in members <==> Connected(pairs, x, y)
  }

  /** With one more pair, a chain that starts in the two joined classes stays there. */
  lemma {:induction false} ChainStays(pairs: seq<(Key, Key)>, a: Key, b: Key, ca: set<Key>, cb: set<Key>, p: seq<Key>,
                                      x: Key, y: Key)
    requires IsClass(pairs, a, ca) && IsClass(pairs, b, cb)
    requires ChainFromTo(pairs + [(a, b)], p, x, y)
    ensures x in ca + cb ==> y in ca + cb
    ensures x !in ca + cb ==> y !in ca + cb && Connected(pairs, x, y)
    decreases |p|
  {
    var n := |p| - 1;
    Reflexive(pairs, a);
    Reflexive(pairs, b);
    if n == 0 {
      Reflexive(pairs, x);
    } else {
      var q := p[..n];
      forall i: nat | i + 1 < |q| ensures Linked(pairs + [(a, b)], q[i], q[i + 1]) {
        assert Linked(pairs + [(a, b)], p[i], p[i + 1]);
      }
      var z := p[n - 1];
      assert Linked(pairs + [(a, b)], p[n - 1], p[n - 1 + 1]);
      ChainStays(pairs, a, b, ca, cb, q, x, z);
      LinkStays(pairs, a, b, ca, cb, z, y);
      if x !in ca + cb {
        Transitive(pairs, x, z, y);
      }
    }
  }

  lemma LinkStays(pairs: seq<(Key, Key)>, a: Key, b: Key, ca: set<Key>, cb: set<Key>, z: Key, y: Key)
    requires IsClass(pairs, a, ca) && IsClass(pairs, b, cb) && a in ca && b in cb
    requires Linked(pairs + [(a, b)], z, y)
    ensures z in ca + cb <==> y in ca + cb
    ensures z !in ca + cb ==> Connected(pairs, z, y)
  {
    if Linked(pairs, z, y) {
      assert ChainFromTo(pairs, [z, y], z, y) && ChainFromTo(pairs, [y, z], y, z);
      if z in ca { Transitive(pairs, a, z, y); }
      if z in cb { Transitive(pairs, b, z, y); }
      if y in ca { Transitive(pairs, a, y, z); }
      if y in cb { Transitive(pairs, b, y, z); }
    } else {
      assert (z, y) == (a, b) || (y, z) == (a, b);
    }
  }

  /** Registering a pair joins its two classes and leaves the others alone. */
  lemma ClassesJoin(pairs: seq<(Key, Key)>, a: Key, b: Key, ca: set<Key>, cb: set<Key>, x: Key, y: Key)
    requires IsClass(pairs, a, ca) && IsClass(pairs, b, cb)
    ensures x in ca + cb ==> (Connected(pairs + [(a, b)], x, y) <==> y in ca + cb)
    ensures x !in ca + cb ==> (Connected(pairs + [(a, b)], x, y) <==> Connected(pairs, x, y))
  {
    var more := pairs + [(a, b)];
    if Connected(more, x, y) {
      var p :| ChainFromTo(more, p, x, y);
      ChainStays(pairs, a, b, ca, cb, p, x, y);
    }
    if x in ca + cb && y in ca + cb {
      JoinedAreConnected(pairs, a, b, ca, cb, x);
      JoinedAreConnected(pairs, a, b, ca, cb, y);
      Symmetric(more, a, x);
      Transitive(more, x, a, y);
    }
    if Connected(pairs, x, y) {
      MorePairs(pairs, (a, b), x, y);
    }
  }

  lemma JoinedAreConnected(pairs: seq<(Key, Key)>, a: Key, b: Key, ca: set<Key>, cb: set<Key>, x: Key)
    requires IsClass(pairs, a, ca) && IsClass(pairs, b, cb) && x in ca + cb
    ensures Connected(pairs + [(a, b)], a, x)
  {
    var more := pairs + [(a, b)];
    if x in ca {
      MorePairs(pairs, (a, b), a, x);
    } else {
      MorePairs(pairs, (a, b), b, x);
      assert (a, b) in more && ChainFromTo(more, [a, b], a, b);
      Transitive(more, a, b, x);
    }
  }

  // ---- The registry ----

  class TypeRegistry {
    var equivalences: map<Key, seq<Key>>
    ghost var registered: seq<(Key, Key)>

    /** Each list is its key's class without the key itself, no member twice; a key without a list is alone. */
    ghost predicate Valid()
      reads this
    {
      && (forall k :: k in equivalences ==> IsListOf(registered, k, equivalences[k]))
      && (forall k, y :: k !in equivalences && Connected(registered, k, y) ==> y == k)
    }

    constructor ()
      ensures Valid() && registered == []
    {
      equivalences, registered := map[], [];
      new;
      forall k, y ensures Connected(registered, k, y) ==> y == k {
        NothingLinked(k, y);
      }
    }

    method Clear()
      modifies this
      ensures Valid() && registered == []
    {
      equivalences, registered := map[], [];
      forall k, y ensures Connected(registered, k, y) ==> y == k {
        NothingLinked(k, y);
      }
    }

    /** The key and the members of its list. */
    method Collect(key: Key) returns (members: set<Key>)
      requires Valid()
      ensures IsClass(registered, key, members)
    {
      members := {key};
      Reflexive(registered, key);
      if key in equivalences {
        var list := equivalences[key];
        for i := 0 to |list|
          invariant forall y :: y in members <==> y == key || y in list[..i]
        {
          members := members + {list[i]};
        }
        assert list[..|list|] == list && IsListOf(registered, key, list);
      }
    }

    method RegisterEquivalence(a: TypeName, b: TypeName)
      requires Valid()
      modifies this
      ensures Valid() && registered == old(registered) + [(KeyOf(a), KeyOf(b))]
    {
      var keyA, keyB := KeyOf(a), KeyOf(b);
      var classA := Collect(keyA);
      var classB := Collect(keyB);
      var merged := classA + classB;
      var todo := merged;
      while todo != {}
        invariant todo <= merged && registered == old(registered)
        invariant forall k :: k in merged - todo ==> k in equivalences && ListsOthers(equivalences[k], merged, k)
        invariant forall k :: k !in merged - todo ==>
                    (k in equivalences <==> k in old(equivalences))
                    && (k in equivalences ==> equivalences[k] == old(equivalences)[k])
        decreases |todo|
      {
        var member :| member in todo;
        var list := Others(merged, member);
        equivalences := equivalences[member := list];
        todo := todo - {member};
      }
      ghost var more := registered + [(keyA, keyB)];
      forall k | k in equivalences ensures IsListOf(more, k, equivalences[k]) {
        forall y ensures y in equivalences[k] <==> y != k && Connected(more, k, y) {
          ClassesJoin(registered, keyA, keyB, classA, classB, k, y);
          assert k !in merged ==> IsListOf(registered, k, equivalences[k]);
        }
        assert k !in merged ==> IsListOf(registered, k, equivalences[k]);
      }
      forall k, y | k !in equivalences && Connected(more, k, y) ensures y == k {
        ClassesJoin(registered, keyA, keyB, classA, classB, k, y);
      }
      registered := more;
    }

    /** The other types of the class, for languages without a colon in their name. */
    method GetEquivalences(t: TypeName) returns (result: seq<TypeName>)
      requires Valid()
      ensures forall u: TypeName :: ':' !in u.lang ==>
                (u in result <==> KeyOf(u) != KeyOf(t) && Connected(registered, KeyOf(t), KeyOf(u)))
      ensures Distinct(result) && forall u :: u in result ==> ':' !in u.lang
    {
      result := [];
      var key := KeyOf(t);
      if key in equivalences {
        var list := equivalences[key];
        for i := 0 to |list|
          invariant forall u: TypeName :: u in result <==> exists k: nat :: k < i && SplitKey(list[k]) == Some(u)
          invariant Distinct(result) && forall u :: u in result ==> ':' !in u.lang
        {
          var split := SplitKey(list[i]);
          if split.Some? {
            SplitIsNew(list, i, split.value);
            result := result + [split.value];
          }
        }
        forall u: TypeName | ':' !in u.lang ensures u in result <==> KeyOf(u) in list {
          forall k: nat | k < |list| ensures SplitKey(list[k]) == Some(u) <==> list[k] == KeyOf(u) {
            SplitKeyIsExact(list[k], u);
          }
        }
        assert IsListOf(registered, key, list);
      }
    }

    /** Two types are equivalent when they are the same, or have different keys that registered pairs connect. */
    method AreEquivalent(a: TypeName, b: TypeName) returns (r: bool)
      requires Valid()
      ensures r <==> a == b || (KeyOf(a) != KeyOf(b) && Connected(registered, KeyOf(a), KeyOf(b)))
      ensures ':' !in a.lang && ':' !in b.lang ==> (r <==> Connected(registered, KeyOf(a), KeyOf(b)))
    {
      if ':' !in a.lang && ':' !in b.lang {
        KeysDiffer(a, b);
        Reflexive(registered, KeyOf(a));
      }
      if a == b {
        return true;
      }
      var keyA, keyB := KeyOf(a), KeyOf(b);
      if keyA in equivalences {
        var list := equivalences[keyA];
        assert IsListOf(registered, keyA, list);
        for i := 0 to |list|
          invariant keyB !in list[..i]
        {
          if list[i] == keyB {
            assert keyB in list;
            return true;
          }
        }
        assert list[..|list|] == list;
      }
      return false;
    }
  }

  ghost predicate IsListOf(pairs: seq<(Key, Key)>, k: Key, list: seq<Key>) {
    && Distinct(list)
    && (forall y :: y in list <==> y != k && Connected(pairs, k, y))
  }

  ghost predicate ListsOthers(list: seq<Key>, merged: set<Key>, member: Key) {
    && Distinct(list)
    && (forall y :: y in list <==> y in merged && y != member)
  }

  /** All other members, in some order. */
  method Others(merged: set<Key>, member: Key) returns (list: seq<Key>)
    ensures ListsOthers(list, merged, member)
  {
    list := [];
    var todo := merged;
    while todo != {}
      invariant todo <= merged && Distinct(list)
      invariant forall y :: y in list <==> y in merged - todo && y != member
      decreases |todo|
    {
      var other :| other in todo;
      assert merged - (todo - {other}) == merged - todo + {other};
      if other != member {
        list := list + [other];
      }
      todo := todo - {other};
    }
  }
}
