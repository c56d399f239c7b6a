/** Open-addressing identifier table with growth and rollback. */
module IdentifierTables {
  import opened Sequences

  type Bytes = seq<bv8>

  const INVALID: nat := 0xffff_ffff
  const INITIAL_BUCKETS: nat := 64

  // ---- What the table means: a list of distinct names and two counters ----

  datatype View = View(symbols: seq<Bytes>, hits: nat, misses: nat)

  datatype Snapshot = Snapshot(symbolCount: nat, hitCount: nat, missCount: nat)

  function IndexOf(symbols: seq<Bytes>, name: Bytes): (id: nat)
    ensures name in symbols ==> id < |symbols| && symbols[id] == name
    ensures name !in symbols ==> id == |symbols|
  {
    if symbols == [] then 0
    else if symbols[0] == name then 0
    else 1 + IndexOf(symbols[1..], name)
  }

  function Found(t: View, name: Bytes): nat {
    if name in t.symbols then IndexOf(t.symbols, name) else INVALID
  }

  function Interned(t: View, name: Bytes): View {
    if name in t.symbols then t.(hits := t.hits + 1)
    else View(t.symbols + [name], t.hits, t.misses + 1)
  }

  function SnapshotOf(t: View): Snapshot {
    Snapshot(|t.symbols|, t.hits, t.misses)
  }

  /** Restoring a snapshot from a longer table has no effect. */
  function Restored(t: View, snap: Snapshot): View {
    if snap.symbolCount > |t.symbols| then t
    else View(t.symbols[..snap.symbolCount], snap.hitCount, snap.missCount)
  }

  datatype Op = Intern(name: Bytes) | Restore(snap: Snapshot) | Reset

  function Perform(t: View, op: Op): View {
    match op
    case Intern(name) => Interned(t, name)
    case Restore(snap) => Restored(t, snap)
    case Reset => View([], 0, 0)
  }

  function Run(t: View, ops: seq<Op>): View {
    if ops == [] then t else Perform(Run(t, ops[..|ops| - 1]), ops[|ops| - 1])
  }

  /** Without rollback each call is a hit or a miss, and the misses are the names that were new. */
  lemma {:induction false} EveryCallIsCounted(t: View, ops: seq<Op>)
    requires forall k :: 0 <= k < |ops| ==> ops[k].Intern?
    ensures var r := Run(t, ops);
            && r.hits + r.misses == t.hits + t.misses + |ops|
            && r.misses + |t.symbols| == t.misses + |r.symbols|
  {
    if ops != [] { EveryCallIsCounted(t, ops[..|ops| - 1]); }
  }

  /** On every run from an empty table the misses number the names, rollbacks to snapshots of such tables included. */
  lemma {:induction false} MissesNumberTheNames(ops: seq<Op>)
    requires forall k :: 0 <= k < |ops| && ops[k].Restore? ==> ops[k].snap.missCount == ops[k].snap.symbolCount
    ensures Run(View([], 0, 0), ops).misses == |Run(View([], 0, 0), ops).symbols|
  {
    if ops != [] { MissesNumberTheNames(ops[..|ops| - 1]); }
  }

  /** Names stay distinct, so ids and names determine each other, on every run. */
  lemma {:induction false} RunKeepsDistinct(t: View, ops: seq<Op>)
    requires Distinct(t.symbols)
    ensures Distinct(Run(t, ops).symbols)
  {
    if ops != [] { RunKeepsDistinct(t, ops[..|ops| - 1]); }
  }

  lemma {:induction false} FirstIndex(symbols: seq<Bytes>, k: nat)
    requires Distinct(symbols) && k < |symbols|
    ensures IndexOf(symbols, symbols[k]) == k
  {
    var i := IndexOf(symbols, symbols[k]);
    assert symbols[k] in symbols && symbols[i] == symbols[k];
  }

  lemma NewNameIsLast(symbols: seq<Bytes>, name: Bytes)
    requires Distinct(symbols) && name !in symbols
    ensures Distinct(symbols + [name]) && IndexOf(symbols + [name], name) == |symbols|
    ensures (symbols + [name])[..|symbols|] == symbols
  {
    FirstIndex(symbols + [name], |symbols|);
  }

  /** Operations that never roll back below a mark and do not reset. */
  predicate StaysAbove(ops: seq<Op>, mark: nat) {
    forall k :: 0 <= k < |ops| ==> !ops[k].Reset? && (ops[k].Restore? ==> ops[k].snap.symbolCount >= mark)
  }

  lemma {:induction false} RunKeepsPrefix(t: View, ops: seq<Op>)
    requires StaysAbove(ops, |t.symbols|)
    ensures t.symbols <= Run(t, ops).symbols
  {
    if ops != [] {
      RunKeepsPrefix(t, ops[..|ops| - 1]);
      assert StaysAbove([ops[|ops| - 1]], |t.symbols|);
    }
  }

  /** Restoring recovers the table of the snapshot exactly if the names of that moment are still there. */
  lemma RestoreIsExact(t: View, later: View)
    ensures Restored(later, SnapshotOf(t)) == t <==> t.symbols <= later.symbols
  {
    if |t.symbols| <= |later.symbols| {
      assert t.symbols <= later.symbols <==> later.symbols[..|t.symbols|] == t.symbols;
    }
  }

  /** Rollback is transactional: names interned and inner rollbacks made since the snapshot leave no trace. */
  lemma RollbackIsTransactional(t: View, ops: seq<Op>)
    requires StaysAbove(ops, |t.symbols|)
    ensures Restored(Run(t, ops), SnapshotOf(t)) == t
  {
    RunKeepsPrefix(t, ops);
    RestoreIsExact(t, Run(t, ops));
  }

  /** Rolling back below a snapshot and interning another name: restoring gives that name, not the old one. */
  lemma RollbackBelowSnapshot(a: Bytes, b: Bytes)
    requires a != b
    ensures var t := View([a], 0, 1);
            var later := Run(t, [Restore(Snapshot(0, 0, 0)), Intern(b)]);
            Restored(later, SnapshotOf(t)) == View([b], 0, 1) != t
  {
    var t, first: Op, second: Op := View([a], 0, 1), Restore(Snapshot(0, 0, 0)), Intern(b);
    assert [first, second][..1] == [first] && [first][..0] == [];
    assert Run(t, [first]) == View([], 0, 0);
    assert [] + [b] == [b];
    assert Run(t, [first, second]) == View([b], 0, 1);
  }

  // ---- The bucket array ----

  datatype Slot = Slot(hash: nat, id: nat)

  const EMPTY := Slot(0, INVALID)

  /** FNV-1a over 32 bits, with 0 remapped. */
  function Fnv(s: Bytes): bv32 {
    if s == [] then 0x811c9dc5
    else (Fnv(s[..|s| - 1]) ^ (s[|s| - 1] as bv32)) * 0x01000193
  }

  function HashOf(s: Bytes): nat {
    var h := Fnv(s);
    if h == 0 then 0xffff_ffff else h as nat
  }

  /** The d-th bucket after home, cyclically: home + d modulo size, a power of two, so a mask of size - 1 computes
      it. */
  function Cyclic(home: nat, d: nat, size: nat): (p: nat)
    requires home < size && d <= size
    ensures p < size
  {
    if home + d < size then home + d else home + d - size
  }

  function Home(hash: nat, size: nat): nat
    requires size > 0
    ensures Home(hash, size) < size
  {
    hash % size
  }

  ghost predicate PowerOfTwo(n: nat) {
    n == 1 || (n > 1 && n % 2 == 0 && PowerOfTwo(n / 2))
  }

  /** The first d buckets after home are occupied. */
  ghost predicate OccupiedRun(buckets: seq<Slot>, home: nat, d: nat)
    requires home < |buckets| && d <= |buckets|
  {
    forall e :: 0 <= e < d ==> buckets[Cyclic(home, e, |buckets|)].id != INVALID
  }

  /** Probing for the name of this id, from its home and over occupied buckets only, arrives at its slot. */
  ghost predicate Reachable(buckets: seq<Slot>, symbols: seq<Bytes>, id: nat)
    requires |buckets| > 0 && id < |symbols|
  {
    exists d :: 0 <= d < |buckets| && ReachedAt(buckets, Home(HashOf(symbols[id]), |buckets|), d, id)
  }

  ghost predicate ReachedAt(buckets: seq<Slot>, home: nat, d: nat, id: nat)
    requires home < |buckets| && d < |buckets|
  {
    buckets[Cyclic(home, d, |buckets|)].id == id && OccupiedRun(buckets, home, d)
  }

  ghost predicate SlotOk(slot: Slot, symbols: seq<Bytes>) {
    slot.id != INVALID ==> slot.id < |symbols| && slot.hash == HashOf(symbols[slot.id])
  }

  /** The buckets hold every symbol once, each where probing finds it, and one bucket is free. */
  ghost predicate Indexes(buckets: seq<Slot>, symbols: seq<Bytes>) {
    && |symbols| < |buckets| && |symbols| <= INVALID
    && (forall p :: 0 <= p < |buckets| ==> SlotOk(buckets[p], symbols))
    && (forall p, q :: 0 <= p < q < |buckets| && buckets[p].id != INVALID ==> buckets[p].id != buckets[q].id)
    && (forall id: nat :: id < |symbols| ==> Reachable(buckets, symbols, id))
  }

  lemma {:induction false} FreeBucket(buckets: seq<Slot>, symbols: seq<Bytes>)
    requires Indexes(buckets, symbols)
    ensures exists p :: 0 <= p < |buckets| && buckets[p].id == INVALID
  {
    if forall p :: 0 <= p < |buckets| ==> buckets[p].id != INVALID {
      var ids := seq(|buckets|, p requires 0 <= p < |buckets| => buckets[p].id);
      assert Distinct(ids) && InRange(ids, |symbols|);
      DistinctSize(ids, |symbols|);
      assert false;
    }
  }

  lemma DistanceTo(home: nat, p: nat, size: nat) returns (d: nat)
    requires home < size && p < size
    ensures d < size && Cyclic(home, d, size) == p
  {
    d := if p >= home then p - home else p + size - home;
  }

  /** Filling free buckets does not cut a probe that ends at an occupied one. */
  lemma FilledStillReaches(buckets: seq<Slot>, filled: seq<Slot>, home: nat, d: nat, id: nat)
    requires |filled| == |buckets| && id != INVALID
    requires forall p :: 0 <= p < |buckets| && buckets[p].id != INVALID ==> filled[p].id == buckets[p].id
    requires home < |buckets| && d < |buckets| && ReachedAt(buckets, home, d, id)
    ensures ReachedAt(filled, home, d, id)
  {
  }

  /** What a free bucket holds besides its mark does not matter. */
  lemma FreeBucketKeepsIndex(buckets: seq<Slot>, symbols: seq<Bytes>, p: nat, hash: nat)
    requires Indexes(buckets, symbols) && p < |buckets| && buckets[p].id == INVALID
    ensures Indexes(buckets[p := Slot(hash, INVALID)], symbols)
  {
    var b' := buckets[p := Slot(hash, INVALID)];
    forall id: nat | id < |symbols| ensures Reachable(b', symbols, id) {
      assert Reachable(buckets, symbols, id);
      var h := Home(HashOf(symbols[id]), |buckets|);
      var e :| 0 <= e < |buckets| && ReachedAt(buckets, h, e, id);
      FilledStillReaches(buckets, b', h, e, id);
    }
  }

  /** Putting a new symbol into the free bucket its probe ends at keeps the index. */
  lemma InsertKeepsIndex(buckets: seq<Slot>, symbols: seq<Bytes>, name: Bytes, d: nat)
    requires Indexes(buckets, symbols) && |symbols| + 1 < |buckets| && |symbols| < INVALID
    requires d < |buckets| && OccupiedRun(buckets, Home(HashOf(name), |buckets|), d)
    requires buckets[Cyclic(Home(HashOf(name), |buckets|), d, |buckets|)].id == INVALID
    ensures var p := Cyclic(Home(HashOf(name), |buckets|), d, |buckets|);
            Indexes(buckets[p := Slot(HashOf(name), |symbols|)], symbols + [name])
  {
    var size := |buckets|;
    var home := Home(HashOf(name), size);
    var p := Cyclic(home, d, size);
    var b', s' := buckets[p := Slot(HashOf(name), |symbols|)], symbols + [name];
    assert forall q :: 0 <= q < size && q != p ==> b'[q] == buckets[q];
    forall id: nat | id < |symbols| ensures Reachable(b', s', id) {
      assert Reachable(buckets, symbols, id) && s'[id] == symbols[id];
      var h := Home(HashOf(symbols[id]), size);
      var e :| 0 <= e < size && ReachedAt(buckets, h, e, id);
      FilledStillReaches(buckets, b', h, e, id);
    }
    assert OccupiedRun(b', home, d);
    assert ReachedAt(b', home, d, |symbols|) && s'[|symbols|] == name;
    assert Reachable(b', s', |symbols|);
    forall q | 0 <= q < size ensures SlotOk(b'[q], s') {
      assert SlotOk(buckets[q], symbols);
    }
  }

  /** At most three quarters of a power-of-two bucket array are used, and it indexes the names. */
  ghost predicate Sound(buckets: seq<Slot>, symbols: seq<Bytes>) {
    && PowerOfTwo(|buckets|) && 4 * |symbols| <= 3 * |buckets|
    && Distinct(symbols) && Indexes(buckets, symbols)
  }

  /** The same, unless ids have run out: then the index lacks the name that got the invalid id. */
  ghost predicate SoundOrFull(buckets: seq<Slot>, symbols: seq<Bytes>) {
    if |symbols| <= INVALID then Sound(buckets, symbols) else Indexes(buckets, symbols[..INVALID])
  }

  /** A new name's slot goes where its probe ended; only an id that is the mark of a free bucket leaves it out. */
  lemma NewNameIsIndexed(buckets: seq<Slot>, symbols: seq<Bytes>, name: Bytes, idx: nat, d: nat)
    requires Sound(buckets, symbols) && 4 * (|symbols| + 1) <= 3 * |buckets|
    requires ProbeResult(buckets, symbols, name, idx, false, d)
    ensures SoundOrFull(buckets[idx := Slot(HashOf(name), |symbols|)], symbols + [name])
  {
    NewNameIsLast(symbols, name);
    if |symbols| < INVALID {
      InsertKeepsIndex(buckets, symbols, name, d);
    } else {
      FreeBucketKeepsIndex(buckets, symbols, idx, HashOf(name));
    }
  }

  // ---- Probing ----

  /** Where probing for a name ends: at its slot, or at a free bucket if the table lacks it. */
  ghost predicate ProbeResult(buckets: seq<Slot>, symbols: seq<Bytes>, name: Bytes, idx: nat, found: bool, d: nat) {
    && d < |buckets| && idx == Cyclic(Home(HashOf(name), |buckets|), d, |buckets|)
    && (found ==> buckets[idx].id < |symbols| && symbols[buckets[idx].id] == name)
    && (!found ==> name !in symbols && buckets[idx].id == INVALID
                   && OccupiedRun(buckets, Home(HashOf(name), |buckets|), d))
  }

  /** A slot that does not match the name. */
  ghost predicate Passed(slot: Slot, symbols: seq<Bytes>, name: Bytes) {
    slot.id < |symbols| && symbols[slot.id] != name
  }

  ghost predicate AllPassed(buckets: seq<Slot>, symbols: seq<Bytes>, name: Bytes, home: nat, d: nat)
    requires home < |buckets| && d <= |buckets|
  {
    forall e :: 0 <= e < d ==> Passed(buckets[Cyclic(home, e, |buckets|)], symbols, name)
  }

  /** A probe that reached a free bucket without a match has proved the name absent. */
  lemma FreeBucketMeansAbsent(buckets: seq<Slot>, symbols: seq<Bytes>, name: Bytes, d: nat)
    requires Indexes(buckets, symbols) && d < |buckets|
    requires AllPassed(buckets, symbols, name, Home(HashOf(name), |buckets|), d)
    requires buckets[Cyclic(Home(HashOf(name), |buckets|), d, |buckets|)].id == INVALID
    ensures name !in symbols && OccupiedRun(buckets, Home(HashOf(name), |buckets|), d)
  {
    var size := |buckets|;
    var home := Home(HashOf(name), size);
    forall e | 0 <= e < d ensures buckets[Cyclic(home, e, size)].id != INVALID {
      assert Passed(buckets[Cyclic(home, e, size)], symbols, name);
    }
    forall id: nat | id < |symbols| ensures symbols[id] != name {
      assert Reachable(buckets, symbols, id);
      var e :| 0 <= e < size && ReachedAt(buckets, Home(HashOf(symbols[id]), size), e, id);
      if symbols[id] == name {
        PassedAt(buckets, symbols, name, home, d, e);
        assert false;
      }
    }
  }

  lemma PassedAt(buckets: seq<Slot>, symbols: seq<Bytes>, name: Bytes, home: nat, d: nat, e: nat)
    requires home < |buckets| && d < |buckets| && e < |buckets|
    requires AllPassed(buckets, symbols, name, home, d)
    requires buckets[Cyclic(home, d, |buckets|)].id == INVALID
    requires OccupiedRun(buckets, home, e) && buckets[Cyclic(home, e, |buckets|)].id != INVALID
    ensures e < d && Passed(buckets[Cyclic(home, e, |buckets|)], symbols, name)
  {
  }

  /** The next bucket of a probe. */
  lemma NextBucket(home: nat, d: nat, size: nat)
    requires home < size && d + 1 < size
    ensures (Cyclic(home, d, size) + 1) % size == Cyclic(home, d + 1, size)
  {
    var p := Cyclic(home, d, size);
    if p + 1 < size {
      assert (p + 1) % size == p + 1;
    } else {
      assert (p + 1) % size == 0;
    }
  }

  lemma {:induction false} PowersDouble(a: nat, b: nat)
    requires PowerOfTwo(a) && PowerOfTwo(b) && a < b
    ensures 2 * a <= b
  {
    if a > 1 { PowersDouble(a / 2, b / 2); }
  }

  class IdentifierTable {
    var buckets: seq<Slot>
    var symbols: seq<Bytes>
    var hitCount: nat
    var missCount: nat

    function Contents(): View
      reads this
    {
      View(symbols, hitCount, missCount)
    }

    ghost predicate Valid()
      reads this
    {
      Sound(buckets, symbols)
    }

    constructor ()
      ensures Valid() && Contents() == View([], 0, 0)
    {
      buckets := seq(INITIAL_BUCKETS, _ => EMPTY);
      symbols, hitCount, missCount := [], 0, 0;
    }

    /** Linear probing; a free bucket exists, so it ends within one round. */
    method ProbeFor(name: Bytes, hash: nat) returns (idx: nat, found: bool, ghost d: nat)
      requires Indexes(buckets, symbols) && hash == HashOf(name)
      ensures ProbeResult(buckets, symbols, name, idx, found, d)
    {
      var size := |buckets|;
      ghost var home := Home(hash, size);
      ghost var stop := FreeDistance(home);
      d := 0;
      idx := hash % size;
      while true
        invariant d <= stop && idx == Cyclic(home, d, size)
        invariant AllPassed(buckets, symbols, name, home, d)
        decreases stop - d
      {
        var slot := buckets[idx];
        if slot.id == INVALID {
          FreeBucketMeansAbsent(buckets, symbols, name, d);
          return idx, false, d;
        }
        assert SlotOk(slot, symbols);
        if slot.hash == hash && symbols[slot.id] == name {
          return idx, true, d;
        }
        assert Passed(buckets[Cyclic(home, d, size)], symbols, name);
        assert d < stop;
        NextBucket(home, d, size);
        idx := (idx + 1) % size;
        d := d + 1;
      }
    }

    lemma FreeDistance(home: nat) returns (d: nat)
      requires Indexes(buckets, symbols) && home < |buckets|
      ensures d < |buckets| && buckets[Cyclic(home, d, |buckets|)].id == INVALID
    {
      FreeBucket(buckets, symbols);
      var p :| 0 <= p < |buckets| && buckets[p].id == INVALID;
      d := DistanceTo(home, p, |buckets|);
    }

    /** Doubles the buckets when one more name would exceed the load factor of 3/4. */
    method GrowIfNeeded()
      requires Valid()
      modifies this`buckets
      ensures Valid() && 4 * (|symbols| + 1) <= 3 * |buckets|
    {
      if 4 * (|symbols| + 1) > 3 * |buckets| {
        Rehash(|buckets| * 2);
      }
    }

    /** Rebuilds the index in the least power of two that is large enough. */
    method Rehash(newBucketCount: nat)
      requires |symbols| < newBucketCount && |symbols| <= INVALID && Distinct(symbols)
      modifies this`buckets
      ensures Indexes(buckets, symbols)
      ensures PowerOfTwo(|buckets|) && |buckets| >= newBucketCount
      ensures forall q: nat :: PowerOfTwo(q) && q >= newBucketCount ==> q >= |buckets|
    {
      var pow2 := 1;
      while pow2 < newBucketCount
        invariant PowerOfTwo(pow2)
        invariant forall q: nat :: PowerOfTwo(q) && q >= newBucketCount ==> q >= pow2
        decreases newBucketCount - pow2
      {
        forall q: nat | PowerOfTwo(q) && q >= newBucketCount ensures q >= pow2 * 2 {
          PowersDouble(pow2, q);
        }
        assert PowerOfTwo(pow2 * 2);
        pow2 := pow2 * 2;
      }
      var newBuckets := seq(pow2, _ => EMPTY);
      for id := 0 to |symbols|
        invariant |newBuckets| == pow2 && Indexes(newBuckets, symbols[..id])
      {
        newBuckets := Place(newBuckets, id);
        assert symbols[..id] + [symbols[id]] == symbols[..id + 1];
      }
      assert symbols[..|symbols|] == symbols;
      buckets := newBuckets;
    }

    /** Puts one more id into the first free bucket of its probe. */
    method Place(from: seq<Slot>, id: nat) returns (newBuckets: seq<Slot>)
      requires id < |symbols| <= INVALID && id + 1 < |from| && Indexes(from, symbols[..id])
      ensures |newBuckets| == |from| && Indexes(newBuckets, symbols[..id] + [symbols[id]])
    {
      var size := |from|;
      var h := HashOf(symbols[id]);
      ghost var home := Home(h, size);
      FreeBucket(from, symbols[..id]);
      ghost var p :| 0 <= p < size && from[p].id == INVALID;
      ghost var stop := DistanceTo(home, p, size);
      ghost var d := 0;
      var idx := h % size;
      while from[idx].id != INVALID
        invariant d <= stop && idx == Cyclic(home, d, size)
        invariant OccupiedRun(from, home, d)
        decreases stop - d
      {
        NextBucket(home, d, size);
        idx := (idx + 1) % size;
        d := d + 1;
      }
      InsertKeepsIndex(from, symbols[..id], symbols[id], d);
      newBuckets := from[idx := Slot(h, id)];
    }

    /**
      Returns the id of a name, adding it if it is new; ids are given out densely. A new name in a table
      of INVALID names gets the invalid id, so its bucket stays free and the index covers only the others.
     */
    method Intern(name: Bytes) returns (id: nat)
      requires Valid()
      modifies this
      ensures Contents() == Interned(old(Contents()), name)
      ensures id == IndexOf(symbols, name) && id < |symbols| && symbols[id] == name
      ensures SoundOrFull(buckets, symbols) && (|symbols| <= INVALID || id == INVALID)
    {
      GrowIfNeeded();
      var h := HashOf(name);
      var idx, found;
      ghost var d;
      idx, found, d := ProbeFor(name, h);
      if found {
        hitCount := hitCount + 1;
        FirstIndex(symbols, buckets[idx].id);
        return buckets[idx].id;
      }
      missCount := missCount + 1;
      id := |symbols|;
      NewNameIsIndexed(buckets, symbols, name, idx, d);
      NewNameIsLast(symbols, name);
      symbols := symbols + [name];
      buckets := buckets[idx := Slot(h, id)];
    }

    /** The id of a name, or the invalid id if the table lacks it. */
    method Find(name: Bytes) returns (id: nat)
      requires Valid()
      ensures id == Found(Contents(), name)
    {
      var idx, found;
      ghost var d;
      idx, found, d := ProbeFor(name, HashOf(name));
      if found {
        FirstIndex(symbols, buckets[idx].id);
        id := buckets[idx].id;
      } else {
        id := INVALID;
      }
    }

    method Lookup(id: nat) returns (name: Bytes)
      ensures name == if id < |symbols| then symbols[id] else []
    {
      if id >= |symbols| {
        return [];
      }
      return symbols[id];
    }

    method CurrentSnapshot() returns (s: Snapshot)
      ensures s == SnapshotOf(Contents())
    {
      s := Snapshot(|symbols|, hitCount, missCount);
    }

    /** Drops the names beyond the snapshot and rebuilds the index of the others. */
    method RestoreSnapshot(snap: Snapshot)
      requires Valid()
      modifies this
      ensures Valid() && |buckets| == old(|buckets|)
      ensures Contents() == Restored(old(Contents()), snap)
    {
      if snap.symbolCount > |symbols| {
        return;
      }
      symbols := symbols[..snap.symbolCount];
      hitCount := snap.hitCount;
      missCount := snap.missCount;
      buckets := seq(|buckets|, _ => EMPTY);
      Rehash(|buckets|);
    }

    method Reset()
      requires Valid()
      modifies this
      ensures Valid() && Contents() == View([], 0, 0) && |buckets| == INITIAL_BUCKETS
    {
      symbols := [];
      buckets := seq(|buckets|, _ => EMPTY);
      if |buckets| != INITIAL_BUCKETS {
        buckets := seq(INITIAL_BUCKETS, _ => EMPTY);
      }
      hitCount := 0;
      missCount := 0;
    }
  }
}
