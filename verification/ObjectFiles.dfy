/** What the object file writers are given, and tables of variable-size parts. */
module ObjectFiles {
  import opened ByteStreams

  type Bytes = seq<Byte>

  datatype Relocation = Relocation(offset: nat, symbol: Bytes, kind: int)

  datatype Section = Section(name: Bytes, data: Bytes, relocations: seq<Relocation>)

  datatype Symbol = Symbol(name: Bytes, section: Bytes, offset: nat, isGlobal: bool, isFunction: bool)

  /** The bytes of a text of ASCII characters. */
  function Text(s: string): (b: Bytes)
    ensures |b| == |s| && forall i: nat :: i < |s| ==> b[i] == s[i] as int % 256
  {
    seq(|s|, i requires 0 <= i < |s| => s[i] as int % 256)
  }

  // ---- Parts laid out one after the other ----

  function Concat(parts: seq<Bytes>): Bytes {
    if parts == [] then [] else Concat(parts[..|parts| - 1]) + parts[|parts| - 1]
  }

  /** Where part i begins. */
  function Offset(parts: seq<Bytes>, i: nat): nat
    requires i <= |parts|
  {
    |Concat(parts[..i])|
  }

  lemma ConcatAppend(parts: seq<Bytes>, part: Bytes)
    ensures Concat(parts + [part]) == Concat(parts) + part
  {
    assert (parts + [part])[..|parts|] == parts;
  }

  lemma NextOffset(parts: seq<Bytes>, i: nat)
    requires i < |parts|
    ensures Concat(parts[..i + 1]) == Concat(parts[..i]) + parts[i]
    ensures Offset(parts, i + 1) == Offset(parts, i) + |parts[i]|
  {
    assert parts[..i + 1] == parts[..i] + [parts[i]];
    ConcatAppend(parts[..i], parts[i]);
  }

  lemma {:induction false} PartAt(parts: seq<Bytes>, i: nat)
    requires i < |parts|
    ensures Offset(parts, i) + |parts[i]| <= |Concat(parts)|
    ensures Concat(parts)[Offset(parts, i)..Offset(parts, i) + |parts[i]|] == parts[i]
    decreases |parts|
  {
    var n := |parts| - 1;
    if i < n {
      PartAt(parts[..n], i);
      assert parts[..n][..i] == parts[..i];
      SliceOfFront(Concat(parts[..n]), parts[n], Offset(parts, i), |parts[i]|);
    } else {
      assert parts[..n] == parts[..i];
    }
  }

  lemma SliceOfFront(front: Bytes, back: Bytes, at: nat, n: nat)
    requires at + n <= |front|
    ensures (front + back)[at..at + n] == front[at..at + n]
  {
  }

  lemma SliceOfSlice(s: Bytes, at: nat, n: nat, from: nat, k: nat)
    requires at + n <= |s| && from + k <= n
    ensures s[at..at + n][from..from + k] == s[at + from..at + from + k]
  {
    var part := s[at..at + n];
    var a, b := part[from..from + k], s[at + from..at + from + k];
    assert |a| == |b| == k;
    forall i: nat | i < k ensures a[i] == b[i] {
      assert a[i] == part[from + i] == s[at + from + i] == b[i];
    }
  }

  predicate AllOfSize(parts: seq<Bytes>, size: nat) {
    forall i: nat :: i < |parts| ==> |parts[i]| == size
  }

  lemma {:induction false} UniformOffset(parts: seq<Bytes>, size: nat, i: nat)
    requires i <= |parts| && AllOfSize(parts, size)
    ensures Offset(parts, i) == size * i
  {
    if i > 0 {
      NextOffset(parts, i - 1);
      UniformOffset(parts, size, i - 1);
      assert size * i == size * (i - 1) + size;
    }
  }

  lemma UniformSize(parts: seq<Bytes>, size: nat)
    requires AllOfSize(parts, size)
    ensures |Concat(parts)| == size * |parts|
  {
    UniformOffset(parts, size, |parts|);
    assert parts[..|parts|] == parts;
  }

  /** Cuts bytes into records of one size. */
  function Split(bytes: Bytes, size: nat, count: nat): (parts: seq<Bytes>)
    requires |bytes| == size * count
    ensures |parts| == count && AllOfSize(parts, size)
    decreases count
  {
    if count == 0 then []
    else
      assert size * count == size * (count - 1) + size;
      Split(bytes[..|bytes| - size], size, count - 1) + [bytes[|bytes| - size..]]
  }

  lemma {:induction false} SplitsConcat(parts: seq<Bytes>, size: nat)
    requires AllOfSize(parts, size)
    ensures |Concat(parts)| == size * |parts| && Split(Concat(parts), size, |parts|) == parts
  {
    UniformSize(parts, size);
    if parts != [] {
      var front, last := parts[..|parts| - 1], parts[|parts| - 1];
      assert AllOfSize(front, size);
      SplitsConcat(front, size);
      assert (Concat(front) + last)[..|Concat(front)|] == Concat(front);
      assert (Concat(front) + last)[|Concat(front)|..] == last;
      assert front + [last] == parts;
    }
  }
}
