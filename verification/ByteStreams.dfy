/** Byte buffers, little-endian integers and LEB128 (section 7.6 of the DWARF 5 standard). */
module ByteStreams {
  import opened Arithmetic
  import opened Options

  type Byte = x: int | 0 <= x < 256

  /** A byte vector that is appended to in place. */
  class ByteBuffer {
    var data: seq<Byte>

    constructor ()
      ensures data == []
    {
      data := [];
    }

    method PushBack(x: Byte)
      modifies this
      ensures data == old(data) + [x]
    {
      data := data + [x];
    }

    method Append(bytes: seq<Byte>)
      modifies this
      ensures data == old(data) + bytes
    {
      data := data + bytes;
    }
  }

  // ---- Fixed width ----

  function LE(value: nat, width: nat): (s: seq<Byte>)
    ensures |s| == width
  {
    if width == 0 then [] else [value % 256] + LE(value / 256, width - 1)
  }

  function FromLE(bytes: seq<Byte>): nat {
    if bytes == [] then 0 else bytes[0] + 256 * FromLE(bytes[1..])
  }

  function Pow256(width: nat): (p: nat)
    ensures p > 0
  {
    if width == 0 then 1 else 256 * Pow256(width - 1)
  }

  lemma WordWidths()
    ensures Pow256(2) == 0x1_0000 && Pow256(4) == 0x1_0000_0000
  {
    assert Pow256(1) == 256;
    assert Pow256(2) == 0x1_0000;
    assert Pow256(3) == 0x100_0000;
  }

  lemma {:induction false} FromLEOfLE(value: nat, width: nat)
    requires value < Pow256(width)
    ensures FromLE(LE(value, width)) == value
  {
    if width > 0 {
      FromLEOfLE(value / 256, width - 1);
      assert LE(value, width)[1..] == LE(value / 256, width - 1);
    }
  }

  lemma {:induction false} LEOfFromLE(bytes: seq<Byte>)
    ensures LE(FromLE(bytes), |bytes|) == bytes
  {
    if bytes != [] {
      var rest := FromLE(bytes[1..]);
      LEOfFromLE(bytes[1..]);
      QuotientAndRemainder(256, rest, bytes[0]);
      assert FromLE(bytes) == 256 * rest + bytes[0];
      assert [bytes[0]] + bytes[1..] == bytes;
    }
  }

  lemma {:induction false} FromLEIsRemainder(value: nat, width: nat)
    ensures FromLE(LE(value, width)) == value % Pow256(width)
  {
    if width == 0 {
      assert LE(value, 0) == [];
    } else {
      FromLEIsRemainder(value / 256, width - 1);
      assert LE(value, width)[1..] == LE(value / 256, width - 1);
      DigitAndRest(value, Pow256(width - 1));
    }
  }

  lemma DigitAndRest(value: nat, p: nat)
    requires p > 0
    ensures value % 256 + 256 * ((value / 256) % p) == value % (256 * p)
  {
    var q := value / 256;
    assert q == p * (q / p) + q % p;
    assert value == (256 * p) * (q / p) + (value % 256 + 256 * (q % p));
    QuotientAndRemainder(256 * p, q / p, value % 256 + 256 * (q % p));
  }

  /** (value >> 8 * i) for the i-th round of the loop. */
  function Shifted(value: nat, i: nat): nat {
    if i == 0 then value else Shifted(value, i - 1) / 256
  }

  lemma {:induction false} LESplit(value: nat, i: nat, width: nat)
    ensures LE(value, i) + LE(Shifted(value, i), width) == LE(value, i + width)
  {
    if i > 0 {
      LESplit(value, i - 1, width + 1);
      LESplit(value, i - 1, 1);
      assert LE(Shifted(value, i - 1), width + 1) == [Shifted(value, i - 1) % 256] + LE(Shifted(value, i), width);
      assert LE(Shifted(value, i - 1), 1) == [Shifted(value, i - 1) % 256];
    } else {
      assert LE(value, 0) == [];
    }
  }

  method WriteLE(out: ByteBuffer, value: nat, width: nat)
    modifies out
    ensures out.data == old(out.data) + LE(value, width)
  {
    var shifted := value;
    for i := 0 to width
      invariant shifted == Shifted(value, i)
      invariant out.data == old(out.data) + LE(value, i)
    {
      out.PushBack(shifted % 256);
      LESplit(value, i, 1);
      assert LE(shifted, 1) == [shifted % 256];
      shifted := shifted / 256;
    }
  }

  /** Overwrites four bytes in place. */
  method Patch32(out: ByteBuffer, offset: nat, value: nat)
    requires offset + 4 <= |out.data|
    modifies out
    ensures out.data == old(out.data)[..offset] + LE(value, 4) + old(out.data)[offset + 4..]
  {
    var shifted := value;
    ghost var start := out.data;
    for i := 0 to 4
      invariant shifted == Shifted(value, i)
      invariant out.data == start[..offset] + LE(value, i) + start[offset + i..]
    {
      PatchesOne(start, offset, i, LE(value, i), shifted % 256);
      LESplit(value, i, 1);
      assert LE(shifted, 1) == [shifted % 256];
      out.data := out.data[offset + i := shifted % 256];
      shifted := shifted / 256;
    }
  }

  lemma PatchesOne(start: seq<Byte>, offset: nat, i: nat, low: seq<Byte>, x: Byte)
    requires |low| == i && offset + i < |start|
    ensures (start[..offset] + low + start[offset + i..])[offset + i := x]
            == start[..offset] + (low + [x]) + start[offset + i + 1..]
  {
  }

  // ---- Unsigned LEB128 ----

  function ULEB(value: nat): (s: seq<Byte>)
    ensures |s| > 0
  {
    if value / 128 == 0 then [value % 128] else [value % 128 + 128] + ULEB(value / 128)
  }

  /** The value in front of the input and the number of bytes it takes. */
  function ReadULEB(bytes: seq<Byte>): (r: Option<(nat, nat)>)
    ensures r.Some? ==> 0 < r.value.1 <= |bytes|
  {
    if bytes == [] then None
    else if bytes[0] < 128 then Some((bytes[0], 1))
    else
      match ReadULEB(bytes[1..])
      case None => None
      case Some((v, n)) => Some((bytes[0] - 128 + 128 * v, n + 1))
  }

  lemma {:induction false} ReadsULEB(value: nat, rest: seq<Byte>)
    ensures ReadULEB(ULEB(value) + rest) == Some((value, |ULEB(value)|))
  {
    if value / 128 > 0 {
      ReadsULEB(value / 128, rest);
      assert (ULEB(value) + rest)[1..] == ULEB(value / 128) + rest;
    }
  }

  method WriteULEB128(out: ByteBuffer, value: nat)
    modifies out
    ensures out.data == old(out.data) + ULEB(value)
  {
    var v := value;
    var more := true;
    while more
      invariant more ==> out.data + ULEB(v) == old(out.data) + ULEB(value)
      invariant !more ==> out.data == old(out.data) + ULEB(value)
      decreases more, v
    {
      ghost var before, low := out.data, v;
      var byte := v % 128;
      v := v / 128;
      if v != 0 {
        byte := byte + 128;
      }
      out.PushBack(byte);
      assert before + ULEB(low) == out.data + if v != 0 then ULEB(v) else [];
      more := v != 0;
    }
  }

  // ---- Signed LEB128 ----

  function SLEB(value: int): (s: seq<Byte>)
    ensures |s| > 0
    decreases if value < 0 then -value - 1 else value
  {
    var low, high := value % 128, value / 128;
    if (high == 0 && low < 64) || (high == -1 && low >= 64) then [low] else [low + 128] + SLEB(high)
  }

  function ReadSLEB(bytes: seq<Byte>): (r: Option<(int, nat)>)
    ensures r.Some? ==> 0 < r.value.1 <= |bytes|
  {
    if bytes == [] then None
    else
      var low: int := bytes[0];
      if low < 64 then Some((low, 1))
      else if low < 128 then Some((low - 128, 1))
      else
        match ReadSLEB(bytes[1..])
        case None => None
        case Some((v, n)) => Some((low - 128 + 128 * v, n + 1))
  }

  lemma {:induction false} ReadsSLEB(value: int, rest: seq<Byte>)
    ensures ReadSLEB(SLEB(value) + rest) == Some((value, |SLEB(value)|))
    decreases if value < 0 then -value - 1 else value
  {
    var low, high := value % 128, value / 128;
    if !((high == 0 && low < 64) || (high == -1 && low >= 64)) {
      ReadsSLEB(high, rest);
      assert (SLEB(value) + rest)[1..] == SLEB(high) + rest;
    }
  }

  method WriteSLEB128(out: ByteBuffer, value: int)
    modifies out
    ensures out.data == old(out.data) + SLEB(value)
  {
    var v := value;
    var more := true;
    while more
      invariant more ==> out.data + SLEB(v) == old(out.data) + SLEB(value)
      invariant !more ==> out.data == old(out.data) + SLEB(value)
      decreases more, if v < 0 then -v - 1 else v
    {
      ghost var before, whole := out.data, SLEB(v);
      var byte := v % 128;
      v := v / 128;
      if (v == 0 && byte < 64) || (v == -1 && byte >= 64) {
        more := false;
      } else {
        byte := byte + 128;
      }
      out.PushBack(byte);
      assert before + whole == out.data + if more then SLEB(v) else [];
    }
  }

  // ---- Strings that end with a zero byte ----

  /** The string in front of the bytes and the bytes after its end. */
  function ReadString(bytes: seq<Byte>): Option<(seq<Byte>, seq<Byte>)> {
    if bytes == [] then None
    else if bytes[0] == 0 then Some(([], bytes[1..]))
    else
      match ReadString(bytes[1..])
      case None => None
      case Some((s, rest)) => Some(([bytes[0]] + s, rest))
  }

  lemma {:induction false} ReadsString(s: seq<Byte>, rest: seq<Byte>)
    requires 0 !in s
    ensures ReadString(s + [0] + rest) == Some((s, rest))
  {
    if s == [] {
      assert s + [0] + rest == [0] + rest;
    } else {
      ReadsString(s[1..], rest);
      assert (s + [0] + rest)[1..] == s[1..] + [0] + rest;
      assert [s[0]] + s[1..] == s;
    }
  }

  /** What follows the end does not matter. */
  lemma {:induction false} ReadStringIgnoresTheRest(bytes: seq<Byte>, more: seq<Byte>)
    requires ReadString(bytes).Some?
    ensures ReadString(bytes + more).Some? && ReadString(bytes + more).value.0 == ReadString(bytes).value.0
  {
    if bytes[0] != 0 {
      ReadStringIgnoresTheRest(bytes[1..], more);
      assert (bytes + more)[1..] == bytes[1..] + more;
    }
  }

  // ---- Fields padded with zero bytes ----

  function UpToNul(bytes: seq<Byte>): seq<Byte> {
    if bytes == [] || bytes[0] == 0 then [] else [bytes[0]] + UpToNul(bytes[1..])
  }

  function Zeros(n: nat): (s: seq<Byte>)
    ensures |s| == n && forall i: nat :: i < n ==> s[i] == 0
  {
    seq(n, _ => 0)
  }

  lemma {:induction false} UpToNulOfPadded(s: seq<Byte>, n: nat)
    requires 0 !in s
    ensures UpToNul(s + Zeros(n)) == s
  {
    if s != [] {
      UpToNulOfPadded(s[1..], n);
      assert (s + Zeros(n))[1..] == s[1..] + Zeros(n);
    } else if n > 0 {
      assert (s + Zeros(n))[0] == 0;
    }
  }

  // ---- Concatenation ----

  lemma Associates(a: seq<Byte>, b: seq<Byte>, c: seq<Byte>)
    ensures a + b + c == a + (b + c)
  {
  }

  lemma AssociatesFour(a: seq<Byte>, b: seq<Byte>, c: seq<Byte>, d: seq<Byte>, e: seq<Byte>)
    ensures a + b + c + d + e == a + (b + c + d + e)
  {
  }

  lemma AssociatesThree(a: seq<Byte>, b: seq<Byte>, c: seq<Byte>, d: seq<Byte>)
    ensures a + b + c + d == a + (b + (c + d))
  {
  }

  lemma WithoutFirst(x: Byte, a: seq<Byte>, b: seq<Byte>, c: seq<Byte>, d: seq<Byte>)
    ensures ([x] + a + (b + c) + d)[1..] == a + (b + (c + d))
  {
  }

  lemma Slices(a: seq<Byte>, b: seq<Byte>, c: seq<Byte>, d: seq<Byte>, e: seq<Byte>)
    requires |a| == |b| == |c| == 4
    ensures var s := a + b + c + d + e;
            && s[..4] == a && s[4..8] == b && s[8..12] == c && s[12..12 + |d|] == d && s[12 + |d|..] == e
  {
  }
}
