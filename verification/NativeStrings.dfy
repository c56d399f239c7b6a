/** Decoding of string literals for native C-string interfaces, in the Go dialect and the other one. */
module NativeStrings {
  import opened ByteStreams
  import opened Options

  type Bytes = seq<Byte>

  const NUL: Byte := 0
  const CARRIAGE_RETURN: Byte := 13
  const BACKSLASH: Byte := 92

  // ---- UTF-8 (section 3 of RFC 3629) ----

  predicate IsScalar(v: nat) {
    v <= 0x10ffff && !(0xd800 <= v <= 0xdfff)
  }

  function Utf8(v: nat): (s: Bytes)
    requires IsScalar(v)
    ensures 1 <= |s| <= 4 && (0 in s <==> v == 0)
  {
    if v <= 0x7f then [v]
    else if v <= 0x7ff then [0xc0 + v / 64, 0x80 + v % 64]
    else if v <= 0xffff then [0xe0 + v / 4096, 0x80 + v / 64 % 64, 0x80 + v % 64]
    else [0xf0 + v / 262144, 0x80 + v / 4096 % 64, 0x80 + v / 64 % 64, 0x80 + v % 64]
  }

  predicate IsTail(b: Byte) {
    0x80 <= b <= 0xbf
  }

  /** The six bits of a trailing octet. */
  function Low(b: Byte): nat
    requires IsTail(b)
  {
    b - 0x80
  }

  /** The scalar value in front of the bytes and the number of octets it takes; overlong forms, surrogates and values
      above 10FFFF are refused. */
  function ReadUtf8(s: Bytes): Option<(nat, nat)> {
    if s == [] then None
    else
      var lead: int := s[0];
      if lead <= 0x7f then Some((lead, 1))
      else if 0xc2 <= lead <= 0xdf && |s| >= 2 && IsTail(s[1]) then Some((64 * (lead - 0xc0) + Low(s[1]), 2))
      else if 0xe0 <= lead <= 0xef && |s| >= 3 && IsTail(s[1]) && IsTail(s[2]) then
        var v := 4096 * (lead - 0xe0) + 64 * Low(s[1]) + Low(s[2]);
        if v >= 0x800 && IsScalar(v) then Some((v, 3)) else None
      else if 0xf0 <= lead <= 0xf4 && |s| >= 4 && IsTail(s[1]) && IsTail(s[2]) && IsTail(s[3]) then
        var v := 262144 * (lead - 0xf0) + 4096 * Low(s[1]) + 64 * Low(s[2]) + Low(s[3]);
        if v >= 0x10000 && IsScalar(v) then Some((v, 4)) else None
      else None
  }

  lemma SixBitGroups(v: nat)
    ensures v == 64 * (v / 64) + v % 64
    ensures v / 64 == 64 * (v / 4096) + v / 64 % 64
    ensures v / 4096 == 64 * (v / 262144) + v / 4096 % 64
  {
  }

  lemma ReadsTwoOctets(s: Bytes, a: nat, b: nat)
    requires |s| >= 2 && 2 <= a < 32 && b < 64 && s[0] == 0xc0 + a && s[1] == 0x80 + b
    ensures ReadUtf8(s) == Some((64 * a + b, 2))
  {
  }

  lemma ReadsThreeOctets(s: Bytes, a: nat, b: nat, c: nat)
    requires |s| >= 3 && a < 16 && b < 64 && c < 64
    requires s[0] == 0xe0 + a && s[1] == 0x80 + b && s[2] == 0x80 + c
    requires 4096 * a + 64 * b + c >= 0x800 && IsScalar(4096 * a + 64 * b + c)
    ensures ReadUtf8(s) == Some((4096 * a + 64 * b + c, 3))
  {
  }

  lemma ReadsFourOctets(s: Bytes, a: nat, b: nat, c: nat, d: nat)
    requires |s| >= 4 && a < 5 && b < 64 && c < 64 && d < 64
    requires s[0] == 0xf0 + a && s[1] == 0x80 + b && s[2] == 0x80 + c && s[3] == 0x80 + d
    requires 262144 * a + 4096 * b + 64 * c + d >= 0x10000 && IsScalar(262144 * a + 4096 * b + 64 * c + d)
    ensures ReadUtf8(s) == Some((262144 * a + 4096 * b + 64 * c + d, 4))
  {
  }

  lemma ReadsUtf8(v: nat, rest: Bytes)
    requires IsScalar(v)
    ensures ReadUtf8(Utf8(v) + rest) == Some((v, |Utf8(v)|))
  {
    var s := Utf8(v) + rest;
    assert s[..|Utf8(v)|] == Utf8(v);
    SixBitGroups(v);
    if v > 0xffff {
      ReadsFourOctets(s, v / 262144, v / 4096 % 64, v / 64 % 64, v % 64);
    } else if v > 0x7ff {
      ReadsThreeOctets(s, v / 4096, v / 64 % 64, v % 64);
    } else if v > 0x7f {
      ReadsTwoOctets(s, v / 64, v % 64);
    }
  }

  // ---- What the literal says ----

  /** The value of a hexadecimal digit, or -1. */
  function Digit(c: Byte): int {
    if 48 <= c <= 57 then c - 48
    else if 97 <= c <= 102 then c - 97 + 10
    else if 65 <= c <= 70 then c - 65 + 10
    else -1
  }

  /** The bytes that stand for what is in front, and the place behind it. */
  datatype Step = Good(bytes: Bytes, next: nat) | Bad(error: string)

  /** The value of `count` hexadecimal digits from i on. */
  function HexValue(body: Bytes, i: nat, count: nat): (v: Option<nat>)
    ensures v.Some? ==> i + count <= |body|
  {
    if count == 0 then (if i <= |body| then Some(0) else None)
    else
      match HexValue(body, i, count - 1)
      case None => None
      case Some(v) =>
        var at := i + count - 1;
        if at < |body| && Digit(body[at]) >= 0 then Some(16 * v + Digit(body[at])) else None
  }

  function UnicodeEscape(body: Bytes, i: nat, count: nat): Step {
    match HexValue(body, i, count)
    case None => Bad("invalid Unicode string escape")
    case Some(v) => if IsScalar(v) then Good(Utf8(v), i + count) else Bad("invalid Unicode scalar")
  }

  /** Further digits of a byte escape, from i on; its value and the place behind it. */
  function MoreDigits(body: Bytes, i: nat, value: nat, left: nat, radix: nat): (r: Option<(nat, nat)>)
    requires radix in {8, 16}
    ensures r.Some? ==> i <= r.value.1 && (i <= |body| ==> r.value.1 <= |body|) && r.value.1 <= i + left
    ensures r.Some? && value <= 255 ==> r.value.0 <= 255
    decreases left
  {
    if left > 0 && i < |body| && 0 <= Digit(body[i]) < radix then
      if value > 255 / radix then None
      else MoreDigits(body, i + 1, value * radix + Digit(body[i]), left - 1, radix)
    else Some((value, i))
  }

  function ByteEscape(body: Bytes, i: nat, go: bool): Step
    requires i < |body|
  {
    var c := body[i];
    var hex := c == 120;
    if !hex && !(48 <= c <= 55) then Bad("unsupported string escape")
    else
      var value, first, radix := if hex then 0 else c - 48, if hex then 0 else 1, if hex then 16 else 8;
      var limit := if hex then (if go then 2 else |body|) else 3;
      match MoreDigits(body, i + 1, value, limit - first, radix)
      case None => Bad("string byte escape exceeds 255")
      case Some((v, next)) =>
        var count := first + (next - (i + 1));
        if (hex && count == 0) || (go && count != (if hex then 2 else 3)) || v > 255
        then Bad("invalid byte string escape")
        else Good([v], next)
  }

  /** The escape whose letter is at i. */
  function Escape(body: Bytes, i: nat, go: bool): Step
    requires i < |body|
  {
    var c := body[i];
    if c == 110 then Good([10], i + 1)
    else if c == 114 then Good([13], i + 1)
    else if c == 116 then Good([9], i + 1)
    else if c == 97 then Good([7], i + 1)
    else if c == 98 then Good([8], i + 1)
    else if c == 102 then Good([12], i + 1)
    else if c == 118 then Good([11], i + 1)
    else if c == BACKSLASH || c == 34 then Good([c], i + 1)
    else if c == 39 || c == 63 then (if go then Bad("unsupported Go string escape") else Good([c], i + 1))
    else if c == 117 || c == 85 then UnicodeEscape(body, i + 1, if c == 117 then 4 else 8)
    else ByteEscape(body, i, go)
  }

  function StepAt(body: Bytes, i: nat, raw: bool, go: bool): (s: Step)
    requires i < |body|
    ensures s.Good? ==> i < s.next <= |body| && |s.bytes| <= s.next - i
  {
    if raw || body[i] != BACKSLASH then Good(if go && raw && body[i] == CARRIAGE_RETURN then [] else [body[i]], i + 1)
    else if i + 1 == |body| then Bad("unfinished string escape")
    else Escape(body, i + 1, go)
  }

  function DecodeFrom(body: Bytes, i: nat, raw: bool, go: bool): Result<Bytes>
    requires i <= |body|
    decreases |body| - i
  {
    if i == |body| then Ok([])
    else
      match StepAt(body, i, raw, go)
      case Bad(error) => Err(error)
      case Good(bytes, next) => Prepend(bytes, DecodeFrom(body, next, raw, go))
  }

  function Prepend(bytes: Bytes, r: Result<Bytes>): Result<Bytes> {
    match r
    case Err(error) => Err(error)
    case Ok(rest) => Ok(bytes + rest)
  }

  function Decoded(body: Bytes, raw: bool, go: bool): Result<Bytes> {
    match DecodeFrom(body, 0, raw, go)
    case Err(error) => Err(error)
    case Ok(out) => if NUL in out then Err("native string APIs do not accept embedded NUL bytes") else Ok(out)
  }

  // ---- The decoder ----

  method ReadUnicodeEscape(body: Bytes, start: nat, count: nat) returns (step: Step)
    requires start <= |body| && count <= 8
    ensures step == UnicodeEscape(body, start, count)
  {
    var i, value := start, 0;
    for n := 0 to count
      invariant i == start + n && HexValue(body, start, n) == Some(value)
    {
      if i == |body| || Digit(body[i]) < 0 {
        NoHexValue(body, start, n, count);
        return Bad("invalid Unicode string escape");
      }
      value := 16 * value + Digit(body[i]);
      i := i + 1;
    }
    if !IsScalar(value) {
      return Bad("invalid Unicode scalar");
    }
    return Good(Utf8(value), i);
  }

  lemma {:induction false} NoHexValue(body: Bytes, i: nat, n: nat, count: nat)
    requires n < count && HexValue(body, i, n + 1) == None
    ensures HexValue(body, i, count) == None
  {
    if n + 1 < count {
      NoHexValue(body, i, n, count - 1);
    }
  }

  method ReadByteEscape(body: Bytes, start: nat, go: bool) returns (step: Step)
    requires start < |body|
    ensures step == ByteEscape(body, start, go)
  {
    var c := body[start];
    var hex := c == 120;
    if !hex && (c < 48 || c > 55) {
      return Bad("unsupported string escape");
    }
    var radix := if hex then 16 else 8;
    var value: nat, count: nat := if hex then 0 else c - 48, if hex then 0 else 1;
    var limit := if hex then (if go then 2 else |body|) else 3;
    var i := start;
    ghost var all := MoreDigits(body, start + 1, value, limit - count, radix);
    while count < limit && i + 1 < |body|
      invariant start <= i < |body| && count <= limit && count == (if hex then 0 else 1) + (i - start)
      invariant MoreDigits(body, i + 1, value, limit - count, radix) == all
      decreases limit - count
    {
      var d := Digit(body[i + 1]);
      if d < 0 || d >= radix {
        break;
      }
      if value > 255 / radix {
        return Bad("string byte escape exceeds 255");
      }
      value := value * radix + d;
      i, count := i + 1, count + 1;
    }
    if (hex && count == 0) || (go && count != (if hex then 2 else 3)) || value > 255 {
      return Bad("invalid byte string escape");
    }
    return Good([value], i + 1);
  }

  /** The escapes of one letter, and the ones no dialect or only the other one knows. */
  method ReadLetterEscape(body: Bytes, start: nat, go: bool) returns (step: Step)
    requires start < |body| && body[start] != 117 && body[start] != 85
    ensures step == Escape(body, start, go)
  {
    var c := body[start];
    var next := start + 1;
    if c == 110 {
      return Good([10], next);
    } else if c == 114 {
      return Good([13], next);
    } else if c == 116 {
      return Good([9], next);
    } else if c == 97 {
      return Good([7], next);
    } else if c == 98 {
      return Good([8], next);
    } else if c == 102 {
      return Good([12], next);
    } else if c == 118 {
      return Good([11], next);
    } else if c == BACKSLASH || c == 34 {
      return Good([c], next);
    } else if c == 39 || c == 63 {
      if go {
        return Bad("unsupported Go string escape");
      }
      return Good([c], next);
    }
    step := ReadByteEscape(body, start, go);
  }

  /** What is at i: a byte, or an escape. */
  method ReadStep(body: Bytes, i: nat, raw: bool, go: bool) returns (step: Step)
    requires i < |body|
    ensures step == StepAt(body, i, raw, go)
  {
    var c := body[i];
    if raw || c != BACKSLASH {
      return Good(if go && raw && c == CARRIAGE_RETURN then [] else [c], i + 1);
    }
    if i + 1 == |body| {
      return Bad("unfinished string escape");
    }
    c := body[i + 1];
    if c == 117 || c == 85 {
      step := ReadUnicodeEscape(body, i + 2, if c == 117 then 4 else 8);
    } else {
      step := ReadLetterEscape(body, i + 1, go);
    }
  }

  method DecodeNativeString(body: Bytes, raw: bool, go: bool) returns (r: Result<Bytes>)
    ensures r == Decoded(body, raw, go)
  {
    var out: Bytes, i := [], 0;
    PrependNothing(DecodeFrom(body, 0, raw, go));
    while i < |body|
      invariant i <= |body|
      invariant DecodeFrom(body, 0, raw, go) == Prepend(out, DecodeFrom(body, i, raw, go))
      decreases |body| - i
    {
      var step := ReadStep(body, i, raw, go);
      match step
      case Bad(error) => return Err(error);
      case Good(bytes, next) =>
        PrependTwice(out, bytes, DecodeFrom(body, next, raw, go));
        out, i := out + bytes, next;
    }
    assert out + [] == out;
    if NUL in out {
      return Err("native string APIs do not accept embedded NUL bytes");
    }
    return Ok(out);
  }

  lemma PrependNothing(r: Result<Bytes>)
    ensures Prepend([], r) == r
  {
    if r.Ok? {
      assert [] + r.value == r.value;
    }
  }

  lemma PrependTwice(a: Bytes, b: Bytes, r: Result<Bytes>)
    ensures Prepend(a, Prepend(b, r)) == Prepend(a + b, r)
  {
    if r.Ok? {
      assert a + (b + r.value) == a + b + r.value;
    }
  }

  // ---- What a successful decoding guarantees ----

  lemma {:induction false} DecodeFromIsNoLonger(body: Bytes, i: nat, raw: bool, go: bool)
    requires i <= |body|
    ensures var r := DecodeFrom(body, i, raw, go); r.Ok? ==> |r.value| <= |body| - i
    decreases |body| - i
  {
    if i < |body| {
      var s := StepAt(body, i, raw, go);
      if s.Good? {
        DecodeFromIsNoLonger(body, s.next, raw, go);
      }
    }
  }

  lemma DecodedIsShortAndNulFree(body: Bytes, raw: bool, go: bool)
    requires Decoded(body, raw, go).Ok?
    ensures |Decoded(body, raw, go).value| <= |body| && NUL !in Decoded(body, raw, go).value
  {
    DecodeFromIsNoLonger(body, 0, raw, go);
  }

  // ---- Three-digit octal escapes can express every string ----

  function OctalEscape(b: Byte): Bytes {
    [BACKSLASH, 48 + b / 64, 48 + b / 8 % 8, 48 + b % 8]
  }

  function EscapeAll(s: Bytes): (body: Bytes)
    ensures |body| == 4 * |s|
  {
    if s == [] then [] else OctalEscape(s[0]) + EscapeAll(s[1..])
  }

  lemma OctalDigits(b: Byte)
    ensures b / 64 < 4 && b == (b / 64 * 8 + b / 8 % 8) * 8 + b % 8
  {
  }

  lemma ReadsTwoDigits(body: Bytes, i: nat, d0: nat, d1: nat, d2: nat)
    requires i + 2 <= |body| && d0 < 4 && d1 < 8 && d2 < 8
    requires Digit(body[i]) == d1 && Digit(body[i + 1]) == d2
    ensures MoreDigits(body, i, d0, 2, 8) == Some(((d0 * 8 + d1) * 8 + d2, i + 2))
  {
    var v := (d0 * 8 + d1) * 8 + d2;
    assert MoreDigits(body, i + 2, v, 0, 8) == Some((v, i + 2));
    assert MoreDigits(body, i + 1, d0 * 8 + d1, 1, 8) == Some((v, i + 2));
  }

  lemma OctalStep(body: Bytes, i: nat, b: Byte, go: bool)
    requires i + 4 <= |body| && body[i..i + 4] == OctalEscape(b)
    ensures StepAt(body, i, false, go) == Good([b], i + 4)
  {
    var e := OctalEscape(b);
    assert body[i] == e[0] && body[i + 1] == e[1] && body[i + 2] == e[2] && body[i + 3] == e[3];
    OctalDigits(b);
    ReadsTwoDigits(body, i + 2, b / 64, b / 8 % 8, b % 8);
    assert ByteEscape(body, i + 1, go) == Good([b], i + 4);
  }

  lemma {:induction false} DecodesEscaped(front: Bytes, s: Bytes, go: bool)
    ensures DecodeFrom(front + EscapeAll(s), |front|, false, go) == Ok(s)
    decreases |s|
  {
    var body := front + EscapeAll(s);
    if s != [] {
      var longer := front + OctalEscape(s[0]);
      assert body == longer + EscapeAll(s[1..]);
      assert body[|front|..|front| + 4] == OctalEscape(s[0]);
      OctalStep(body, |front|, s[0], go);
      DecodesEscaped(longer, s[1..], go);
      assert [s[0]] + s[1..] == s;
    }
  }

  /** Decoding undoes the octal escaper exactly on the strings without a zero byte, in both dialects. */
  lemma OctalRoundTrip(s: Bytes, go: bool)
    ensures Decoded(EscapeAll(s), false, go) == Ok(s) <==> NUL !in s
  {
    DecodesEscaped([], s, go);
    assert [] + EscapeAll(s) == EscapeAll(s);
  }

  // ---- Hexadecimal byte escapes ----

  function HexDigit(d: nat): Byte
    requires d < 16
  {
    if d < 10 then 48 + d else 97 + d - 10
  }

  /** The n hexadecimal digits from i on, and no further one. */
  predicate IsRun(body: Bytes, i: nat, n: nat) {
    HexValue(body, i, n).Some? && (i + n == |body| || Digit(body[i + n]) < 0)
  }

  lemma {:induction false} ValueGrows(body: Bytes, i: nat, m: nat, n: nat)
    requires m < n && HexValue(body, i, n).Some?
    ensures HexValue(body, i, m).Some? && HexValue(body, i, n).value >= 16 * HexValue(body, i, m).value
    ensures i + m < |body| && Digit(body[i + m]) >= 0
    decreases n
  {
    if m < n - 1 { ValueGrows(body, i, m, n - 1); }
  }

  /** Reading on after m of n digits gives the value of all of them, or nothing once it exceeds 255. */
  lemma {:induction false} ReadsRun(body: Bytes, i: nat, m: nat, n: nat, left: nat)
    requires m <= n <= m + left && HexValue(body, i, n).Some?
    requires left == n - m || i + n == |body| || Digit(body[i + n]) < 0
    requires HexValue(body, i, m).Some? && HexValue(body, i, m).value <= 255
    ensures MoreDigits(body, i + m, HexValue(body, i, m).value, left, 16)
            == if HexValue(body, i, n).value <= 255 then Some((HexValue(body, i, n).value, i + n)) else None
    decreases n - m
  {
    if m < n {
      var v := HexValue(body, i, m).value;
      ValueGrows(body, i, m, n);
      assert HexValue(body, i, m + 1) == Some(16 * v + Digit(body[i + m]));
      if v <= 15 { ReadsRun(body, i, m + 1, n, left - 1); }
    }
  }

  predicate IsHexEscape(body: Bytes, i: nat) {
    i + 1 < |body| && body[i] == BACKSLASH && body[i + 1] == 120
  }

  /** Outside Go an escape takes all digits there are: one byte for a value up to 255, refused beyond. */
  lemma HexRunIsOneByte(body: Bytes, i: nat, n: nat)
    requires IsHexEscape(body, i) && IsRun(body, i + 2, n)
    ensures var v := HexValue(body, i + 2, n).value;
            StepAt(body, i, false, false)
            == if n == 0 then Bad("invalid byte string escape")
               else if v <= 255 then Good([v], i + 2 + n) else Bad("string byte escape exceeds 255")
  {
    assert HexValue(body, i + 2, 0) == Some(0);
    ReadsRun(body, i + 2, 0, n, |body|);
  }

  /** In Go an escape takes two digits, whatever follows. */
  lemma GoHexIsTwoDigits(body: Bytes, i: nat)
    requires IsHexEscape(body, i)
    ensures var v := HexValue(body, i + 2, 2);
            StepAt(body, i, false, true)
            == if v.Some? && v.value <= 255 then Good([v.value], i + 4) else Bad("invalid byte string escape")
  {
    assert HexValue(body, i + 2, 0) == Some(0);
    if HexValue(body, i + 2, 2).Some? {
      ReadsRun(body, i + 2, 0, 2, 2);
      ValueGrows(body, i + 2, 1, 2);
    } else if HexValue(body, i + 2, 1).Some? {
      ReadsRun(body, i + 2, 0, 1, 2);
    } else {
      assert MoreDigits(body, i + 2, 0, 2, 16) == Some((0, i + 2));
    }
  }

  function HexEscape(b: Byte): Bytes {
    [BACKSLASH, 120, HexDigit(b / 16), HexDigit(b % 16)]
  }

  function HexEscapeAll(s: Bytes): (body: Bytes)
    ensures |body| == 4 * |s|
  {
    if s == [] then [] else HexEscape(s[0]) + HexEscapeAll(s[1..])
  }

  lemma HexStep(body: Bytes, i: nat, b: Byte, go: bool)
    requires i + 4 <= |body| && body[i..i + 4] == HexEscape(b)
    requires i + 4 == |body| || Digit(body[i + 4]) < 0
    ensures StepAt(body, i, false, go) == Good([b], i + 4)
  {
    var e := HexEscape(b);
    assert body[i] == e[0] && body[i + 1] == e[1] && body[i + 2] == e[2] && body[i + 3] == e[3];
    assert Digit(body[i + 2]) == b / 16 && Digit(body[i + 3]) == b % 16;
    TwoDigitsAre(body, i + 2, b);
    if go { GoHexIsTwoDigits(body, i); } else { HexRunIsOneByte(body, i, 2); }
  }

  lemma TwoDigitsAre(body: Bytes, i: nat, b: Byte)
    requires i + 2 <= |body| && Digit(body[i]) == b / 16 && Digit(body[i + 1]) == b % 16
    ensures HexValue(body, i, 2) == Some(b)
  {
    assert HexValue(body, i, 0) == Some(0);
    assert HexValue(body, i, 1) == Some(b / 16);
  }

  lemma {:induction false} DecodesHexEscaped(front: Bytes, s: Bytes, go: bool)
    ensures DecodeFrom(front + HexEscapeAll(s), |front|, false, go) == Ok(s)
    decreases |s|
  {
    var body := front + HexEscapeAll(s);
    if s != [] {
      var longer := front + HexEscape(s[0]);
      assert body == longer + HexEscapeAll(s[1..]);
      assert body[|front|..|front| + 4] == HexEscape(s[0]);
      if |s| > 1 { assert body[|front| + 4] == HexEscapeAll(s[1..])[0] == BACKSLASH; }
      HexStep(body, |front|, s[0], go);
      DecodesHexEscaped(longer, s[1..], go);
      assert [s[0]] + s[1..] == s;
    }
  }

  /** Decoding undoes two-digit hexadecimal escapes exactly on the strings without a zero byte, in both dialects. */
  lemma HexRoundTrip(s: Bytes, go: bool)
    ensures Decoded(HexEscapeAll(s), false, go) == Ok(s) <==> NUL !in s
  {
    DecodesHexEscaped([], s, go);
    assert [] + HexEscapeAll(s) == HexEscapeAll(s);
  }

  // ---- Unicode escapes ----

  function HexDigits(v: nat, count: nat): (s: Bytes)
    ensures |s| == count
  {
    if count == 0 then [] else HexDigits(v / 16, count - 1) + [HexDigit(v % 16)]
  }

  function Pow16(n: nat): nat {
    if n == 0 then 1 else 16 * Pow16(n - 1)
  }

  /** The digits may be written in either case. */
  lemma {:induction false} ReadsHexDigits(body: Bytes, i: nat, v: nat, count: nat)
    requires v < Pow16(count) && i + count <= |body|
    requires forall k: nat :: k < count ==> Digit(body[i + k]) == Digit(HexDigits(v, count)[k])
    ensures HexValue(body, i, count) == Some(v)
  {
    if count > 0 {
      var digits, shorter := HexDigits(v, count), HexDigits(v / 16, count - 1);
      forall k: nat | k < count - 1 ensures Digit(body[i + k]) == Digit(shorter[k]) {
        assert digits[k] == shorter[k];
      }
      ReadsHexDigits(body, i, v / 16, count - 1);
      assert Digit(body[i + (count - 1)]) == Digit(digits[count - 1]) == v % 16;
    }
  }

  /** The place of an escape of four or eight hexadecimal digits. */
  predicate IsUnicodeEscape(body: Bytes, i: nat) {
    i + 1 < |body| && body[i] == BACKSLASH && body[i + 1] in {117, 85}
  }

  function DigitCount(body: Bytes, i: nat): nat
    requires IsUnicodeEscape(body, i)
  {
    if body[i + 1] == 117 then 4 else 8
  }

  /** Wherever it stands, an escape of a scalar value becomes its UTF-8 form, which decodes to the same scalar
      whatever follows; too few digits and any other value are refused. */
  lemma UnicodeEscapeIsUtf8(body: Bytes, i: nat, go: bool, rest: Bytes)
    requires IsUnicodeEscape(body, i)
    ensures var count := DigitCount(body, i);
            var s, v := StepAt(body, i, false, go), HexValue(body, i + 2, count);
            && (s.Good? <==> v.Some? && IsScalar(v.value))
            && (s.Good? ==> s.next == i + 2 + count && ReadUtf8(s.bytes + rest) == Some((v.value, |s.bytes|)))
  {
    var count := DigitCount(body, i);
    var v := HexValue(body, i + 2, count);
    assert StepAt(body, i, false, go) == UnicodeEscape(body, i + 2, count);
    if v.Some? && IsScalar(v.value) {
      ReadsUtf8(v.value, rest);
    }
  }

  /** The digits of v stand behind the escape's letter, in either case. */
  predicate SpellsOut(body: Bytes, i: nat, v: nat)
    requires IsUnicodeEscape(body, i)
  {
    var count := DigitCount(body, i);
    && i + 2 + count <= |body| && v < Pow16(count)
    && forall k: nat :: k < count ==> Digit(body[i + 2 + k]) == Digit(HexDigits(v, count)[k])
  }

  /** Every scalar value can be written as an escape. */
  lemma ScalarsAreDecoded(body: Bytes, i: nat, v: nat, go: bool)
    requires IsUnicodeEscape(body, i) && SpellsOut(body, i, v)
    ensures StepAt(body, i, false, go)
            == if IsScalar(v) then Good(Utf8(v), i + 2 + DigitCount(body, i)) else Bad("invalid Unicode scalar")
  {
    var count := DigitCount(body, i);
    ReadsHexDigits(body, i + 2, v, count);
    assert StepAt(body, i, false, go) == UnicodeEscape(body, i + 2, count);
  }
}
