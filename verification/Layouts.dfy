/** Sizes, alignments and layout compatibility of types. */
module Layouts {
  import opened Arithmetic
  import opened Types

  // ---- The type system's functions ----

  /** x & ~mask */
  function ClearBits(x: nat, mask: nat): nat
    decreases mask
  {
    if mask == 0 then x else 2 * ClearBits(x / 2, mask / 2) + (if mask % 2 == 1 then 0 else x % 2)
  }

  /** (total + align - 1) & ~(align - 1); an alignment of 0 wraps around to a mask of all ones. */
  function RoundUp(total: nat, align: nat): nat {
    if align == 0 then 0 else ClearBits(total + align - 1, align - 1)
  }

  function Padded(total: nat, maxAlign: nat): nat {
    if maxAlign > 1 then RoundUp(total, maxAlign) else total
  }

  function Min(a: nat, b: nat): nat {
    if a < b then a else b
  }

  function SizeOf(t: Type): nat
    decreases t, 0
  {
    match t.kind
    case Void => 0
    case Bool => 1
    case Int => if t.bitWidth > 0 then t.bitWidth / 8 else 4
    case Float => if t.bitWidth > 0 then t.bitWidth / 8 else 4
    case String => 16
    case Pointer => 8
    case Reference => 8
    case Function => 8
    case Array => if t.args != [] && t.arraySize > 0 then SizeOf(t.args[0]) * t.arraySize else 16
    case Optional => if t.args != [] then RoundUp(SizeOf(t.args[0]) + 1, AlignOf(t.args[0])) else 8
    case Slice => 16
    case Tuple =>
      Padded(TupleEnd(t.args, |t.args|), MaxAlign(t.args, |t.args|))
    case Any => 16
    case _ => 0
  }

  function AlignOf(t: Type): nat
    decreases t, 0
  {
    match t.kind
    case Int => if t.bitWidth > 0 then Min(t.bitWidth / 8, 8) else 4
    case Float => if t.bitWidth > 0 then Min(t.bitWidth / 8, 16) else 4
    case String => 8
    case Pointer => 8
    case Reference => 8
    case Function => 8
    case Slice => 8
    case Array => if t.args != [] then AlignOf(t.args[0]) else 8
    case Optional => if t.args != [] then AlignOf(t.args[0]) else 8
    case Tuple => MaxAlign(t.args, |t.args|)
    case Any => 8
    case _ => 1
  }

  /** Where the first n elements end. */
  function TupleEnd(elems: seq<Type>, n: nat): nat
    requires n <= |elems|
    decreases elems, n
  {
    if n == 0 then 0
    else RoundUp(TupleEnd(elems, n - 1), AlignOf(elems[n - 1])) + SizeOf(elems[n - 1])
  }

  function MaxAlign(elems: seq<Type>, n: nat): nat
    requires n <= |elems|
    decreases elems, n
  {
    if n == 0 then 1 else Max(MaxAlign(elems, n - 1), AlignOf(elems[n - 1]))
  }

  predicate AreLayoutCompatible(a: Type, b: Type)
    decreases a
  {
    if a == b then true
    else if a.kind in {Int, Float} && b.kind in {Int, Float} then Width(a) == Width(b)
    else if a.kind in {Pointer, Reference} && b.kind in {Pointer, Reference} then true
    else if a.kind == Array && b.kind == Array && a.args != [] && b.args != []
            && AreLayoutCompatible(a.args[0], b.args[0]) then a.arraySize == b.arraySize
    else if a.kind == Tuple && b.kind == Tuple then
      |a.args| == |b.args| && forall i: nat :: i < |a.args| ==> AreLayoutCompatible(a.args[i], b.args[i])
    else SizeOf(a) > 0 && SizeOf(b) > 0 && SizeOf(a) == SizeOf(b) && AlignOf(a) == AlignOf(b)
  }

  function Width(t: Type): int {
    if t.bitWidth > 0 then t.bitWidth else 32
  }

  // ---- Types with documented widths ----

  const ALIGNMENTS: set<nat> := {1, 2, 4, 8, 16}

  predicate Sized(t: Type) {
    && (t.kind in {Int, Float} ==> t.bitWidth <= 0 || t.bitWidth in {8, 16, 32, 64, 128})
    && forall i: nat :: i < |t.args| ==> Sized(t.args[i])
  }

  predicate AllSized(ts: seq<Type>) {
    forall i: nat :: i < |ts| ==> Sized(ts[i])
  }

  // ---- Alignment ----

  lemma RoundUpIsTight(total: nat, align: nat)
    requires align in ALIGNMENTS
    ensures RoundUp(total, align) % align == 0
    ensures total <= RoundUp(total, align) < total + align
  {
    var x := total + align - 1;
    ClearsLowBits(x, align);
    RoundedDown(x, align);
  }

  lemma RoundUpGrows(total: nat, align: nat)
    requires align in ALIGNMENTS
    ensures total <= RoundUp(total, align)
  {
    RoundUpIsTight(total, align);
  }

  lemma RoundedDown(x: nat, align: nat)
    requires align > 0
    ensures (x - x % align) % align == 0 && x - align < x - x % align <= x
  {
    assert x - x % align == align * (x / align) + 0;
    QuotientAndRemainder(align, x / align, 0);
  }

  lemma {:induction false} ClearsLowBits(x: nat, align: nat)
    requires align in ALIGNMENTS
    ensures ClearBits(x, align - 1) == x - x % align
  {
    if align > 1 {
      ClearsLowBits(x / 2, align / 2);
      HalfRemainder(x, align / 2);
    }
  }

  lemma HalfRemainder(x: nat, half: nat)
    requires half > 0
    ensures x % (2 * half) == 2 * (x / 2 % half) + x % 2
  {
    var q, r := x / 2, x % 2;
    var k, m := q / half, q % half;
    assert q == half * k + m;
    assert x == 2 * half * k + (2 * m + r);
    QuotientAndRemainder(2 * half, k, 2 * m + r);
  }

  lemma {:induction false} AlignmentIsPowerOfTwo(t: Type)
    requires Sized(t)
    ensures AlignOf(t) in ALIGNMENTS
  {
    match t.kind
    case Array => if t.args != [] { AlignmentIsPowerOfTwo(t.args[0]); }
    case Optional => if t.args != [] { AlignmentIsPowerOfTwo(t.args[0]); }
    case Tuple => MaxAlignIsPowerOfTwo(t.args, |t.args|);
    case _ =>
  }

  lemma {:induction false} MaxAlignIsPowerOfTwo(elems: seq<Type>, n: nat)
    requires n <= |elems| && AllSized(elems)
    ensures MaxAlign(elems, n) in ALIGNMENTS
    ensures forall i: nat :: i < n ==> AlignOf(elems[i]) <= MaxAlign(elems, n)
    decreases elems, n
  {
    if n > 0 {
      MaxAlignIsPowerOfTwo(elems, n - 1);
      AlignmentIsPowerOfTwo(elems[n - 1]);
    }
  }

  lemma {:induction false} AlignmentsDivide(a: nat, b: nat)
    requires a in ALIGNMENTS && b in ALIGNMENTS && a <= b
    ensures b % a == 0
  {
  }

  lemma MultiplesOf(size: nat, count: nat, align: nat)
    requires align in ALIGNMENTS && size % align == 0
    ensures (size * count) % align == 0
  {
    var q := size / align;
    assert size * count == align * (q * count) by {
      assert size == align * q;
    }
    QuotientAndRemainder(align, q * count, 0);
  }

  /** Every size is a multiple of the alignment, so the elements of an array are all aligned. */
  lemma {:induction false} SizeIsMultipleOfAlignment(t: Type)
    requires Sized(t)
    ensures AlignOf(t) in ALIGNMENTS && SizeOf(t) % AlignOf(t) == 0
  {
    AlignmentIsPowerOfTwo(t);
    match t.kind
    case Array =>
      if t.args != [] && t.arraySize > 0 {
        SizeIsMultipleOfAlignment(t.args[0]);
        MultiplesOf(SizeOf(t.args[0]), t.arraySize, AlignOf(t.args[0]));
      }
    case Optional =>
      if t.args != [] {
        RoundUpIsTight(SizeOf(t.args[0]) + 1, AlignOf(t.args[0]));
      }
    case Tuple =>
      RoundUpIsTight(TupleEnd(t.args, |t.args|), MaxAlign(t.args, |t.args|));
    case _ =>
  }

  // ---- Arrays, optionals and numbers ----

  lemma {:induction false} OneMoreElement(size: nat, i: nat, count: nat)
    requires i < count
    ensures size * i + size == size * (i + 1) <= size * count
  {
    if i + 1 < count { OneMoreElement(size, i, count - 1); }
  }

  /** The elements of a sized array lie at multiples of their size, aligned, one behind the other, and fill it. */
  lemma ArrayElementsFillTheArray(t: Type, i: nat)
    requires Sized(t) && t.kind == Array && t.args != [] && i < t.arraySize
    ensures var element := t.args[0]; var size := SizeOf(element);
            && AlignOf(element) > 0 && (size * i) % AlignOf(element) == 0
            && size * i + size == size * (i + 1) <= SizeOf(t)
            && (i + 1 == t.arraySize ==> size * i + size == SizeOf(t))
  {
    SizeIsMultipleOfAlignment(t.args[0]);
    MultiplesOf(SizeOf(t.args[0]), i, AlignOf(t.args[0]));
    OneMoreElement(SizeOf(t.args[0]), i, t.arraySize);
  }

  /** A number of documented width has that width. */
  lemma NumbersHoldTheirWidth(t: Type)
    requires Sized(t) && t.kind in {Int, Float}
    ensures 8 * SizeOf(t) == Width(t)
  {
  }

  lemma FlagFits(inner: nat, align: nat)
    requires align in ALIGNMENTS
    ensures inner < RoundUp(inner + 1, align) <= inner + align && RoundUp(inner + 1, align) % align == 0
  {
    RoundUpIsTight(inner + 1, align);
  }

  /** An optional is the least multiple of its payload's alignment with a byte behind the payload. */
  lemma OptionalHasAFlag(t: Type)
    requires Sized(t) && t.kind == Optional && t.args != []
    ensures var payload := t.args[0];
            && SizeOf(payload) < SizeOf(t) <= SizeOf(payload) + AlignOf(payload)
            && AlignOf(payload) > 0 && SizeOf(t) % AlignOf(payload) == 0
  {
    AlignmentIsPowerOfTwo(t.args[0]);
    FlagFits(SizeOf(t.args[0]), AlignOf(t.args[0]));
  }

  // ---- Tuples ----

  function TupleOffset(elems: seq<Type>, i: nat): nat
    requires i < |elems|
  {
    RoundUp(TupleEnd(elems, i), AlignOf(elems[i]))
  }

  lemma EndBeforeOffset(elems: seq<Type>, i: nat)
    requires i < |elems| && AllSized(elems)
    ensures TupleEnd(elems, i) <= TupleOffset(elems, i)
  {
    AlignmentIsPowerOfTwo(elems[i]);
    RoundUpGrows(TupleEnd(elems, i), AlignOf(elems[i]));
  }

  lemma EndsBehindElement(elems: seq<Type>, i: nat)
    requires i < |elems|
    ensures TupleEnd(elems, i + 1) == TupleOffset(elems, i) + SizeOf(elems[i])
  {
  }

  lemma {:induction false} TupleEndsGrow(elems: seq<Type>, i: nat, j: nat)
    requires i <= j <= |elems| && AllSized(elems)
    ensures TupleEnd(elems, i) <= TupleEnd(elems, j)
  {
    if i < j {
      TupleEndsGrow(elems, i, j - 1);
      EndBeforeOffset(elems, j - 1);
    }
  }

  /** Each element lies at an offset of its own alignment, inside the tuple, whose alignment keeps it aligned. */
  lemma TupleElementsAreAligned(t: Type, i: nat)
    requires Sized(t) && t.kind == Tuple && i < |t.args|
    ensures AlignOf(t.args[i]) in ALIGNMENTS && AlignOf(t) in ALIGNMENTS
    ensures TupleOffset(t.args, i) % AlignOf(t.args[i]) == 0 && AlignOf(t) % AlignOf(t.args[i]) == 0
    ensures TupleOffset(t.args, i) + SizeOf(t.args[i]) <= SizeOf(t)
  {
    var elems := t.args;
    MaxAlignIsPowerOfTwo(elems, |elems|);
    AlignmentIsPowerOfTwo(elems[i]);
    assert AlignOf(t) % AlignOf(elems[i]) == 0 by {
      AlignmentsDivide(AlignOf(elems[i]), MaxAlign(elems, |elems|));
    }
    assert TupleOffset(elems, i) % AlignOf(elems[i]) == 0 by {
      RoundUpIsTight(TupleEnd(elems, i), AlignOf(elems[i]));
    }
    TupleHoldsItsElements(t, i);
  }

  lemma PaddingIsTight(end: nat, align: nat)
    requires align in ALIGNMENTS
    ensures end <= Padded(end, align) < end + align
  {
    RoundUpIsTight(end, align);
  }

  /** A tuple ends less than one alignment behind its last element. */
  lemma TupleIsTight(t: Type)
    requires Sized(t) && t.kind == Tuple
    ensures TupleEnd(t.args, |t.args|) <= SizeOf(t) < TupleEnd(t.args, |t.args|) + AlignOf(t)
  {
    AlignmentIsPowerOfTwo(t);
    PaddingIsTight(TupleEnd(t.args, |t.args|), AlignOf(t));
  }

  lemma SizeCoversEnd(t: Type)
    requires Sized(t) && t.kind == Tuple
    ensures TupleEnd(t.args, |t.args|) <= SizeOf(t)
  {
    TupleIsTight(t);
  }

  lemma TupleHoldsItsElements(t: Type, i: nat)
    requires Sized(t) && t.kind == Tuple && i < |t.args|
    ensures TupleOffset(t.args, i) + SizeOf(t.args[i]) <= SizeOf(t)
  {
    EndsBehindElement(t.args, i);
    TupleEndsGrow(t.args, i + 1, |t.args|);
    SizeCoversEnd(t);
  }

  /** Elements lie one behind the other and do not overlap. */
  lemma TupleElementsAreDisjoint(t: Type, i: nat, j: nat)
    requires Sized(t) && t.kind == Tuple && i < j < |t.args|
    ensures TupleOffset(t.args, i) + SizeOf(t.args[i]) <= TupleOffset(t.args, j)
  {
    EndsBehindElement(t.args, i);
    TupleEndsGrow(t.args, i + 1, j);
    EndBeforeOffset(t.args, j);
  }

  // ---- Compatibility ----

  predicate SameLayout(a: Type, b: Type) {
    SizeOf(a) == SizeOf(b) && AlignOf(a) == AlignOf(b)
  }

  predicate IsNumber(t: Type) {
    t.kind in {Int, Float}
  }

  /** No integer is matched with a float too wide for the alignment of integers, which ends at 8. */
  predicate NoMixedWide(a: Type, b: Type)
    decreases a
  {
    && (IsNumber(a) && IsNumber(b) ==> a.kind == b.kind || Width(a) < 72)
    && ((a.kind == Array && b.kind == Array && a.args != [] && b.args != []
         && AreLayoutCompatible(a.args[0], b.args[0])) ==> NoMixedWide(a.args[0], b.args[0]))
    && (a.kind == Tuple && b.kind == Tuple && |a.args| == |b.args| ==>
          forall i: nat :: i < |a.args| ==> NoMixedWide(a.args[i], b.args[i]))
  }

  lemma {:induction false} SameTupleLayout(a: seq<Type>, b: seq<Type>, n: nat)
    requires n <= |a| == |b|
    requires forall i: nat :: i < |a| ==> SameLayout(a[i], b[i])
    ensures TupleEnd(a, n) == TupleEnd(b, n) && MaxAlign(a, n) == MaxAlign(b, n)
  {
    if n > 0 {
      SameTupleLayout(a, b, n - 1);
      assert SameLayout(a[n - 1], b[n - 1]);
    }
  }

  /** Numbers of one width agree in size; in alignment too unless an integer meets a float of 72 bits or more. */
  lemma NumbersShareTheirLayout(a: Type, b: Type)
    requires IsNumber(a) && IsNumber(b) && AreLayoutCompatible(a, b)
    ensures SizeOf(a) == SizeOf(b)
    ensures SameLayout(a, b) <==> a.kind == b.kind || Width(a) < 72
  {
  }

  /** The types share their layout, and so do all parts that the compatibility check pairs. */
  predicate SameThroughout(a: Type, b: Type)
    decreases a
  {
    && SameLayout(a, b)
    && ((a.kind == Array && b.kind == Array && a.args != [] && b.args != []
         && AreLayoutCompatible(a.args[0], b.args[0])) ==> SameThroughout(a.args[0], b.args[0]))
    && (a.kind == Tuple && b.kind == Tuple && |a.args| == |b.args| ==>
          forall i: nat :: i < |a.args| ==> SameThroughout(a.args[i], b.args[i]))
  }

  /** Compatible types have one size and one alignment, in all their parts, exactly unless somewhere an integer meets a
      wide float. */
  lemma {:induction false} CompatibleTypesShareTheirLayout(a: Type, b: Type)
    requires AreLayoutCompatible(a, b)
    ensures SameThroughout(a, b) <==> NoMixedWide(a, b)
    decreases a
  {
    if IsNumber(a) && IsNumber(b) {
      NumbersShareTheirLayout(a, b);
    } else if a.kind == Array && b.kind == Array && a.args != [] && b.args != []
              && AreLayoutCompatible(a.args[0], b.args[0]) {
      CompatibleTypesShareTheirLayout(a.args[0], b.args[0]);
    } else if a.kind == Tuple && b.kind == Tuple {
      forall i: nat | i < |a.args| ensures SameThroughout(a.args[i], b.args[i]) <==> NoMixedWide(a.args[i], b.args[i]) {
        CompatibleTypesShareTheirLayout(a.args[i], b.args[i]);
      }
      if NoMixedWide(a, b) { TuplesShareTheirLayout(a, b); }
    }
  }

  lemma TuplesShareTheirLayout(a: Type, b: Type)
    requires a.kind == Tuple && b.kind == Tuple && |a.args| == |b.args|
    requires forall i: nat :: i < |a.args| ==> SameThroughout(a.args[i], b.args[i])
    ensures SameThroughout(a, b)
  {
    forall i: nat | i < |a.args| ensures SameLayout(a.args[i], b.args[i]) {
      assert SameThroughout(a.args[i], b.args[i]);
    }
    TuplesHaveOneLayout(a, b);
  }

  lemma TuplesHaveOneLayout(a: Type, b: Type)
    requires a.kind == Tuple && b.kind == Tuple && |a.args| == |b.args|
    requires forall i: nat :: i < |a.args| ==> SameLayout(a.args[i], b.args[i])
    ensures SameLayout(a, b)
  {
    SameTupleLayout(a.args, b.args, |a.args|);
  }

  /** The two documented 128-bit numbers are compatible and aligned differently. */
  lemma WideNumbersDiffer()
    ensures var i128, f128 := Plain(Int, "i128", []).(bitWidth := 128), Plain(Float, "f128", []).(bitWidth := 128);
            Sized(i128) && Sized(f128) && AreLayoutCompatible(i128, f128) && AlignOf(i128) == 8 && AlignOf(f128) == 16
  {
  }
}
