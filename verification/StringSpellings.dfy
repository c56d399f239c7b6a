/** Plain bytes, one-letter escapes and raw bodies of string literals, against an escaper of its own. */
module StringSpellings {
  import opened ByteStreams
  import opened NativeStrings
  import opened Options

  /** The letters of the bytes 7 to 13, of the quotation mark and of the backslash. */
  const LETTERS: map<Byte, Byte> :=
    map[7 := 97, 8 := 98, 9 := 116, 10 := 110, 11 := 118, 12 := 102, 13 := 114, 34 := 34, 92 := 92]

  /** A backslash and a letter for the bytes that have one, every other byte as it is. */
  function Spelling(b: Byte): Bytes {
    if b in LETTERS then [92, LETTERS[b]] else [b]
  }

  function Spelled(s: Bytes): Bytes {
    if s == [] then [] else Spelling(s[0]) + Spelled(s[1..])
  }

  lemma SpellingStep(body: Bytes, i: nat, b: Byte, go: bool)
    requires i + |Spelling(b)| <= |body| && body[i..i + |Spelling(b)|] == Spelling(b)
    ensures StepAt(body, i, false, go) == Good([b], i + |Spelling(b)|)
  {
    assert body[i] == Spelling(b)[0];
    if b in LETTERS { assert body[i + 1] == Spelling(b)[1]; }
  }

  lemma OneMoreSpelling(front: Bytes, b: Byte, rest: Bytes, s: Bytes, go: bool)
    requires DecodeFrom(front + Spelling(b) + rest, |front + Spelling(b)|, false, go) == Ok(s)
    ensures DecodeFrom(front + (Spelling(b) + rest), |front|, false, go) == Ok([b] + s)
  {
    var body := front + (Spelling(b) + rest);
    FirstSpelling(front, Spelling(b), rest);
    SpellingStep(body, |front|, b, go);
    StepIsPrepended(body, |front|, false, go, s);
  }

  lemma {:induction false} DecodesSpelled(front: Bytes, s: Bytes, go: bool)
    ensures DecodeFrom(front + Spelled(s), |front|, false, go) == Ok(s)
    decreases |s|
  {
    if s != [] {
      DecodesSpelled(front + Spelling(s[0]), s[1..], go);
      OneMoreSpelling(front, s[0], Spelled(s[1..]), s[1..], go);
      assert [s[0]] + s[1..] == s;
    }
  }

  lemma StepIsPrepended(body: Bytes, i: nat, raw: bool, go: bool, rest: Bytes)
    requires i < |body| && StepAt(body, i, raw, go).Good?
    requires DecodeFrom(body, StepAt(body, i, raw, go).next, raw, go) == Ok(rest)
    ensures DecodeFrom(body, i, raw, go) == Ok(StepAt(body, i, raw, go).bytes + rest)
  {
  }

  lemma FirstSpelling(front: Bytes, first: Bytes, rest: Bytes)
    ensures front + (first + rest) == front + first + rest
    ensures (front + (first + rest))[|front|..|front| + |first|] == first
  {
  }

  /** Decoding undoes this escaper exactly on the strings without a zero byte, in both dialects. */
  lemma SpelledRoundTrip(s: Bytes, go: bool)
    ensures Decoded(Spelled(s), false, go) == Ok(s) <==> 0 !in s
  {
    DecodesSpelled([], s, go);
    assert [] + Spelled(s) == Spelled(s);
  }

  /** The string without its carriage returns. */
  function WithoutReturns(s: Bytes): Bytes {
    if s == [] then [] else (if s[0] == 13 then [] else [s[0]]) + WithoutReturns(s[1..])
  }

  /** What a raw body stands for. */
  function Kept(body: Bytes, go: bool): Bytes {
    if go then WithoutReturns(body) else body
  }

  lemma KeptFrom(body: Bytes, i: nat, go: bool)
    requires i < |body|
    ensures Kept(body[i..], go) == StepAt(body, i, true, go).bytes + Kept(body[i + 1..], go)
  {
    assert body[i..][0] == body[i] && body[i..][1..] == body[i + 1..];
  }

  lemma {:induction false} DecodesRaw(body: Bytes, i: nat, go: bool)
    requires i <= |body|
    ensures DecodeFrom(body, i, true, go) == Ok(Kept(body[i..], go))
    decreases |body| - i
  {
    if i < |body| {
      DecodesRaw(body, i + 1, go);
      KeptFrom(body, i, go);
      StepIsPrepended(body, i, true, go, Kept(body[i + 1..], go));
    } else {
      assert body[i..] == [];
    }
  }

  lemma {:induction false} ReturnsAreNoZeros(s: Bytes)
    ensures 0 in WithoutReturns(s) <==> 0 in s
  {
    if s != [] { ReturnsAreNoZeros(s[1..]); }
  }

  /** A raw body stands for itself, in Go without its carriage returns, exactly if it has no zero byte. */
  lemma RawIsItself(body: Bytes, go: bool)
    ensures Decoded(body, true, go) == Ok(Kept(body, go)) <==> 0 !in body
  {
    DecodesRaw(body, 0, go);
    ReturnsAreNoZeros(body);
    assert body[0..] == body;
  }

  /** What may follow a backslash: a letter, a quotation mark, a question mark outside Go, or digits announced. */
  predicate Escapes(c: Byte, go: bool) {
    || c in LETTERS.Values
    || (!go && c in {39, 63})
    || c in {117, 85, 120}
    || 48 <= c <= 55
  }

  /** Everything else after a backslash is refused, and so is a backslash at the end. */
  lemma OtherEscapesAreRefused(body: Bytes, i: nat, go: bool)
    requires i < |body| && body[i] == 92 && (i + 1 == |body| || !Escapes(body[i + 1], go))
    ensures StepAt(body, i, false, go)
            == Bad(if i + 1 == |body| then "unfinished string escape"
                   else if go && body[i + 1] in {39, 63} then "unsupported Go string escape"
                   else "unsupported string escape")
  {
    LetterValues();
  }

  lemma LetterValues()
    ensures LETTERS.Values == {97, 98, 116, 110, 118, 102, 114, 34, 92}
  {
    forall c: Byte | c in {97, 98, 116, 110, 118, 102, 114, 34, 92} ensures c in LETTERS.Values {
      var b: Byte := if c == 97 then 7 else if c == 98 then 8 else if c == 116 then 9 else if c == 110 then 10
                     else if c == 118 then 11 else if c == 102 then 12 else if c == 114 then 13 else c;
      assert b in LETTERS && LETTERS[b] == c;
    }
  }

  /** Outside Go an escaped apostrophe or question mark is that character. */
  lemma EscapedQuoteIsItself(body: Bytes, i: nat)
    requires i + 1 < |body| && body[i] == 92 && body[i + 1] in {39, 63}
    ensures StepAt(body, i, false, false) == Good([body[i + 1]], i + 2)
  {
  }
}
