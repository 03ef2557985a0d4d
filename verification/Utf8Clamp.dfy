/** Truncating guest text on a character boundary, at the byte level. */
module Utf8Clamp {
  import opened Wrappers

  /** A Unicode scalar value: any code point but a surrogate. */
  type Scalar = c: nat | c < 0xD800 || 0xE000 <= c < 0x11_0000

  /** Section 3 of RFC 3629. */
  function Encode(c: Scalar): (bytes: seq<byte>)
    ensures 1 <= |bytes| <= 4
    ensures !IsContinuation(bytes[0])
    ensures forall i :: 1 <= i < |bytes| ==> IsContinuation(bytes[i])
  {
    if c < 0x80 then [c]
    else if c < 0x800 then [0xC0 + c / 0x40, 0x80 + c % 0x40]
    else if c < 0x1_0000 then [0xE0 + c / 0x1000, 0x80 + c / 0x40 % 0x40, 0x80 + c % 0x40]
    else [0xF0 + c / 0x4_0000, 0x80 + c / 0x1000 % 0x40, 0x80 + c / 0x40 % 0x40, 0x80 + c % 0x40]
  }

  predicate IsContinuation(b: byte) {
    0x80 <= b < 0xC0
  }

  function EncodeAll(text: seq<Scalar>): seq<byte> {
    if text == [] then [] else EncodeAll(text[..|text| - 1]) + Encode(text[|text| - 1])
  }

  /** The standard library's boundary test: both ends, or any byte that does not
      continue a character. */
  predicate IsCharBoundary(bytes: seq<byte>, i: nat) {
    i == 0 || i == |bytes| || (i < |bytes| && !IsContinuation(bytes[i]))
  }

  /** The text appended to a line that was cut: an ellipsis and a bracketed word. */
  const MARKER: seq<Scalar> :=
    [0x2026, 0x5B, 0x74, 0x72, 0x75, 0x6E, 0x63, 0x61, 0x74, 0x65, 0x64, 0x5D]

  lemma {:induction false} EncodeAllAppend(a: seq<Scalar>, b: seq<Scalar>)
    ensures EncodeAll(a + b) == EncodeAll(a) + EncodeAll(b)
  {
    hide Encode;
    if b == [] {
      assert a + b == a;
    } else {
      var n := |b| - 1;
      EncodeAllAppend(a, b[..n]);
      assert (a + b)[..|a + b| - 1] == a + b[..n];
    }
  }

  lemma EncodeAllSnoc(a: seq<Scalar>, c: Scalar)
    ensures EncodeAll(a + [c]) == EncodeAll(a) + Encode(c)
  {
    assert (a + [c])[..|a|] == a;
  }

  /** The six bits a continuing byte carries. */
  function Tail(b: byte): int {
    b as int % 0x40
  }

  /** The number a character's bytes stand for. */
  function Decode(bytes: seq<byte>): int {
    if |bytes| == 1 then bytes[0]
    else if |bytes| == 2 then (bytes[0] as int - 0xC0) * 0x40 + Tail(bytes[1])
    else if |bytes| == 3 then (bytes[0] as int - 0xE0) * 0x1000 + Tail(bytes[1]) * 0x40 + Tail(bytes[2])
    else if |bytes| == 4 then
      (bytes[0] as int - 0xF0) * 0x4_0000 + Tail(bytes[1]) * 0x1000 + Tail(bytes[2]) * 0x40 + Tail(bytes[3])
    else 0
  }

  lemma TailCarries(x: nat)
    requires x < 0x40
    ensures Tail(0x80 + x) == x
  {
  }

  lemma SixBits(c: nat)
    ensures c == c / 0x40 * 0x40 + c % 0x40
    ensures c / 0x40 == c / 0x1000 * 0x40 + c / 0x40 % 0x40
    ensures c / 0x1000 == c / 0x4_0000 * 0x40 + c / 0x1000 % 0x40
  {
  }

  lemma DecodeEncode(c: Scalar)
    ensures Decode(Encode(c)) == c
  {
    hide Tail;
    SixBits(c);
    TailCarries(c % 0x40);
    TailCarries(c / 0x40 % 0x40);
    TailCarries(c / 0x1000 % 0x40);
  }

  /** The bytes determine the text: cutting or marking it cannot be mistaken for
      some other text. */
  lemma {:induction false} EncodeAllInjective(a: seq<Scalar>, b: seq<Scalar>)
    ensures EncodeAll(a) == EncodeAll(b) ==> a == b
  {
    hide Encode, Decode;
    if EncodeAll(a) == EncodeAll(b) && a != [] && b != [] {
      var x, c := a[..|a| - 1], a[|a| - 1];
      var y, d := b[..|b| - 1], b[|b| - 1];
      LastCharStarts(EncodeAll(x), c, EncodeAll(y), d);
      DecodeEncode(c);
      DecodeEncode(d);
      EncodeAllInjective(x, y);
      assert a == x + [c] && b == y + [d];
    }
  }

  lemma LastCharStarts(x: seq<byte>, c: Scalar, y: seq<byte>, d: Scalar)
    requires x + Encode(c) == y + Encode(d)
    ensures x == y && Encode(c) == Encode(d)
  {
    hide Encode;
    var bytes := x + Encode(c);
    assert bytes[|x|] == Encode(c)[0] && bytes[|y|] == Encode(d)[0];
    assert forall i :: |x| < i < |bytes| ==> bytes[i] == Encode(c)[i - |x|];
    assert forall i :: |y| < i < |bytes| ==> bytes[i] == Encode(d)[i - |y|];
    assert |x| == |y|;
    assert x == bytes[..|x|] && y == bytes[..|y|];
    assert Encode(c) == bytes[|x|..] && Encode(d) == bytes[|y|..];
  }

  /** The shortest form for each range, as the table of section 3 of RFC 3629 has it. */
  lemma EncodeTable(c: Scalar)
    ensures c < 0x80 ==> Encode(c) == [c]
    ensures 0x80 <= c < 0x800 ==> |Encode(c)| == 2 && 0xC2 <= Encode(c)[0] <= 0xDF
    ensures 0x800 <= c < 0x1_0000 ==> |Encode(c)| == 3 && 0xE0 <= Encode(c)[0] <= 0xEF
    ensures 0x1_0000 <= c ==> |Encode(c)| == 4 && 0xF0 <= Encode(c)[0] <= 0xF4
  {
  }

  /** Characters from the examples in section 7 of RFC 3629. */
  lemma EncodeExamples()
    ensures Encode(0x41) == [0x41] && Encode(0x391) == [0xCE, 0x91]
    ensures Encode(0x2262) == [0xE2, 0x89, 0xA2] && Encode(0xD55C) == [0xED, 0x95, 0x9C]
    ensures Encode(0x233B4) == [0xF0, 0xA3, 0x8E, 0xB4]
  {
  }

  lemma {:induction false} AsciiEncodesItself(text: seq<Scalar>)
    requires forall i :: 0 <= i < |text| ==> text[i] < 0x80
    ensures EncodeAll(text) == text
  {
    hide Encode;
    if text != [] {
      var n := |text| - 1;
      AsciiEncodesItself(text[..n]);
      EncodeTable(text[n]);
      assert text == text[..n] + [text[n]];
    }
  }

  /** The marker is the ellipsis and then `[truncated]`. */
  lemma MarkerBytes()
    ensures EncodeAll(MARKER) ==
            [0xE2, 0x80, 0xA6, '[' as int, 't' as int, 'r' as int, 'u' as int, 'n' as int, 'c' as int,
             'a' as int, 't' as int, 'e' as int, 'd' as int, ']' as int]
  {
    var word: seq<Scalar> := MARKER[1..];
    assert MARKER == [0x2026] + word;
    EncodeAllAppend([0x2026], word);
    AsciiEncodesItself(word);
    EncodeAllSnoc([], 0x2026);
    assert [] + [0x2026] == [0x2026];
    assert Encode(0x2026) == [0xE2, 0x80, 0xA6];
  }

  /** How many whole characters of `text` fit in `max` bytes. */
  ghost function FittingChars(text: seq<Scalar>, max: nat): (k: nat)
    ensures k <= |text| && |EncodeAll(text[..k])| <= max
    ensures k < |text| ==> |EncodeAll(text[..k + 1])| > max
  {
    if |EncodeAll(text)| <= max then
      assert text[..|text|] == text;
      |text|
    else
      var n := |text| - 1;
      var k := FittingChars(text[..n], max);
      assert text[..n][..k] == text[..k];
      assert k < n ==> text[..n][..k + 1] == text[..k + 1];
      assert k == n ==> text[..k + 1] == text;
      k
  }

  /** The bytes strictly inside a character continue it, so the last boundary at
      or before `max` is where the last whole character that fits ends. */
  lemma BoundariesAround(text: seq<Scalar>, max: nat)
    requires max < |EncodeAll(text)|
    ensures var start := |EncodeAll(text[..FittingChars(text, max)])|;
            && max - 3 <= start <= max
            && IsCharBoundary(EncodeAll(text), start)
            && forall i :: start < i <= max ==> !IsCharBoundary(EncodeAll(text), i)
  {
    hide Encode, EncodeAll, FittingChars;
    var k := FittingChars(text, max);
    assert text[..|text|] == text;
    assert k < |text|;
    var before, c, after := text[..k], text[k], text[k + 1..];
    assert text[..k + 1] == before + [c];
    assert text == before + [c] + after;
    EncodeAllAppend(before + [c], after);
    EncodeAllSnoc(before, c);
    var bytes := EncodeAll(text);
    assert bytes == EncodeAll(before) + Encode(c) + EncodeAll(after);
    assert bytes[|EncodeAll(before)|] == Encode(c)[0];
    forall i | |EncodeAll(before)| < i <= max
      ensures !IsCharBoundary(bytes, i)
    {
      assert bytes[i] == Encode(c)[i - |EncodeAll(before)|];
    }
  }

  /** `text` is what `s` encodes: a Rust string slice is always valid UTF-8. The
      result is the input, or the longest run of whole characters that fits and
      the marker, and so is valid UTF-8 again. */
  method Clamp(s: seq<byte>, max: nat, ghost text: seq<Scalar>) returns (r: seq<byte>, steps: nat)
    requires s == EncodeAll(text)
    ensures |s| <= max ==> r == s
    ensures |s| > max ==> r == EncodeAll(text[..FittingChars(text, max)] + MARKER)
    ensures steps <= 3
  {
    hide Encode, EncodeAll, FittingChars;
    steps := 0;
    if |s| <= max {
      return s, steps;
    }
    BoundariesAround(text, max);
    ghost var start := |EncodeAll(text[..FittingChars(text, max)])|;
    var end := max;
    while end > 0 && !IsCharBoundary(s, end)
      invariant start <= end <= max && steps == max - end
    {
      end := end - 1;
      steps := steps + 1;
    }
    ghost var k := FittingChars(text, max);
    assert text == text[..k] + text[k..];
    EncodeAllAppend(text[..k], text[k..]);
    EncodeAllAppend(text[..k], MARKER);
    r := s[..end] + EncodeAll(MARKER);
  }
}
