/** Path grants and percent-encoding: why an encoded separator is refused, and
    what a grant still means after the server decodes the path. */
module PercentPath {
  import opened Text

  predicate IsHex(c: char) {
    '0' <= c <= '9' || 'a' <= c <= 'f' || 'A' <= c <= 'F'
  }

  function HexValue(c: char): (v: nat)
    requires IsHex(c)
    ensures v < 16
  {
    if c <= '9' then (c as int) - ('0' as int)
    else if c <= 'F' then (c as int) - ('A' as int) + 10
    else (c as int) - ('a' as int) + 10
  }

  /** `s` begins with a percent-encoded octet. */
  predicate StartsEscape(s: string) {
    |s| >= 3 && s[0] == '%' && IsHex(s[1]) && IsHex(s[2])
  }

  /** One round of percent-decoding (section 2.1 of RFC 3986); a `%` that starts
      no octet stands for itself. */
  function Decode(s: string): string {
    if s == "" then ""
    else if StartsEscape(s) then [(16 * HexValue(s[1]) + HexValue(s[2])) as char] + Decode(s[3..])
    else [s[0]] + Decode(s[1..])
  }

  predicate IsSeparator(c: char) {
    c == '/' || c == '\\'
  }

  /** The matcher's window test: `%2f` or `%5c` in any case. */
  predicate EncodedSeparatorAt(s: string, i: int) {
    && 0 <= i <= |s| - 3 && s[i] == '%'
    && var (a, b) := (LowerChar(s[i + 1]), LowerChar(s[i + 2]));
       (a == '2' && b == 'f') || (a == '5' && b == 'c')
  }

  predicate ContainsEncodedSeparator(path: string) {
    exists i :: 0 <= i < |path| && EncodedSeparatorAt(path, i)
  }

  function Separators(s: string): nat {
    if s == "" then 0 else (if IsSeparator(s[0]) then 1 else 0) + Separators(s[1..])
  }

  /** An escape decodes to a separator exactly when the window test catches it. */
  lemma EscapedSeparator(s: string)
    requires StartsEscape(s)
    ensures IsSeparator((16 * HexValue(s[1]) + HexValue(s[2])) as char) <==> EncodedSeparatorAt(s, 0)
  {
  }

  /** Windows inside an escape start at a hex digit, so they never match. */
  lemma ContainsAfter(s: string, n: nat)
    requires n <= |s|
    requires forall i :: 0 <= i < n ==> !EncodedSeparatorAt(s, i)
    ensures ContainsEncodedSeparator(s) <==> ContainsEncodedSeparator(s[n..])
  {
    forall i | n <= i < |s|
      ensures EncodedSeparatorAt(s, i) <==> EncodedSeparatorAt(s[n..], i - n)
    {
    }
    if ContainsEncodedSeparator(s) {
      var i :| 0 <= i < |s| && EncodedSeparatorAt(s, i);
      assert EncodedSeparatorAt(s[n..], i - n);
    }
    if ContainsEncodedSeparator(s[n..]) {
      var i :| 0 <= i < |s[n..]| && EncodedSeparatorAt(s[n..], i);
      assert EncodedSeparatorAt(s, n + i);
    }
  }

  /** Decoding never loses a separator, and makes a new one exactly when the
      window test finds one: the test is neither too lax nor too strict. */
  lemma {:induction false} DecodingAddsSeparatorsExactlyWhen(s: string)
    ensures Separators(Decode(s)) >= Separators(s)
    ensures Separators(Decode(s)) == Separators(s) <==> !ContainsEncodedSeparator(s)
    decreases |s|
  {
    hide HexValue;
    if s != "" {
      if StartsEscape(s) {
        DecodingAddsSeparatorsExactlyWhen(s[3..]);
        EscapedSeparator(s);
        var c := (16 * HexValue(s[1]) + HexValue(s[2])) as char;
        var rest := Decode(s[3..]);
        assert Decode(s) == [c] + rest && ([c] + rest)[1..] == rest;
        SkipNonSeparators(s);
        if !EncodedSeparatorAt(s, 0) {
          ContainsAfter(s, 3);
        }
      } else {
        DecodingAddsSeparatorsExactlyWhen(s[1..]);
        var rest := Decode(s[1..]);
        assert Decode(s) == [s[0]] + rest && ([s[0]] + rest)[1..] == rest;
        ContainsAfter(s, 1);
      }
    }
  }

  lemma SkipNonSeparators(s: string)
    requires StartsEscape(s)
    ensures Separators(s) == Separators(s[3..])
  {
    assert s[1..][1..] == s[2..] && s[2..][1..] == s[3..];
    assert Separators(s[1..]) == Separators(s[2..]);
  }

  function DecodeEach(parts: seq<string>): (r: seq<string>)
    ensures |r| == |parts|
    ensures forall i :: 0 <= i < |parts| ==> r[i] == Decode(parts[i])
  {
    seq(|parts|, i requires 0 <= i < |parts| => Decode(parts[i]))
  }

  lemma SplitEscape(s: string, sep: char)
    requires StartsEscape(s) && IsSeparator(sep)
    ensures Split(s, sep) == [s[..3] + Split(s[3..], sep)[0]] + Split(s[3..], sep)[1..]
  {
    var t := s[3..];
    SplitFirst(s[2], t, sep);
    SplitFirst(s[1], [s[2]] + t, sep);
    SplitFirst(s[0], [s[1]] + ([s[2]] + t), sep);
    assert s == [s[0]] + ([s[1]] + ([s[2]] + t));
    assert s[..3] + Split(t, sep)[0] == [s[0]] + ([s[1]] + ([s[2]] + Split(t, sep)[0]));
  }

  lemma DecodeEachFirst(first: string, parts: seq<string>)
    requires |parts| > 0
    ensures DecodeEach([first] + parts[1..]) == [Decode(first)] + DecodeEach(parts)[1..]
  {
    hide Decode;
  }

  /** An escape that decodes to no separator joins the piece it stands in. */
  lemma EscapeCommutes(s: string, sep: char)
    requires StartsEscape(s) && IsSeparator(sep)
    requires (16 * HexValue(s[1]) + HexValue(s[2])) as char != sep
    requires Split(Decode(s[3..]), sep) == DecodeEach(Split(s[3..], sep))
    ensures Split(Decode(s), sep) == DecodeEach(Split(s, sep))
  {
    hide HexValue, Split;
    var c := (16 * HexValue(s[1]) + HexValue(s[2])) as char;
    var parts := Split(s[3..], sep);
    SplitEscape(s, sep);
    SplitFirst(c, Decode(s[3..]), sep);
    var first := s[..3] + parts[0];
    assert first[3..] == parts[0] && StartsEscape(first);
    assert Decode(first) == [c] + Decode(parts[0]);
    DecodeEachFirst(first, parts);
  }

  /** So does a literal character that is not the separator itself. */
  lemma LiteralCommutes(s: string, sep: char)
    requires s != "" && !StartsEscape(s) && IsSeparator(sep)
    requires Split(Decode(s[1..]), sep) == DecodeEach(Split(s[1..], sep))
    ensures Split(Decode(s), sep) == DecodeEach(Split(s, sep))
  {
    hide Split;
    var t, parts := s[1..], Split(s[1..], sep);
    assert s == [s[0]] + t;
    SplitFirst(s[0], t, sep);
    SplitFirst(s[0], Decode(t), sep);
    if s[0] == sep {
      assert DecodeEach([""] + parts) == [""] + DecodeEach(parts);
    } else {
      FirstPieceIsPrefix(t, sep);
      var first := [s[0]] + parts[0];
      assert !StartsEscape(first);
      assert first[1..] == parts[0];
      DecodeEachFirst(first, parts);
    }
  }

  /** Without an encoded separator, decoding and splitting commute: the server sees
      the same segments the matcher saw, each decoded. */
  lemma {:induction false} DecodeCommutesWithSplit(s: string, sep: char)
    requires !ContainsEncodedSeparator(s) && IsSeparator(sep)
    ensures Split(Decode(s), sep) == DecodeEach(Split(s, sep))
    decreases |s|
  {
    if s != "" {
      hide ContainsEncodedSeparator, HexValue, Split, Decode;
      if StartsEscape(s) {
        EscapeIsNoSeparator(s);
        ContainsNothingAfter(s, 3);
        DecodeCommutesWithSplit(s[3..], sep);
        EscapeCommutes(s, sep);
      } else {
        ContainsNothingAfter(s, 1);
        DecodeCommutesWithSplit(s[1..], sep);
        LiteralCommutes(s, sep);
      }
    }
  }

  lemma EscapeIsNoSeparator(s: string)
    requires StartsEscape(s) && !ContainsEncodedSeparator(s)
    ensures !IsSeparator((16 * HexValue(s[1]) + HexValue(s[2])) as char)
  {
    EscapedSeparator(s);
  }

  lemma ContainsNothingAfter(s: string, n: nat)
    requires n <= |s| && !ContainsEncodedSeparator(s)
    ensures !ContainsEncodedSeparator(s[n..])
  {
    ContainsAfter(s, n);
  }

  /** The matcher's path rule. */
  predicate PathCovers(prefix: string, path: string) {
    || prefix == "/"
    || (prefix <= path && (path[|prefix|..] == "" || path[|prefix|] == '/'))
  }

  /** It is containment of whole segments. */
  lemma PathCoversIsSegmentPrefix(prefix: string, path: string)
    ensures PathCovers(prefix, path) <==> prefix == "/" || Split(prefix, '/') <= Split(path, '/')
  {
    hide Split;
    ContinuesAtIsPiecePrefix(prefix, path, '/');
  }

  /** So a grant that covers a path the matcher accepts still covers it, segment
      for segment, once a server has decoded the path. */
  lemma GrantSurvivesDecoding(prefix: string, path: string)
    requires !ContainsEncodedSeparator(path) && PathCovers(prefix, path)
    ensures PathCovers(Decode(prefix), Decode(path))
  {
    hide Split, Decode;
    if prefix == "/" {
      DecodeSlash();
    } else {
      CoveredSegmentsSurvive(prefix, path);
      PathCoversIsSegmentPrefix(Decode(prefix), Decode(path));
    }
  }

  lemma CoveredSegmentsSurvive(prefix: string, path: string)
    requires !ContainsEncodedSeparator(path) && PathCovers(prefix, path) && prefix != "/"
    ensures Split(Decode(prefix), '/') <= Split(Decode(path), '/')
  {
    hide Split, Decode;
    PrefixContainsNothing(prefix, path);
    DecodeCommutesWithSplit(prefix, '/');
    DecodeCommutesWithSplit(path, '/');
    PathCoversIsSegmentPrefix(prefix, path);
    var ps, ss := Split(prefix, '/'), Split(path, '/');
    assert DecodeEach(ps) == DecodeEach(ss)[..|ps|];
  }

  lemma DecodeSlash()
    ensures Decode("/") == "/"
  {
    assert "/"[1..] == "";
  }

  lemma PrefixContainsNothing(prefix: string, path: string)
    requires prefix <= path
    ensures ContainsEncodedSeparator(prefix) ==> ContainsEncodedSeparator(path)
  {
    if i :| 0 <= i < |prefix| && EncodedSeparatorAt(prefix, i) {
      assert EncodedSeparatorAt(path, i);
    }
  }
}
