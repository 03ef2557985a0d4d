/** Separator-split text. A raw string prefix test is only safe when it means
    containment of whole pieces; the lemmas here are where the two are tied. */
module Text {

  /** The pieces of `s` between separators: always at least one, possibly empty. */
  function Split(s: string, sep: char): (parts: seq<string>)
    ensures |parts| > 0
  {
    if s == "" then [""]
    else
      var rest := Split(s[1..], sep);
      if s[0] == sep then [""] + rest else [[s[0]] + rest[0]] + rest[1..]
  }

  function Join(parts: seq<string>, sep: char): string
    requires |parts| > 0
  {
    if |parts| == 1 then parts[0] else parts[0] + [sep] + Join(parts[1..], sep)
  }

  lemma {:induction false} JoinSplit(s: string, sep: char)
    ensures Join(Split(s, sep), sep) == s
  {
    if s != "" {
      JoinSplit(s[1..], sep);
      var rest := Split(s[1..], sep);
      if s[0] == sep {
        assert ([""] + rest)[1..] == rest;
      } else {
        assert ([[s[0]] + rest[0]] + rest[1..])[1..] == rest[1..];
      }
      assert s == [s[0]] + s[1..];
    }
  }

  lemma {:induction false} SplitPlain(s: string, sep: char)
    requires sep !in s
    ensures Split(s, sep) == [s]
  {
    if s != "" {
      SplitPlain(s[1..], sep);
      assert [s[0]] + s[1..] == s;
    }
  }

  lemma {:induction false} SplitAppend(a: string, b: string, sep: char)
    ensures Split(a + [sep] + b, sep) == Split(a, sep) + Split(b, sep)
  {
    if a == "" {
      assert (a + [sep] + b)[1..] == b;
    } else {
      assert (a + [sep] + b)[1..] == a[1..] + [sep] + b;
      SplitAppend(a[1..], b, sep);
    }
  }

  lemma {:induction false} JoinAppend(xs: seq<string>, ys: seq<string>, sep: char)
    requires |xs| > 0 && |ys| > 0
    ensures Join(xs + ys, sep) == Join(xs, sep) + [sep] + Join(ys, sep)
  {
    if |xs| == 1 {
      assert (xs + ys)[1..] == ys;
    } else {
      assert (xs + ys)[1..] == xs[1..] + ys;
      JoinAppend(xs[1..], ys, sep);
    }
  }

  lemma {:induction false} PiecesHoldNoSeparator(s: string, sep: char)
    ensures forall i :: 0 <= i < |Split(s, sep)| ==> sep !in Split(s, sep)[i]
  {
    if s != "" {
      PiecesHoldNoSeparator(s[1..], sep);
      var rest := Split(s[1..], sep);
      assert forall i :: 1 <= i < |rest| ==> rest[1..][i - 1] == rest[i];
    }
  }

  lemma {:induction false} SplitJoin(parts: seq<string>, sep: char)
    requires |parts| > 0
    requires forall i :: 0 <= i < |parts| ==> sep !in parts[i]
    ensures Split(Join(parts, sep), sep) == parts
  {
    SplitPlain(parts[0], sep);
    if |parts| > 1 {
      SplitJoin(parts[1..], sep);
      SplitAppend(parts[0], Join(parts[1..], sep), sep);
      assert parts == [parts[0]] + parts[1..];
    }
  }

  lemma SplitFirst(c: char, t: string, sep: char)
    ensures c == sep ==> Split([c] + t, sep) == [""] + Split(t, sep)
    ensures c != sep ==> Split([c] + t, sep) == [[c] + Split(t, sep)[0]] + Split(t, sep)[1..]
  {
    assert ([c] + t)[1..] == t;
  }

  lemma FirstPieceIsPrefix(t: string, sep: char)
    ensures Split(t, sep)[0] <= t
  {
    if t != "" {
      SplitFirst(t[0], t[1..], sep);
      assert t == [t[0]] + t[1..];
      FirstPieceIsPrefix(t[1..], sep);
    }
  }

  /** `s` is `prefix` itself or continues it with a separator: the string-level
      test behind both the path rule and the secret rule. */
  predicate ContinuesAt(prefix: string, s: string, sep: char) {
    s == prefix || (|prefix| < |s| && prefix <= s && s[|prefix|] == sep)
  }

  /** The string-level test means exactly that every piece of `prefix` is, in
      order, a leading piece of `s`. */
  lemma ContinuesAtIsPiecePrefix(prefix: string, s: string, sep: char)
    ensures ContinuesAt(prefix, s, sep) <==> Split(prefix, sep) <= Split(s, sep)
  {
    hide Split;
    if ContinuesAt(prefix, s, sep) && s != prefix {
      var tail := s[|prefix| + 1..];
      assert s == prefix + [sep] + tail;
      SplitAppend(prefix, tail, sep);
    }
    if Split(prefix, sep) <= Split(s, sep) {
      LeadingPiecesContinue(prefix, s, sep);
    }
  }

  lemma LeadingPiecesContinue(prefix: string, s: string, sep: char)
    requires Split(prefix, sep) <= Split(s, sep)
    ensures ContinuesAt(prefix, s, sep)
  {
    hide Split, Join;
    var ps, ss := Split(prefix, sep), Split(s, sep);
    JoinSplit(prefix, sep);
    JoinSplit(s, sep);
    var rest := ss[|ps|..];
    assert ss == ps + rest;
    if rest != [] {
      JoinAppend(ps, rest, sep);
      assert s == prefix + [sep] + Join(rest, sep);
    } else {
      assert ss == ps;
    }
  }

  /** `s` is some non-empty text, a separator, and then `tail`. */
  predicate EndsAfter(tail: string, s: string, sep: char) {
    && |s| > |tail| + 1
    && s[|s| - |tail|..] == tail
    && s[|s| - |tail| - 1] == sep
  }

  /** The pieces of `tail` end `pieces`, and what they leave over is not a lone empty
      piece. */
  predicate PieceTail(tail: seq<string>, pieces: seq<string>) {
    && |tail| < |pieces| && pieces[|pieces| - |tail|..] == tail
    && pieces[..|pieces| - |tail|] != [""]
  }

  /** The suffix counterpart: the pieces of `tail` are a proper tail of the
      pieces of `s`, and what they leave over is not a lone empty piece. */
  lemma EndsAfterIsPieceTail(tail: string, s: string, sep: char)
    ensures EndsAfter(tail, s, sep) <==> PieceTail(Split(tail, sep), Split(s, sep))
  {
    hide Split, PieceTail, EndsAfter;
    if EndsAfter(tail, s, sep) {
      EndLeavesTail(tail, s, sep);
    }
    if PieceTail(Split(tail, sep), Split(s, sep)) {
      TailLeavesEnd(tail, s, sep);
    }
  }

  lemma EndLeavesTail(tail: string, s: string, sep: char)
    requires EndsAfter(tail, s, sep)
    ensures PieceTail(Split(tail, sep), Split(s, sep))
  {
    hide Split;
    var head := s[..|s| - |tail| - 1];
    assert s == head + [sep] + tail;
    SplitAppend(head, tail, sep);
    JoinSplit(head, sep);
    var ts, ss := Split(tail, sep), Split(s, sep);
    assert ss[|ss| - |ts|..] == ts;
    assert ss[..|ss| - |ts|] == Split(head, sep);
  }

  lemma TailLeavesEnd(tail: string, s: string, sep: char)
    requires PieceTail(Split(tail, sep), Split(s, sep))
    ensures EndsAfter(tail, s, sep)
  {
    hide Split;
    var ts, ss := Split(tail, sep), Split(s, sep);
    var heads := ss[..|ss| - |ts|];
    assert ss == heads + ts;
    JoinAppend(heads, ts, sep);
    JoinSplit(s, sep);
    JoinSplit(tail, sep);
    assert s == Join(heads, sep) + [sep] + tail;
    assert heads == [heads[0]] + heads[1..];
  }

  /** ASCII case folding, the only folding the runtime relies on. */
  function LowerChar(c: char): (r: char) {
    if 'A' <= c <= 'Z' then ((c as int) - ('A' as int) + ('a' as int)) as char else c
  }

  function Lower(s: string): (r: string)
    ensures |r| == |s|
    ensures forall i :: 0 <= i < |s| ==> r[i] == LowerChar(s[i])
  {
    seq(|s|, i requires 0 <= i < |s| => LowerChar(s[i]))
  }
}
