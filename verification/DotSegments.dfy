/** Dot segments: `.` and `..` between slashes, literal or percent-encoded. The URL
    parser resolves them, and the secret gate refuses them. */
module DotSegments {
  import opened Text
  import opened PercentPath

  /** How a reader of a path sees one segment. */
  type Reading = string -> string

  const LITERALLY: Reading := s => s
  const DECODED: Reading := s => Decode(s)

  predicate IsDots(segment: string) {
    segment == "." || segment == ".."
  }

  predicate NoDots(segments: seq<string>, read: Reading) {
    forall i :: 0 <= i < |segments| ==> !IsDots(read(segments[i]))
  }

  /** One segment on to the ones settled so far: `..` takes the last one back, and
      a final dot segment leaves an empty segment behind. */
  function Push(stack: seq<string>, segment: string, last: bool, read: Reading): seq<string> {
    var s := read(segment);
    var kept :=
      if s == ".." then if stack == [] then [] else stack[..|stack| - 1]
      else if s == "." then stack
      else stack + [segment];
    if last && IsDots(s) then kept + [""] else kept
  }

  function Settle(stack: seq<string>, segments: seq<string>, read: Reading): seq<string>
    decreases segments
  {
    if segments == [] then stack
    else Settle(Push(stack, segments[0], |segments| == 1, read), segments[1..], read)
  }

  /** A rooted path from the text after its first slash. */
  function Resolve(text: string): string {
    var settled := Settle([], Split(text, '/'), DECODED);
    "/" + if settled == [] then "" else Join(settled, '/')
  }

  predicate Plain(segments: seq<string>) {
    forall i :: 0 <= i < |segments| ==> '/' !in segments[i]
  }

  lemma PushHasNoDots(stack: seq<string>, segment: string, last: bool)
    requires NoDots(stack, DECODED) && Plain(stack) && '/' !in segment
    ensures var r := Push(stack, segment, last, DECODED);
            NoDots(r, DECODED) && Plain(r) && (last ==> r != [])
  {
    hide Decode;
    EmptyIsNoDots();
  }

  lemma EmptyIsNoDots()
    ensures !IsDots(Decode(""))
  {
  }

  lemma {:induction false} SettledHasNoDots(stack: seq<string>, segments: seq<string>)
    requires NoDots(stack, DECODED) && Plain(stack) && Plain(segments)
    ensures var r := Settle(stack, segments, DECODED);
            NoDots(r, DECODED) && Plain(r) && (segments != [] ==> r != [])
    decreases segments
  {
    if segments != [] {
      hide Push;
      PushHasNoDots(stack, segments[0], |segments| == 1);
      SettledHasNoDots(Push(stack, segments[0], |segments| == 1, DECODED), segments[1..]);
    }
  }

  /** Where there is nothing to resolve, resolving changes nothing. */
  lemma {:induction false} SettleIsIdentity(stack: seq<string>, segments: seq<string>, read: Reading)
    requires NoDots(segments, read)
    ensures Settle(stack, segments, read) == stack + segments
    decreases segments
  {
    if segments != [] {
      SettleIsIdentity(stack + [segments[0]], segments[1..], read);
      assert segments == [segments[0]] + segments[1..];
    }
  }

  /** A resolved path is rooted and has no dot segment left, in any spelling. */
  lemma ResolvedHasNoDots(text: string)
    ensures Resolve(text) != "" && Resolve(text)[0] == '/'
    ensures NoDots(Split(Resolve(text), '/'), DECODED)
  {
    hide Decode, Split, Settle;
    PiecesHoldNoSeparator(text, '/');
    SettledHasNoDots([], Split(text, '/'));
    var settled := Settle([], Split(text, '/'), DECODED);
    SplitJoin(settled, '/');
    SplitRooted(Join(settled, '/'));
    EmptyIsNoDots();
  }

  lemma SplitRooted(rest: string)
    ensures Split("/" + rest, '/') == [""] + Split(rest, '/')
  {
    assert ("/" + rest)[1..] == rest;
  }

  /** What a server that decodes a path and then resolves its dots looks at. */
  function ServerSegments(path: string): seq<string> {
    Settle([], Split(Decode(path), '/'), LITERALLY)
  }

  /** For a path with no dot segment and no encoded separator that is its own
      segments, each decoded: nothing the matcher compared moves. */
  lemma ServerSeesTheSameSegments(path: string)
    requires !ContainsEncodedSeparator(path) && NoDots(Split(path, '/'), DECODED)
    ensures ServerSegments(path) == DecodeEach(Split(path, '/'))
  {
    DecodeCommutesWithSplit(path, '/');
    SettleIsIdentity([], DecodeEach(Split(path, '/')), LITERALLY);
  }

  /** So the decoded grant still covers what the server serves. */
  lemma GrantHoldsAtTheServer(prefix: string, path: string)
    requires !ContainsEncodedSeparator(path) && NoDots(Split(path, '/'), DECODED)
    requires PathCovers(prefix, path)
    ensures prefix == "/" || Split(Decode(prefix), '/') <= ServerSegments(path)
  {
    hide Split, Decode, Settle, ContainsEncodedSeparator;
    ServerSeesTheSameSegments(path);
    DecodeCommutesWithSplit(path, '/');
    if prefix != "/" {
      CoveredSegmentsSurvive(prefix, path);
    }
  }

  // ----- what resolving does -----

  lemma {:induction false} SettleInTwo(stack: seq<string>, a: seq<string>, b: seq<string>, read: Reading)
    requires b != [] && NoDots(a, read)
    ensures Settle(stack, a + b, read) == Settle(stack + a, b, read)
    decreases a
  {
    if a == [] {
      assert a + b == b && stack + a == stack;
    } else {
      assert (a + b)[0] == a[0] && (a + b)[1..] == a[1..] + b;
      SettleInTwo(stack + [a[0]], a[1..], b, read);
      assert stack + [a[0]] + a[1..] == stack + a;
    }
  }

  /** After names: `..` takes the name before it back, and at the root nothing; `.` is
      dropped; and either of them at the end leaves an empty segment. */
  lemma ResolvingDots(before: seq<string>, dots: string, after: seq<string>, read: Reading)
    requires NoDots(before, read)
    ensures var kept := if before == [] then [] else before[..|before| - 1];
            read(dots) == ".." ==>
              Settle([], before + [dots] + after, read) == if after == [] then kept + [""] else Settle([], kept + after, read)
    ensures read(dots) == "." ==>
              Settle([], before + [dots] + after, read) ==
              if after == [] then before + [""] else Settle([], before + after, read)
  {
    var all := [dots] + after;
    assert before + [dots] + after == before + all;
    SettleInTwo([], before, all, read);
    assert [] + before == before && all[1..] == after;
    assert Settle(before, all, read) == Settle(Push(before, dots, |all| == 1, read), after, read);
    if after != [] {
      var kept := if before == [] then [] else before[..|before| - 1];
      assert NoDots(kept, read);
      SettleInTwo([], kept, after, read);
      SettleInTwo([], before, after, read);
      assert [] + kept == kept;
    }
  }
}
