/** The one URL parser that both the matcher and the plain-http policy use: a
    `scheme://authority/path` grammar in the manner of section 3 of RFC 3986, with
    the leniencies that matter to them. */
module Urls {
  import opened Wrappers
  import opened Text
  import DotSegments

  datatype Url = Url(scheme: string, host: string, port: Option<nat>, path: string)

  /** Where `c` first stands in `s`, or the length of `s`. */
  function IndexOf(s: string, c: char): (i: nat)
    ensures i <= |s|
    ensures forall k :: 0 <= k < i ==> s[k] != c
    ensures i < |s| ==> s[i] == c
  {
    if s == "" || s[0] == c then 0 else 1 + IndexOf(s[1..], c)
  }

  function AfterLast(s: string, c: char): string {
    var i := IndexOf(s, c);
    if i == |s| then s else AfterLast(s[i + 1..], c)
  }

  function TrimBlanks(s: string): string {
    if s != "" && s[0] <= ' ' then TrimBlanks(s[1..]) else s
  }

  predicate EndsAuthority(c: char) {
    c == '/' || c == '\\' || c == '?' || c == '#'
  }

  /** The text up to the first authority terminator. */
  function Authority(s: string): (a: string)
    ensures a <= s
    ensures forall i :: 0 <= i < |a| ==> !EndsAuthority(a[i])
  {
    if s == "" || EndsAuthority(s[0]) then "" else [s[0]] + Authority(s[1..])
  }

  /** The path after the authority: up to a query or fragment, `\` read as `/`,
      dot segments resolved, and never empty. */
  function PathOf(s: string): string {
    var raw := s[..if IndexOf(s, '?') < IndexOf(s, '#') then IndexOf(s, '?') else IndexOf(s, '#')];
    var path := seq(|raw|, i requires 0 <= i < |raw| => if raw[i] == '\\' then '/' else raw[i]);
    DotSegments.Resolve(if path == "" then path else path[1..])
  }

  predicate IsDigit(c: char) {
    '0' <= c <= '9'
  }

  predicate AllDigits(s: string) {
    forall i :: 0 <= i < |s| ==> IsDigit(s[i])
  }

  function NumberOf(s: string): nat
    requires AllDigits(s)
  {
    if s == "" then 0 else 10 * NumberOf(s[..|s| - 1]) + (s[|s| - 1] as int - '0' as int)
  }

  /** Port `None` is the scheme's own default. */
  function ParsePort(tail: string): Option<Option<nat>> {
    if tail == "" || tail == ":" then Some(None)
    else if tail[0] != ':' || !AllDigits(tail[1..]) || NumberOf(tail[1..]) > 65535 then None
    else Some(Some(NumberOf(tail[1..])))
  }

  predicate IsHostChar(c: char) {
    c > ' ' && c as int != 127 && c !in "#%/:<>?@[\\]^|"
  }

  predicate IsName(host: string) {
    host != "" && forall i :: 0 <= i < |host| ==> IsHostChar(host[i])
  }

  predicate IsBracketed(host: string) {
    && |host| > 2 && host[0] == '[' && host[|host| - 1] == ']'
    && forall i :: 1 <= i < |host| - 1 ==> host[i] in "0123456789abcdefABCDEF:."
  }

  /** Host and port, after any userinfo. */
  function ParseAuthority(authority: string): Option<(string, Option<nat>)> {
    var rest := AfterLast(authority, '@');
    var end := if rest != "" && rest[0] == '[' then IndexOf(rest, ']') + 1 else IndexOf(rest, ':');
    if end > |rest| then None
    else
      var host, port := rest[..end], ParsePort(rest[end..]);
      if port.None? || !(IsName(host) || IsBracketed(host)) then None
      else Some((Lower(host), port.value))
  }

  predicate IsScheme(s: string) {
    && s != "" && 'a' <= s[0] <= 'z'
    && forall i :: 0 <= i < |s| ==> 'a' <= s[i] <= 'z' || IsDigit(s[i]) || s[i] in "+-."
  }

  function DefaultPort(scheme: string): Option<nat> {
    if scheme == "https" then Some(443) else if scheme == "http" then Some(80) else None
  }

  /** The scheme, and what follows its `://`. */
  function Opened(text: string): Option<(string, string)> {
    var t := TrimBlanks(text);
    var i := IndexOf(t, ':');
    var scheme := Lower(t[..i]);
    if "://" <= t[i..] && IsScheme(scheme) then Some((scheme, t[i + 3..])) else None
  }

  function Parse(text: string): Option<Url> {
    var start := Opened(text);
    if start.None? then None
    else
      var (scheme, rest) := start.value;
      match ParseAuthority(Authority(rest))
      case None => None
      case Some((host, port)) =>
        Some(Url(scheme, host, if port.Some? then port else DefaultPort(scheme), PathOf(rest[|Authority(rest)|..])))
  }

  /** A dotted quad of `127.0.0.0/8`, `localhost`, or the IPv6 loopback. */
  predicate IsLoopback(host: string) {
    || host == "localhost"
    || host == "[::1]"
    || IsLoopbackQuad(Split(host, '.'))
  }

  predicate IsLoopbackQuad(labels: seq<string>) {
    && |labels| == 4 && labels[0] == "127"
    && forall i :: 0 <= i < 4 ==> 1 <= |labels[i]| <= 3 && AllDigits(labels[i]) && NumberOf(labels[i]) < 256
  }

  /** A parsed host is in lower case already. */
  lemma ParsedHostIsLower(text: string)
    requires Parse(text).Some?
    ensures Lower(Parse(text).value.host) == Parse(text).value.host
  {
    hide Authority, PathOf, AfterLast, IndexOf, ParsePort, IsName, IsBracketed, Opened;
  }

  /** A parsed path is rooted and keeps no dot segment, literal or encoded. */
  lemma ParsedPathIsSettled(text: string)
    requires Parse(text).Some?
    ensures Parse(text).value.path != "" && Parse(text).value.path[0] == '/'
    ensures DotSegments.NoDots(Split(Parse(text).value.path, '/'), DotSegments.DECODED)
  {
    hide Authority, ParseAuthority, Opened, IndexOf, Split;
    var rest := Opened(text).value.1;
    PathIsSettled(rest[|Authority(rest)|..]);
  }

  lemma PathIsSettled(s: string)
    ensures PathOf(s) != "" && PathOf(s)[0] == '/'
    ensures DotSegments.NoDots(Split(PathOf(s), '/'), DotSegments.DECODED)
  {
    hide IndexOf, Split, DotSegments.Resolve;
    var raw := s[..if IndexOf(s, '?') < IndexOf(s, '#') then IndexOf(s, '?') else IndexOf(s, '#')];
    var path := seq(|raw|, i requires 0 <= i < |raw| => if raw[i] == '\\' then '/' else raw[i]);
    DotSegments.ResolvedHasNoDots(if path == "" then path else path[1..]);
  }

  // ----- the wildcard placeholder -----

  const WILDCARD := "*."
  const PLACEHOLDER := "__wildcard__."

  /** The policy normalisation: a wildcard label right after a scheme becomes the
      placeholder label, wherever it stands. */
  function ReplaceWildcards(s: string): string {
    if s == "" then ""
    else if "://*." <= s then "://" + PLACEHOLDER + ReplaceWildcards(s[5..])
    else [s[0]] + ReplaceWildcards(s[1..])
  }

  lemma ReplaceStep(s: string)
    requires s != "" && !("://*." <= s)
    ensures ReplaceWildcards(s) == [s[0]] + ReplaceWildcards(s[1..])
  {
  }

  lemma {:induction false} ReplaceAfterText(a: string, b: string)
    requires ':' !in a
    ensures ReplaceWildcards(a + b) == a + ReplaceWildcards(b)
  {
    if a == "" {
      assert a + b == b;
    } else {
      var s := a + b;
      assert s[0] == a[0] && s[1..] == a[1..] + b;
      ReplaceStep(s);
      hide ReplaceWildcards;
      ReplaceAfterText(a[1..], b);
      assert a == [a[0]] + a[1..];
    }
  }

  /** Replacing leaves everything before the first colon. */
  lemma ReplaceKeepsScheme(s: string)
    ensures var i := IndexOf(s, ':');
            ReplaceWildcards(s) == s[..i] + ReplaceWildcards(s[i..])
  {
    hide ReplaceWildcards;
    var i := IndexOf(s, ':');
    assert s == s[..i] + s[i..];
    ReplaceAfterText(s[..i], s[i..]);
  }

  lemma {:induction false} ReplaceKeepsBlanks(s: string)
    ensures TrimBlanks(ReplaceWildcards(s)) == ReplaceWildcards(TrimBlanks(s))
  {
    if s != "" && s[0] <= ' ' {
      ReplaceStep(s);
      ReplaceKeepsBlanks(s[1..]);
      assert ([s[0]] + ReplaceWildcards(s[1..]))[1..] == ReplaceWildcards(s[1..]);
    }
  }

  /** After the scheme, only a wildcard label is rewritten at the front. */
  function ReplacedRest(rest: string): string {
    if WILDCARD <= rest then PLACEHOLDER + ReplaceWildcards(rest[2..]) else ReplaceWildcards(rest)
  }

  lemma PrefixAfter(a: string, b: string, s: string)
    ensures a + b <= a + s ==> b <= s
  {
    assert forall i :: 0 <= i < |b| ==> (a + b)[|a| + i] == b[i];
    assert forall i :: 0 <= i < |s| ==> (a + s)[|a| + i] == s[i];
  }

  lemma ReplaceAfterColon(rest: string)
    ensures ReplaceWildcards("://" + rest) == "://" + ReplacedRest(rest)
  {
    var s := "://" + rest;
    assert "://*." == "://" + WILDCARD;
    if WILDCARD <= rest {
      assert s[3..5] == rest[..2];
      assert "://*." <= s && s[5..] == rest[2..];
    } else {
      assert rest == s[3..];
      PrefixAfter("://", WILDCARD, rest);
      ReplaceStep(s);
      assert s[1..] == "//" + rest;
      ReplaceStep(s[1..]);
      assert s[1..][1..] == "/" + rest;
      ReplaceStep("/" + rest);
      assert ("/" + rest)[1..] == rest;
    }
  }

  lemma OpenedReplaced(s: string)
    requires Opened(s).Some?
    ensures var (scheme, rest) := Opened(s).value;
            Opened(ReplaceWildcards(s)) == Some((scheme, ReplacedRest(rest)))
  {
    hide ReplaceWildcards, TrimBlanks, IsScheme, ReplacedRest;
    ReplaceKeepsBlanks(s);
    var t := TrimBlanks(s);
    ReplaceKeepsScheme(t);
    var i := IndexOf(t, ':');
    var rest := t[i + 3..];
    assert t[i..] == "://" + rest;
    ReplaceAfterColon(rest);
    var r := t[..i] + ("://" + ReplacedRest(rest));
    IndexAfter(t[..i], "://" + ReplacedRest(rest), ':');
    assert r[..i] == t[..i] && r[i..] == "://" + ReplacedRest(rest) && r[i + 3..] == ReplacedRest(rest);
  }

  /** No replacement reaches into an authority: the text it rewrites begins at a
      colon that only a slash follows. */
  lemma {:induction false} ReplaceKeepsAuthority(s: string)
    ensures Authority(ReplaceWildcards(s)) == Authority(s)
  {
    if s != "" {
      var r := ReplaceWildcards(s);
      if "://*." <= s {
        assert s[0] == ':' && s[1] == '/' && r[0] == ':' && r[1] == '/';
        assert s[1..][0] == '/' && r[1..][0] == '/';
        assert Authority(s[1..]) == "" && Authority(r[1..]) == "";
      } else if !EndsAuthority(s[0]) {
        ReplaceStep(s);
        ReplaceKeepsAuthority(s[1..]);
        assert r[1..] == ReplaceWildcards(s[1..]);
      }
    }
  }

  lemma {:induction false} IndexAfter(a: string, b: string, c: char)
    requires c !in a
    ensures IndexOf(a + b, c) == |a| + IndexOf(b, c)
  {
    if a == "" {
      assert a + b == b;
    } else {
      assert (a + b)[1..] == a[1..] + b;
      IndexAfter(a[1..], b, c);
    }
  }

  lemma AuthorityAfter(a: string, b: string)
    requires forall i :: 0 <= i < |a| ==> !EndsAuthority(a[i])
    ensures Authority(a + b) == a + Authority(b)
  {
    if a == "" {
      assert a + b == b;
    } else {
      assert (a + b)[1..] == a[1..] + b;
      AuthorityAfter(a[1..], b);
    }
  }

  lemma LastAfter(a: string, b: string, c: char)
    requires c !in a
    ensures c in b ==> AfterLast(a + b, c) == AfterLast(b, c)
    ensures c !in b ==> AfterLast(a + b, c) == a + b
  {
    hide IndexOf;
    IndexAfter(a, b, c);
    var i := IndexOf(b, c);
    if c in b {
      assert (a + b)[|a| + i + 1..] == b[i + 1..];
    }
  }

  predicate PlainPrefix(a: string) {
    && a != "" && IsName(a)
  }

  /** Two authorities that differ only in a plain leading label: unless userinfo
      swallows it, the label is the start of the host, and nothing else differs. */
  lemma HostAfterLabel(a: string, b: string)
    requires PlainPrefix(a)
    ensures '@' in b ==> ParseAuthority(a + b) == ParseAuthority(b)
    ensures '@' !in b ==> ParseAuthority(a + b) == LabelledHost(a, b)
  {
    hide AfterLast, IndexOf, ParsePort;
    LastAfter(a, b, '@');
    if '@' !in b {
      UnbracketedHost(a, b);
    }
  }

  /** What an authority without userinfo means when a plain label precedes it. */
  function LabelledHost(a: string, b: string): Option<(string, Option<nat>)> {
    var i := IndexOf(b, ':');
    var host, port := b[..i], ParsePort(b[i..]);
    if port.None? || (host != "" && !IsName(host)) then None
    else Some((Lower(a + host), port.value))
  }

  lemma UnbracketedHost(a: string, b: string)
    requires PlainPrefix(a) && AfterLast(a + b, '@') == a + b
    ensures ParseAuthority(a + b) == LabelledHost(a, b)
  {
    hide AfterLast, IndexOf, ParsePort;
    var rest, i := a + b, IndexOf(b, ':');
    IndexAfter(a, b, ':');
    assert rest[0] == a[0];
    assert rest[..|a| + i] == a + b[..i] && rest[|a| + i..] == b[i..];
    NameAfterLabel(a, b[..i]);
  }

  lemma NameAfterLabel(a: string, host: string)
    requires PlainPrefix(a)
    ensures IsName(a + host) <==> host == "" || IsName(host)
    ensures !IsBracketed(a + host)
  {
    assert forall k :: 0 <= k < |host| ==> (a + host)[|a| + k] == host[k];
    assert (a + host)[0] == a[0];
  }

  /** A host that does not begin like a loopback name is not one. */
  lemma NotLoopback(host: string)
    requires host != "" && host[0] !in "1[l"
    ensures !IsLoopback(host)
  {
    hide Split, NumberOf;
    FirstPieceIsPrefix(host, '.');
    var first := Split(host, '.')[0];
    assert first != "" ==> host[0] == first[0];
  }

  /** What plain http means to the policy: the host it classifies. */
  function HostOf(rest: string): Option<(string, Option<nat>)> {
    ParseAuthority(Authority(rest))
  }

  /** Rewriting the wildcard leaves the same authority readable, and changes its
      host only from one name that is not loopback to another. */
  lemma ReplacedHost(rest: string)
    ensures HostOf(rest).Some? <==> HostOf(ReplacedRest(rest)).Some?
    ensures HostOf(rest).Some? ==>
              var host, replaced := HostOf(rest).value.0, HostOf(ReplacedRest(rest)).value.0;
              replaced == host || !(IsLoopback(host) || IsLoopback(replaced))
  {
    hide ParseAuthority, ReplaceWildcards, Authority, IsLoopback, LabelledHost;
    if WILDCARD <= rest {
      var x := rest[2..];
      assert rest == WILDCARD + x;
      AuthorityAfter(WILDCARD, x);
      AuthorityAfter(PLACEHOLDER, ReplaceWildcards(x));
      ReplaceKeepsAuthority(x);
      HostAfterLabel(WILDCARD, Authority(x));
      HostAfterLabel(PLACEHOLDER, Authority(x));
      LabelsAreNotLoopback(Authority(x));
    } else {
      ReplaceKeepsAuthority(rest);
    }
  }

  lemma LabelsAreNotLoopback(b: string)
    ensures LabelledHost(WILDCARD, b).Some? <==> LabelledHost(PLACEHOLDER, b).Some?
    ensures LabelledHost(WILDCARD, b).Some? ==>
              && !IsLoopback(LabelledHost(WILDCARD, b).value.0)
              && !IsLoopback(LabelledHost(PLACEHOLDER, b).value.0)
  {
    hide IsLoopback, ParsePort, IsName;
    var host := b[..IndexOf(b, ':')];
    assert Lower(WILDCARD + host)[0] == '*' && Lower(PLACEHOLDER + host)[0] == '_';
    NotLoopback(Lower(WILDCARD + host));
    NotLoopback(Lower(PLACEHOLDER + host));
  }

  lemma PlaceholderHost(x: string)
    ensures HostOf(PLACEHOLDER + x) == HostOf(PLACEHOLDER + ReplaceWildcards(x))
  {
    hide ParseAuthority, ReplaceWildcards, Authority;
    AuthorityAfter(PLACEHOLDER, x);
    AuthorityAfter(PLACEHOLDER, ReplaceWildcards(x));
    ReplaceKeepsAuthority(x);
  }

  lemma OpenedWellKnown(scheme: string, rest: string)
    requires scheme == "http" || scheme == "https"
    ensures Opened(scheme + "://" + rest) == Some((scheme, rest))
  {
    hide IndexOf;
    var t, tail := scheme + "://" + rest, "://" + rest;
    assert t == scheme + tail && t[0] == 'h' && TrimBlanks(t) == t;
    IndexAfter(scheme, tail, ':');
    assert IndexOf(tail, ':') == 0 by { assert tail[0] == ':'; }
    assert t[|scheme|..] == tail && t[|scheme| + 3..] == rest && t[..|scheme|] == scheme;
    assert Lower(scheme) == scheme;
  }

  lemma ReplaceKeepsFirst(s: string)
    ensures ReplaceWildcards(s) == "" <==> s == ""
    ensures s != "" ==> ReplaceWildcards(s)[0] == s[0]
  {
  }

  lemma ReplaceOpensNothing(s: string)
    ensures "://" <= ReplaceWildcards(s) ==> "://" <= s
  {
    if "://" <= ReplaceWildcards(s) && !("://*." <= s) {
      ReplaceStep(s);
      assert ReplaceWildcards(s)[1..] == ReplaceWildcards(s[1..]);
      ReplaceStep(s[1..]);
      assert ReplaceWildcards(s[1..])[1..] == ReplaceWildcards(s[1..][1..]);
      ReplaceKeepsFirst(s[1..][1..]);
    }
  }

  lemma UnopenedReplaced(s: string)
    ensures Opened(ReplaceWildcards(s)).Some? ==> Opened(s).Some?
  {
    hide ReplaceWildcards, TrimBlanks, IsScheme;
    ReplaceKeepsBlanks(s);
    var t := TrimBlanks(s);
    ReplaceKeepsScheme(t);
    var i := IndexOf(t, ':');
    var tail := ReplaceWildcards(t[i..]);
    var r := t[..i] + tail;
    IndexAfter(t[..i], tail, ':');
    ReplaceOpensNothing(t[i..]);
    ReplaceKeepsFirst(t[i..]);
    assert r[..i] == t[..i] && r[i..] == tail;
  }

  /** The parts of a parsed URL that the policy looks at. */
  lemma ParseIsOpenedHost(text: string)
    ensures Parse(text).Some? <==> Opened(text).Some? && HostOf(Opened(text).value.1).Some?
    ensures Parse(text).Some? ==>
              && Parse(text).value.scheme == Opened(text).value.0
              && Parse(text).value.host == HostOf(Opened(text).value.1).value.0
  {
    hide Opened, ParseAuthority, Authority, PathOf;
  }
}
