/** The strict URL allow-list: what its string tests mean in terms of host labels
    and path segments. */
module UrlMatchers {
  import opened Wrappers
  import opened Text
  import opened Urls
  import opened PercentPath
  import DotSegments

  datatype HostRule = Exact(host: string) | WildcardSuffix(suffix: string)

  datatype ParsedPattern = ParsedPattern(scheme: string, hostRule: HostRule, port: Option<nat>, pathPrefix: string)

  /** `raw` is the list as given; `patterns` the ones of it that parse. */
  datatype UrlMatcher = UrlMatcher(patterns: seq<ParsedPattern>, raw: seq<string>, allowHttp: bool)

  /** The pattern without its trailing path wildcards. */
  function Trimmed(pattern: string): string {
    if |pattern| >= 2 && pattern[|pattern| - 2..] == "/*" then Trimmed(pattern[..|pattern| - 2]) else pattern
  }

  /** The wildcard label becomes a placeholder the parser takes for a name; the
      flag says that it did. Only the exact spelling of a scheme is recognised. */
  function Normalized(trimmed: string): (string, bool) {
    if "https://*." <= trimmed then ("https://" + PLACEHOLDER + trimmed[10..], true)
    else if "http://*." <= trimmed then ("http://" + PLACEHOLDER + trimmed[9..], true)
    else (trimmed, false)
  }

  function ParsePattern(pattern: string): Option<ParsedPattern> {
    var (normalized, placeholderUsed) := Normalized(Trimmed(pattern));
    match Parse(normalized)
    case None => None
    case Some(url) =>
      if placeholderUsed && !(PLACEHOLDER <= url.host) then None
      else
        var rule := if placeholderUsed then WildcardSuffix(url.host[|PLACEHOLDER|..]) else Exact(url.host);
        Some(ParsedPattern(url.scheme, rule, url.port, if url.path == "" then "/" else url.path))
  }

  /** The parsed patterns, in order, without those that do not parse. */
  function ParsedOf(patterns: seq<string>): seq<ParsedPattern> {
    if patterns == [] then []
    else
      var n := |patterns| - 1;
      match ParsePattern(patterns[n])
      case None => ParsedOf(patterns[..n])
      case Some(p) => ParsedOf(patterns[..n]) + [p]
  }

  method FromPatterns(patterns: seq<string>) returns (m: UrlMatcher)
    ensures m == UrlMatcher(ParsedOf(patterns), patterns, false)
  {
    var parsed: seq<ParsedPattern> := [];
    for i := 0 to |patterns|
      invariant parsed == ParsedOf(patterns[..i])
    {
      assert patterns[..i + 1][..i] == patterns[..i];
      match ParsePattern(patterns[i]) {
        case Some(p) => parsed := parsed + [p];
        case None =>
      }
    }
    assert patterns[..|patterns|] == patterns;
    m := UrlMatcher(parsed, patterns, false);
  }

  /** Every unparseable pattern is dropped, and nothing else is. */
  lemma {:induction false} ParsedOfHoldsExactly(patterns: seq<string>, p: ParsedPattern)
    ensures p in ParsedOf(patterns) <==> exists raw :: raw in patterns && ParsePattern(raw) == Some(p)
  {
    hide ParsePattern;
    if patterns != [] {
      var n := |patterns| - 1;
      ParsedOfHoldsExactly(patterns[..n], p);
      assert patterns == patterns[..n] + [patterns[n]];
    }
  }

  /** The wildcard test: what precedes the suffix ends in a dot and is not just it. */
  predicate HostMatches(rule: HostRule, host: string) {
    match rule
    case Exact(h) => Lower(h) == Lower(host)
    case WildcardSuffix(suffix) =>
      var lowerHost, lowerSuffix := Lower(host), Lower(suffix);
      && |lowerSuffix| <= |lowerHost|
      && lowerHost[|lowerHost| - |lowerSuffix|..] == lowerSuffix
      && var prefix := lowerHost[..|lowerHost| - |lowerSuffix|];
         prefix != "" && prefix[|prefix| - 1] == '.' && |prefix| > 1
  }

  predicate Matches(pattern: ParsedPattern, url: Url) {
    && pattern.scheme == url.scheme
    && pattern.port == url.port
    && HostMatches(pattern.hostRule, url.host)
    && PathCovers(pattern.pathPrefix, url.path)
  }

  predicate SchemeAllowed(m: UrlMatcher, scheme: string) {
    scheme == "https" || (m.allowHttp && scheme == "http")
  }

  predicate IsAllowed(m: UrlMatcher, text: string) {
    var url := Parse(text);
    && url.Some?
    && SchemeAllowed(m, url.value.scheme)
    && !ContainsEncodedSeparator(url.value.path)
    && exists p :: p in m.patterns && Matches(p, url.value)
  }

  /** The matcher as a test of one URL. */
  function Verdict(m: UrlMatcher): string -> bool {
    (text: string) => IsAllowed(m, text)
  }

  // ----- what the tests mean -----

  /** The suffix's labels are a proper tail of the host's, and what is left over is
      not a lone empty label. */
  predicate LabelsUnder(suffix: string, host: string) {
    PieceTail(Split(suffix, '.'), Split(host, '.'))
  }

  predicate HostContained(rule: HostRule, host: string) {
    match rule
    case Exact(h) => Lower(h) == Lower(host)
    case WildcardSuffix(suffix) => LabelsUnder(Lower(suffix), Lower(host))
  }

  predicate SegmentsUnder(prefix: string, path: string) {
    prefix == "/" || Split(prefix, '/') <= Split(path, '/')
  }

  /** What a pattern is meant to grant. */
  predicate Contained(pattern: ParsedPattern, url: Url) {
    && pattern.scheme == url.scheme
    && pattern.port == url.port
    && HostContained(pattern.hostRule, url.host)
    && SegmentsUnder(pattern.pathPrefix, url.path)
  }

  lemma HostMatchesIsLabelContainment(rule: HostRule, host: string)
    ensures HostMatches(rule, host) <==> HostContained(rule, host)
  {
    hide Split;
    if rule.WildcardSuffix? {
      EndsAfterIsPieceTail(Lower(rule.suffix), Lower(host), '.');
    }
  }

  lemma MatchesIsContainment(pattern: ParsedPattern, url: Url)
    ensures Matches(pattern, url) <==> Contained(pattern, url)
  {
    hide Split, HostMatches, HostContained, PathCovers;
    HostMatchesIsLabelContainment(pattern.hostRule, url.host);
    PathCoversIsSegmentPrefix(pattern.pathPrefix, url.path);
  }

  /** No neighbouring host or path ever rides on a grant: a URL is allowed exactly
      when it parses, has a permitted scheme and no encoded separator, and lies
      label for label and segment for segment inside some pattern. */
  lemma AllowedExactlyWhenContained(m: UrlMatcher, text: string)
    ensures IsAllowed(m, text) <==>
            && Parse(text).Some?
            && SchemeAllowed(m, Parse(text).value.scheme)
            && !ContainsEncodedSeparator(Parse(text).value.path)
            && exists p :: p in m.patterns && Contained(p, Parse(text).value)
  {
    hide Matches, Contained, Parse;
    if Parse(text).Some? {
      var url := Parse(text).value;
      forall p | p in m.patterns ensures Matches(p, url) <==> Contained(p, url) {
        MatchesIsContainment(p, url);
      }
    }
  }

  /** What a pattern grants is still all a server serves that decodes the path and
      then resolves its dot segments. */
  predicate ServedUnder(pattern: ParsedPattern, url: Url) {
    || pattern.pathPrefix == "/"
    || Split(Decode(pattern.pathPrefix), '/') <= DotSegments.ServerSegments(url.path)
  }

  lemma AllowedStaysUnderItsGrantAtTheServer(m: UrlMatcher, text: string)
    requires IsAllowed(m, text)
    ensures exists p :: p in m.patterns && Matches(p, Parse(text).value) && ServedUnder(p, Parse(text).value)
  {
    hide Parse, Split, Decode, PathCovers, ContainsEncodedSeparator, HostMatches, DotSegments.NoDots, DotSegments.ServerSegments;
    var url := Parse(text).value;
    var p :| p in m.patterns && Matches(p, url);
    ParsedPathIsSettled(text);
    DotSegments.GrantHoldsAtTheServer(p.pathPrefix, url.path);
    assert ServedUnder(p, url);
  }

  /** An https URL used as a pattern allows that URL, unless the matcher reads it as
      a wildcard, trims it, or refuses its path. */
  lemma PatternAllowsItself(text: string)
    requires Parse(text).Some? && Parse(text).value.scheme == "https"
    requires Trimmed(text) == text && !Normalized(text).1
    ensures IsAllowed(UrlMatcher(ParsedOf([text]), [text], false), text) <==>
            !ContainsEncodedSeparator(Parse(text).value.path)
  {
    hide Parse, Trimmed, Normalized, ContainsEncodedSeparator, ParsedOf;
    ParsedPathIsSettled(text);
    NormalizedPlain(text);
    var url := Parse(text).value;
    var p := ParsedPattern(url.scheme, Exact(url.host), url.port, url.path);
    assert ParsePattern(text) == Some(p);
    assert text in [text];
    ParsedOfHoldsExactly([text], p);
    assert Matches(p, url);
  }

  lemma NormalizedPlain(text: string)
    ensures !Normalized(text).1 ==> Normalized(text).0 == text
  {
  }
}
