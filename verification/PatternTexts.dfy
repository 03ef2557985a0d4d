/** What a pattern grants, read off its own text. */
module PatternTexts {
  import opened Wrappers
  import opened Text
  import opened PercentPath
  import opened Urls
  import opened UrlMatchers
  import opened NetPermissions

  /** The matcher of one pattern. */
  function Alone(pattern: string, allowHttp: bool): UrlMatcher {
    UrlMatcher(ParsedOf([pattern]), [pattern], allowHttp)
  }

  function Stars(n: nat): string {
    if n == 0 then "" else Stars(n - 1) + "/*"
  }

  /** Trimming takes off every trailing path wildcard and nothing else. */
  lemma {:induction false} TrimmedExactly(pattern: string) returns (n: nat)
    ensures pattern == Trimmed(pattern) + Stars(n)
    ensures !(|Trimmed(pattern)| >= 2 && Trimmed(pattern)[|Trimmed(pattern)| - 2..] == "/*")
  {
    if |pattern| >= 2 && pattern[|pattern| - 2..] == "/*" {
      var m := TrimmedExactly(pattern[..|pattern| - 2]);
      n := m + 1;
      assert pattern == pattern[..|pattern| - 2] + "/*";
    } else {
      n := 0;
    }
  }

  /** The pattern names one label and a suffix, in the one spelling that counts. */
  predicate IsWildcard(trimmed: string) {
    "https://*." <= trimmed || "http://*." <= trimmed
  }

  /** `url` has a scheme the matcher lets through, its path loses nothing by decoding,
      and it is of `granted`'s scheme and port, with `granted`'s segments in front. */
  predicate WithinPath(granted: Url, url: Url, allowHttp: bool) {
    && (url.scheme == "https" || (allowHttp && url.scheme == "http"))
    && Separators(Decode(url.path)) == Separators(url.path)
    && granted.scheme == url.scheme && granted.port == url.port
    && (granted.path == "/" || Split(granted.path, '/') <= Split(url.path, '/'))
  }

  /** At least one label, not empty if it is the only one, stands before those of `name`. */
  ghost predicate IsUnder(host: string, name: string) {
    exists front :: front != [] && front != [""] && Split(host, '.') == front + Split(name, '.')
  }

  lemma AloneHolds(pattern: string)
    ensures ParsedOf([pattern]) == if ParsePattern(pattern).Some? then [ParsePattern(pattern).value] else []
  {
    hide ParsePattern;
    assert [pattern][..0] == [];
  }

  lemma AloneAllows(pattern: string, allowHttp: bool, text: string)
    ensures IsAllowed(Alone(pattern, allowHttp), text) <==>
            && Parse(text).Some? && ParsePattern(pattern).Some?
            && (Parse(text).value.scheme == "https" || (allowHttp && Parse(text).value.scheme == "http"))
            && Separators(Decode(Parse(text).value.path)) == Separators(Parse(text).value.path)
            && Contained(ParsePattern(pattern).value, Parse(text).value)
  {
    hide Parse, ParsePattern, Contained, ParsedOf, ContainsEncodedSeparator, Separators, Decode;
    AloneHolds(pattern);
    AllowedExactlyWhenContained(Alone(pattern, allowHttp), text);
    if Parse(text).Some? {
      DecodingAddsSeparatorsExactlyWhen(Parse(text).value.path);
    }
  }

  /** A pattern that is no wildcard allows exactly the URLs of its own scheme, host and
      port whose path segments begin with its own. */
  lemma PlainPatternGrants(pattern: string, allowHttp: bool, text: string)
    requires !IsWildcard(Trimmed(pattern))
    ensures IsAllowed(Alone(pattern, allowHttp), text) <==>
            && Parse(text).Some? && Parse(Trimmed(pattern)).Some?
            && Parse(Trimmed(pattern)).value.host == Parse(text).value.host
            && WithinPath(Parse(Trimmed(pattern)).value, Parse(text).value, allowHttp)
  {
    hide Parse, Trimmed, Split, Separators, Decode;
    AloneAllows(pattern, allowHttp, text);
    var t := Trimmed(pattern);
    if Parse(text).Some? && Parse(t).Some? {
      ParsedHostIsLower(text);
      ParsedHostIsLower(t);
      ParsedPathIsSettled(t);
    }
  }

  /** A wildcard pattern is read as the pattern without its first label, its host as a
      suffix. */
  lemma WildcardReads(pattern: string, scheme: string, rest: string)
    requires scheme == "http" || scheme == "https"
    requires Trimmed(pattern) == scheme + "://*." + rest
    requires '@' !in rest && rest != "" && rest[0] !in "[/\\?#:"
    ensures ParsePattern(pattern).Some? <==> Parse(scheme + "://" + rest).Some?
    ensures ParsePattern(pattern).Some? ==>
              var granted := Parse(scheme + "://" + rest).value;
              ParsePattern(pattern).value ==
                ParsedPattern(scheme, WildcardSuffix(granted.host), granted.port, granted.path)
  {
    hide Parse, Trimmed, Authority, ParseAuthority, PathOf, Normalized;
    var n := scheme + "://" + (PLACEHOLDER + rest);
    NormalizedTo(scheme, rest);
    OpenedWellKnown(scheme, rest);
    OpenedWellKnown(scheme, PLACEHOLDER + rest);
    LabelledAuthority(rest);
    ParsePair(scheme, rest);
    ParsedPathIsRooted(scheme + "://" + rest);
  }

  lemma NormalizedTo(scheme: string, rest: string)
    requires scheme == "http" || scheme == "https"
    ensures Normalized(scheme + "://*." + rest) == (scheme + "://" + (PLACEHOLDER + rest), true)
  {
    var t := scheme + "://*." + rest;
    if scheme == "https" {
      assert t == "https://*." + rest && t[10..] == rest;
      assert "https://" + PLACEHOLDER + rest == "https" + "://" + (PLACEHOLDER + rest);
    } else {
      assert t == "http://*." + rest && t[9..] == rest && t[4] == ':';
      assert "http://" + PLACEHOLDER + rest == "http" + "://" + (PLACEHOLDER + rest);
    }
  }

  lemma ParsedPathIsRooted(text: string)
    ensures Parse(text).Some? ==> Parse(text).value.path != ""
  {
    hide Parse;
    if Parse(text).Some? {
      ParsedPathIsSettled(text);
    }
  }

  /** The placeholder is the front of the host and changes nothing else. */
  lemma LabelledAuthority(rest: string)
    requires '@' !in rest && rest != "" && rest[0] !in "[/\\?#:"
    ensures Authority(PLACEHOLDER + rest) == PLACEHOLDER + Authority(rest)
    ensures ParseAuthority(PLACEHOLDER + Authority(rest)).Some? <==> ParseAuthority(Authority(rest)).Some?
    ensures ParseAuthority(Authority(rest)).Some? ==>
              ParseAuthority(PLACEHOLDER + Authority(rest)) ==
                Some((PLACEHOLDER + ParseAuthority(Authority(rest)).value.0, ParseAuthority(Authority(rest)).value.1))
  {
    hide ParseAuthority, LabelledHost, Authority, EndsAuthority, IsName;
    PlaceholderIsPlain();
    AuthorityAfter(PLACEHOLDER, rest);
    AuthorityStarts(rest);
    HostAfterLabel(PLACEHOLDER, Authority(rest));
    UnlabelledAuthority(Authority(rest));
  }

  lemma PlaceholderIsPlain()
    ensures PlainPrefix(PLACEHOLDER)
    ensures forall i :: 0 <= i < |PLACEHOLDER| ==> !EndsAuthority(PLACEHOLDER[i])
  {
  }

  lemma AuthorityStarts(rest: string)
    requires '@' !in rest && rest != "" && rest[0] !in "[/\\?#:"
    ensures Authority(rest) != "" && Authority(rest)[0] == rest[0] && '@' !in Authority(rest)
    ensures Authority(rest)[0] !in "[:"
  {
  }

  lemma UnlabelledAuthority(b: string)
    requires '@' !in b && b != "" && b[0] !in "[:"
    ensures LabelledHost(PLACEHOLDER, b).Some? <==> ParseAuthority(b).Some?
    ensures ParseAuthority(b).Some? ==>
              LabelledHost(PLACEHOLDER, b) == Some((PLACEHOLDER + ParseAuthority(b).value.0, ParseAuthority(b).value.1))
  {
    hide AfterLast, ParsePort, IsName;
    LastAfter(b, "", '@');
    assert b + "" == b;
    var host := b[..IndexOf(b, ':')];
    assert host != "" && host[0] == b[0];
    assert Lower(PLACEHOLDER + host) == PLACEHOLDER + Lower(host);
  }

  lemma ParsePair(scheme: string, rest: string)
    requires scheme == "http" || scheme == "https"
    requires Authority(PLACEHOLDER + rest) == PLACEHOLDER + Authority(rest)
    requires ParseAuthority(PLACEHOLDER + Authority(rest)).Some? <==> ParseAuthority(Authority(rest)).Some?
    requires ParseAuthority(Authority(rest)).Some? ==>
              ParseAuthority(PLACEHOLDER + Authority(rest)) ==
                Some((PLACEHOLDER + ParseAuthority(Authority(rest)).value.0, ParseAuthority(Authority(rest)).value.1))
    ensures var plain, labelled := Parse(scheme + "://" + rest), Parse(scheme + "://" + (PLACEHOLDER + rest));
            && (labelled.Some? <==> plain.Some?)
            && (plain.Some? ==> plain.value.scheme == scheme
                                && labelled == Some(plain.value.(host := PLACEHOLDER + plain.value.host)))
  {
    hide Authority, ParseAuthority, PathOf, Opened;
    OpenedWellKnown(scheme, rest);
    OpenedWellKnown(scheme, PLACEHOLDER + rest);
    var more := PLACEHOLDER + rest;
    assert more[|PLACEHOLDER + Authority(rest)|..] == rest[|Authority(rest)|..];
  }

  /** So it allows exactly the hosts with at least one label before those of the name it
      gives, of the same scheme and port, whose path segments begin with its own. */
  lemma WildcardPatternGrants(pattern: string, scheme: string, rest: string, allowHttp: bool, text: string)
    requires scheme == "http" || scheme == "https"
    requires Trimmed(pattern) == scheme + "://*." + rest
    requires '@' !in rest && rest != "" && rest[0] !in "[/\\?#:"
    ensures IsAllowed(Alone(pattern, allowHttp), text) <==>
            && Parse(text).Some? && Parse(scheme + "://" + rest).Some?
            && IsUnder(Parse(text).value.host, Parse(scheme + "://" + rest).value.host)
            && WithinPath(Parse(scheme + "://" + rest).value, Parse(text).value, allowHttp)
  {
    hide Parse, Trimmed, Split, Separators, Decode, ParsePattern, IsUnder, LabelsUnder;
    AloneAllows(pattern, allowHttp, text);
    WildcardReads(pattern, scheme, rest);
    var granted := Parse(scheme + "://" + rest);
    if Parse(text).Some? && granted.Some? {
      ParsedHostIsLower(text);
      ParsedHostIsLower(scheme + "://" + rest);
      UnderIsLabelsUnder(Parse(text).value.host, granted.value.host);
      ParsedScheme(scheme, rest);
    }
  }

  lemma ParsedScheme(scheme: string, rest: string)
    requires scheme == "http" || scheme == "https"
    ensures Parse(scheme + "://" + rest).Some? ==> Parse(scheme + "://" + rest).value.scheme == scheme
  {
    hide Opened, Authority, ParseAuthority, PathOf;
    OpenedWellKnown(scheme, rest);
  }

  lemma UnderIsLabelsUnder(host: string, name: string)
    ensures IsUnder(host, name) <==> LabelsUnder(name, host)
  {
    hide Split;
    var ts, hs := Split(name, '.'), Split(host, '.');
    if LabelsUnder(name, host) {
      var front := hs[..|hs| - |ts|];
      assert hs == front + ts;
    }
    if IsUnder(host, name) {
      var front :| front != [] && front != [""] && hs == front + ts;
      assert hs[..|hs| - |ts|] == front && hs[|hs| - |ts|..] == ts;
    }
  }

  /** A list allows what its patterns allow one by one, and nothing more. */
  lemma ListAllowsExactlyWhen(patterns: seq<string>, allowHttp: bool, text: string)
    ensures IsAllowed(UrlMatcher(ParsedOf(patterns), patterns, allowHttp), text) <==>
            exists p :: p in patterns && IsAllowed(Alone(p, allowHttp), text)
  {
    hide Parse, ParsePattern, Matches, ParsedOf, ContainsEncodedSeparator;
    forall p: ParsedPattern ensures p in ParsedOf(patterns) <==> exists raw :: raw in patterns && ParsePattern(raw) == Some(p) {
      ParsedOfHoldsExactly(patterns, p);
    }
    forall raw: string ensures ParsedOf([raw]) == if ParsePattern(raw).Some? then [ParsePattern(raw).value] else [] {
      AloneHolds(raw);
    }
    if IsAllowed(UrlMatcher(ParsedOf(patterns), patterns, allowHttp), text) {
      var p :| p in ParsedOf(patterns) && Matches(p, Parse(text).value);
      var raw :| raw in patterns && ParsePattern(raw) == Some(p);
      assert IsAllowed(Alone(raw, allowHttp), text);
    }
    if raw :| raw in patterns && IsAllowed(Alone(raw, allowHttp), text) {
      assert ParsePattern(raw).value in ParsedOf(patterns);
    }
  }

  /** What one declared pattern adds to an extension's reach. */
  predicate Adds(pattern: string, ceiling: seq<string>, text: string) {
    && (ceiling == [] || pattern in ceiling)
    && IsAllowed(Alone(pattern, true), text)
    && (|| Parse(text).value.scheme == "https"
        || (IsLoopback(Parse(text).value.host) && !IsWildcard(Trimmed(pattern))))
  }

  /** An extension reaches exactly what its declared patterns allow that the operator's
      list, if there is one, contains: over https, or over plain http to a loopback host
      that a pattern without wildcard names. */
  lemma ReachExactlyWhen(declared: seq<string>, operator: UrlMatcher, text: string)
    requires declared != []
    ensures IsAllowed(Effective(declared, operator), text) <==>
            exists pattern :: pattern in declared && Adds(pattern, operator.raw, text)
  {
    hide Parse, Effective, ParsePattern, Grants, Adds, ContainsEncodedSeparator;
    EffectiveAllowsExactlyWhen(declared, operator, text);
    forall pattern
      ensures Adds(pattern, operator.raw, text) <==>
              && Parse(text).Some? && !ContainsEncodedSeparator(Parse(text).value.path)
              && Grants(pattern, operator.raw, Parse(text).value)
    {
      AddsIsGrants(pattern, operator.raw, text);
    }
  }

  lemma AddsIsGrants(pattern: string, ceiling: seq<string>, text: string)
    ensures Adds(pattern, ceiling, text) <==>
            && Parse(text).Some? && !ContainsEncodedSeparator(Parse(text).value.path)
            && Grants(pattern, ceiling, Parse(text).value)
  {
    hide Parse, ParsePattern, PathCovers, ContainsEncodedSeparator, IsLoopback, Trimmed;
    AloneHolds(pattern);
    if Parse(text).Some? && ParsePattern(pattern).Some? {
      ParsedHostIsLower(text);
      RuleIsExactUnlessWildcard(pattern);
      if ParsePattern(pattern).value.hostRule.Exact? {
        ParsedRuleIsLower(pattern);
      }
    }
  }

  lemma RuleIsExactUnlessWildcard(pattern: string)
    requires ParsePattern(pattern).Some?
    ensures ParsePattern(pattern).value.hostRule.Exact? <==> !IsWildcard(Trimmed(pattern))
  {
    hide Parse, Trimmed;
  }
}
