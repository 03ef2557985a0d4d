/** Which URLs one extension may reach: its declaration, under the operator's
    ceiling, with plain http kept to loopback. */
module NetPermissions {
  import opened Wrappers
  import opened Text
  import opened Urls
  import opened PercentPath
  import opened UrlMatchers
  import DotSegments

  datatype HttpClass = Loopback | Public | Other

  /** Classify a declared pattern with the parser the matcher uses. */
  function Classify(pattern: string): HttpClass {
    match Parse(ReplaceWildcards(Trimmed(pattern)))
    case None => Other
    case Some(url) =>
      if url.scheme != "http" then Other
      else if IsLoopback(url.host) then Loopback
      else Public
  }

  /** No list at all is no ceiling. */
  predicate Within(pattern: string, ceiling: seq<string>) {
    ceiling == [] || pattern in ceiling
  }

  predicate Survives(pattern: string, ceiling: seq<string>) {
    Within(pattern, ceiling) && Classify(pattern) != Public
  }

  function Surviving(declared: seq<string>, ceiling: seq<string>): (kept: seq<string>)
    ensures forall p :: p in kept <==> p in declared && Survives(p, ceiling)
  {
    if declared == [] then []
    else
      var n := |declared| - 1;
      var rest := Surviving(declared[..n], ceiling);
      assert declared == declared[..n] + [declared[n]];
      if Survives(declared[n], ceiling) then rest + [declared[n]] else rest
  }

  predicate AnyLoopback(patterns: seq<string>) {
    exists p :: p in patterns && Classify(p) == Loopback
  }

  function Effective(declared: seq<string>, operator: UrlMatcher): UrlMatcher {
    if declared == [] then operator
    else
      var kept := Surviving(declared, operator.raw);
      UrlMatcher(ParsedOf(kept), kept, AnyLoopback(kept))
  }

  /** The declared patterns the ceiling contains. */
  method UnderCeiling(declared: seq<string>, ceiling: seq<string>) returns (within: seq<string>)
    ensures Surviving(within, []) == Surviving(declared, ceiling)
  {
    within := [];
    for i := 0 to |declared|
      invariant Surviving(within, []) == Surviving(declared[..i], ceiling)
    {
      assert declared[..i + 1][..i] == declared[..i];
      if Within(declared[i], ceiling) {
        assert (within + [declared[i]])[..|within|] == within;
        within := within + [declared[i]];
      }
    }
    assert declared[..|declared|] == declared;
  }

  lemma SurvivingNothing()
    ensures Surviving([], []) == [] && !AnyLoopback([])
  {
  }

  lemma SurvivingStep(patterns: seq<string>, i: nat, kept: seq<string>)
    requires i < |patterns|
    ensures Surviving(patterns[..i + 1], []) ==
              Surviving(patterns[..i], []) + if Classify(patterns[i]) != Public then [patterns[i]] else []
    ensures AnyLoopback(kept + [patterns[i]]) <==> AnyLoopback(kept) || Classify(patterns[i]) == Loopback
  {
    hide Classify;
    assert patterns[..i + 1][..i] == patterns[..i];
    if p :| p in kept && Classify(p) == Loopback {
      assert p in kept + [patterns[i]];
    }
    assert patterns[i] in kept + [patterns[i]];
  }

  method EffectiveUrlMatcher(declared: seq<string>, operator: UrlMatcher) returns (m: UrlMatcher)
    ensures m == Effective(declared, operator)
  {
    hide Classify, Surviving, AnyLoopback, ParsedOf;
    if declared == [] {
      return operator;
    }
    var patterns := UnderCeiling(declared, operator.raw);
    var kept: seq<string>, allowLoopbackHttp := [], false;
    SurvivingNothing();
    for i := 0 to |patterns|
      invariant kept == Surviving(patterns[..i], [])
      invariant allowLoopbackHttp == AnyLoopback(kept)
    {
      SurvivingStep(patterns, i, kept);
      match Classify(patterns[i]) {
        case Loopback =>
          allowLoopbackHttp := true;
          kept := kept + [patterns[i]];
        case Public =>
        case Other =>
          kept := kept + [patterns[i]];
      }
    }
    assert patterns[..|patterns|] == patterns;
    m := FromPatterns(kept);
    m := m.(allowHttp := allowLoopbackHttp);
  }

  // ----- the policy and the matcher agree -----

  /** The policy and the matcher normalise a wildcard differently, yet read the same
      scheme, agree on whether the pattern parses, and can only disagree about the
      host when neither host is loopback. */
  lemma PolicySeesTheMatchersHost(pattern: string)
    ensures var matched := Parse(Normalized(Trimmed(pattern)).0);
            var judged := Parse(ReplaceWildcards(Trimmed(pattern)));
            && (matched.Some? <==> judged.Some?)
            && (matched.Some? ==>
                  && judged.value.scheme == matched.value.scheme
                  && (judged.value.host == matched.value.host
                      || !(IsLoopback(matched.value.host) || IsLoopback(judged.value.host))))
  {
    hide IsLoopback, ReplaceWildcards, Opened, Parse, HostOf;
    var t := Trimmed(pattern);
    var (n, placeholderUsed) := Normalized(t);
    ParseIsOpenedHost(n);
    ParseIsOpenedHost(ReplaceWildcards(t));
    if placeholderUsed {
      PlaceholderAgrees(t);
    } else {
      UnopenedReplaced(t);
      if Opened(t).Some? {
        OpenedReplaced(t);
        ReplacedHost(Opened(t).value.1);
      }
    }
  }

  /** The matcher's literal rewrite and the policy's reach the same host. */
  lemma PlaceholderAgrees(t: string)
    requires Normalized(t).1
    ensures var matched, judged := Opened(Normalized(t).0), Opened(ReplaceWildcards(t));
            && matched.Some? && judged.Some?
            && judged.value.0 == matched.value.0
            && HostOf(judged.value.1) == HostOf(matched.value.1)
  {
    hide ReplaceWildcards, Opened, HostOf, Normalized;
    var scheme, x := NormalizedShape(t);
    OpenedWellKnown(scheme, WILDCARD + x);
    OpenedWellKnown(scheme, PLACEHOLDER + x);
    OpenedReplaced(t);
    assert (WILDCARD + x)[2..] == x;
    PlaceholderHost(x);
  }

  lemma NormalizedShape(t: string) returns (scheme: string, x: string)
    requires Normalized(t).1
    ensures scheme == "http" || scheme == "https"
    ensures t == scheme + "://" + (WILDCARD + x)
    ensures Normalized(t).0 == scheme + "://" + (PLACEHOLDER + x)
  {
    if "https://*." <= t {
      scheme, x := "https", t[10..];
      assert t == "https://*." + x;
    } else {
      scheme, x := "http", t[9..];
      assert t == "http://*." + x;
    }
    assert "https://" + PLACEHOLDER + x == "https" + "://" + (PLACEHOLDER + x);
    assert "http://" + PLACEHOLDER + x == "http" + "://" + (PLACEHOLDER + x);
  }

  /** So the policy keeps a plain-http pattern exactly when what the matcher will
      enforce is one loopback host, and leaves every other scheme alone. */
  lemma ClassifiedAsEnforced(pattern: string)
    requires ParsePattern(pattern).Some?
    ensures var p := ParsePattern(pattern).value;
            Classify(pattern) ==
              if p.scheme != "http" then Other
              else if p.hostRule.Exact? && IsLoopback(p.hostRule.host) then Loopback
              else Public
  {
    hide IsLoopback, ReplaceWildcards, Parse, Trimmed, Normalized;
    PolicySeesTheMatchersHost(pattern);
    var (n, placeholderUsed) := Normalized(Trimmed(pattern));
    if placeholderUsed {
      assert Parse(n).value.host[0] == '_';
      NotLoopback(Parse(n).value.host);
    }
  }

  // ----- what the effective matcher allows -----

  /** A pattern that the declaration names, the ceiling contains and plain http may
      use grants the URL. */
  predicate Grants(pattern: string, ceiling: seq<string>, url: Url) {
    var p := ParsePattern(pattern);
    && Within(pattern, ceiling)
    && p.Some? && Matches(p.value, url)
    && (url.scheme == "https"
        || (url.scheme == "http" && p.value.hostRule.Exact? && IsLoopback(p.value.hostRule.host)))
  }

  lemma GrantingSurvives(pattern: string, ceiling: seq<string>, url: Url)
    ensures Grants(pattern, ceiling, url) <==>
            && Survives(pattern, ceiling)
            && ParsePattern(pattern).Some? && Matches(ParsePattern(pattern).value, url)
            && (url.scheme == "https" || url.scheme == "http")
    ensures Grants(pattern, ceiling, url) && url.scheme == "http" ==> Classify(pattern) == Loopback
  {
    hide IsLoopback, ParsePattern, Classify, HostMatches, PathCovers;
    if ParsePattern(pattern).Some? {
      ClassifiedAsEnforced(pattern);
    }
  }

  /** Exactly what a non-empty declaration reaches. */
  lemma EffectiveAllowsExactlyWhen(declared: seq<string>, operator: UrlMatcher, text: string)
    requires declared != []
    ensures IsAllowed(Effective(declared, operator), text) <==>
            && Parse(text).Some?
            && !ContainsEncodedSeparator(Parse(text).value.path)
            && exists pattern :: pattern in declared && Grants(pattern, operator.raw, Parse(text).value)
  {
    hide Parse, Surviving, ParsedOf, ParsePattern, Matches, Survives, ContainsEncodedSeparator, Grants;
    if Parse(text).Some? {
      var url, kept := Parse(text).value, Surviving(declared, operator.raw);
      var m := Effective(declared, operator);
      forall pattern
        ensures Grants(pattern, operator.raw, url) <==>
                && Survives(pattern, operator.raw)
                && ParsePattern(pattern).Some? && Matches(ParsePattern(pattern).value, url)
                && (url.scheme == "https" || url.scheme == "http")
        ensures Grants(pattern, operator.raw, url) && url.scheme == "http" ==> Classify(pattern) == Loopback
      {
        GrantingSurvives(pattern, operator.raw, url);
      }
      forall p ensures p in m.patterns <==> exists raw :: raw in kept && ParsePattern(raw) == Some(p) {
        ParsedOfHoldsExactly(kept, p);
      }
      if IsAllowed(m, text) {
        var p :| p in m.patterns && Matches(p, url);
        var raw :| raw in kept && ParsePattern(raw) == Some(p);
        assert Grants(raw, operator.raw, url);
      }
      if pattern :| pattern in declared && Grants(pattern, operator.raw, url) {
        assert pattern in kept && ParsePattern(pattern).value in m.patterns;
      }
    }
  }

  /** Plain http reaches loopback and nothing else. */
  lemma PlainHttpIsLoopback(declared: seq<string>, operator: UrlMatcher, text: string)
    requires declared != [] && IsAllowed(Effective(declared, operator), text)
    ensures Parse(text).value.scheme == "https" || IsLoopback(Parse(text).value.host)
  {
    hide Parse, Effective, ParsePattern, IsLoopback, PathCovers, ContainsEncodedSeparator;
    EffectiveAllowsExactlyWhen(declared, operator, text);
    var url := Parse(text).value;
    var pattern :| pattern in declared && Grants(pattern, operator.raw, url);
    ParsedHostIsLower(text);
    if url.scheme != "https" {
      ParsedRuleIsLower(pattern);
    }
  }

  lemma ParsedRuleIsLower(pattern: string)
    requires ParsePattern(pattern).Some? && ParsePattern(pattern).value.hostRule.Exact?
    ensures var host := ParsePattern(pattern).value.hostRule.host; Lower(host) == host
  {
    hide Parse, Normalized, Trimmed;
    ParsedHostIsLower(Normalized(Trimmed(pattern)).0);
  }

  /** The ceiling holds against the operator's own matcher, but for its plain-http
      toggle: of the URLs an extension reaches, the operator's matcher allows exactly
      the https ones, and the http ones only if the operator opted in. */
  lemma OperatorAllowsExactlyWhen(declared: seq<string>, operator: UrlMatcher, text: string)
    requires declared != [] && IsAllowed(Effective(declared, operator), text)
    requires operator.raw != [] && operator.patterns == ParsedOf(operator.raw)
    ensures IsAllowed(operator, text) <==> Parse(text).value.scheme == "https" || operator.allowHttp
  {
    hide Parse, Effective, ParsePattern, Matches, IsLoopback, ContainsEncodedSeparator, ParsedOf;
    EffectiveAllowsExactlyWhen(declared, operator, text);
    var url := Parse(text).value;
    var pattern :| pattern in declared && Grants(pattern, operator.raw, url);
    ParsedOfHoldsExactly(operator.raw, ParsePattern(pattern).value);
  }

  /** When the ceiling or the http rule drops every pattern, nothing is reachable. */
  lemma AllDroppedDeniesAll(declared: seq<string>, operator: UrlMatcher, text: string)
    requires declared != []
    requires forall p :: p in declared ==> !Survives(p, operator.raw)
    ensures !IsAllowed(Effective(declared, operator), text)
  {
    hide Parse, Survives, Grants, IsAllowed, Effective;
    EffectiveAllowsExactlyWhen(declared, operator, text);
    if Parse(text).Some? {
      forall p ensures Grants(p, operator.raw, Parse(text).value) ==> Survives(p, operator.raw) {
        GrantingSurvives(p, operator.raw, Parse(text).value);
      }
    }
  }

  const LOCAL := "http://[::1]/"

  lemma LocalAuthority()
    ensures Authority("[::1]/") == "[::1]"
    ensures ParseAuthority("[::1]") == Some(("[::1]", None))
  {
    AuthorityAfter("[::1]", "/");
    assert "[::1]" + "/" == "[::1]/" && Authority("/") == "";
    LastAfter("[::1]", "", '@');
    assert "[::1]" + "" == "[::1]";
    IndexAfter("[::1", "]", ']');
    assert "[::1" + "]" == "[::1]" && IndexOf("]", ']') == 0;
    assert Lower("[::1]") == "[::1]";
    assert IsBracketed("[::1]");
  }

  lemma RootPath()
    ensures PathOf("/") == "/"
  {
    assert "/"[1..] == "" && DotSegments.Resolve("") == "/";
    assert IndexOf("/", '?') == 1 && IndexOf("/", '#') == 1;
    assert seq(1, i requires 0 <= i < 1 => if "/"[i] == '\\' then '/' else "/"[i]) == "/";
  }

  lemma LocalParses()
    ensures Parse(LOCAL) == Some(Url("http", "[::1]", Some(80), "/"))
    ensures ParsePattern(LOCAL) == Some(ParsedPattern("http", Exact("[::1]"), Some(80), "/"))
  {
    hide Authority, ParseAuthority, PathOf, Opened;
    assert LOCAL == "http" + "://" + "[::1]/";
    OpenedWellKnown("http", "[::1]/");
    LocalAuthority();
    RootPath();
    assert "[::1]/"[|"[::1]"|..] == "/";
    assert Parse(LOCAL) == Some(Url("http", "[::1]", Some(80), "/"));
    assert LOCAL[7] == '[' && "http://*."[7] == '*' && "https://*."[4] == 's';
    assert LOCAL[|LOCAL| - 1] == '/' && Trimmed(LOCAL) == LOCAL;
    assert Normalized(LOCAL) == (LOCAL, false);
  }

  /** The operator's own matcher, without the toggle, refuses a URL its list lets an
      extension reach. */
  lemma OperatorRefusesItsOwnCeiling()
    ensures var operator := UrlMatcher(ParsedOf([LOCAL]), [LOCAL], false);
            IsAllowed(Effective([LOCAL], operator), LOCAL) && !IsAllowed(operator, LOCAL)
  {
    hide Parse, ParsePattern, ParsedOf, Surviving;
    LocalParses();
    var operator := UrlMatcher(ParsedOf([LOCAL]), [LOCAL], false);
    EffectiveAllowsExactlyWhen([LOCAL], operator, LOCAL);
    assert Grants(LOCAL, operator.raw, Parse(LOCAL).value);
  }
}
