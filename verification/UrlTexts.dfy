/** What the URL grammar reads in a text put together from known parts. */
module UrlTexts {
  import opened Wrappers
  import opened Text
  import opened PercentPath
  import DotSegments
  import opened Urls

  function Digit(n: nat): char
    requires n < 10
  {
    "0123456789"[n]
  }

  function Decimal(n: nat): string {
    if n < 10 then [Digit(n)] else Decimal(n / 10) + [Digit(n % 10)]
  }

  lemma DigitReads(n: nat)
    requires n < 10
    ensures IsDigit(Digit(n)) && Digit(n) as int - '0' as int == n
  {
  }

  lemma NumberOfMore(s: string, c: char)
    requires AllDigits(s) && IsDigit(c)
    ensures AllDigits(s + [c]) && NumberOf(s + [c]) == 10 * NumberOf(s) + (c as int - '0' as int)
  {
    assert (s + [c])[..|s|] == s;
  }

  lemma {:induction false} DecimalReadsBack(n: nat)
    ensures Decimal(n) != "" && AllDigits(Decimal(n)) && NumberOf(Decimal(n)) == n
  {
    assert AllDigits("") && NumberOf("") == 0;
    hide NumberOf, AllDigits, IsDigit, Digit;
    DigitReads(n % 10);
    if n < 10 {
      NumberOfMore("", Digit(n));
      assert "" + [Digit(n)] == [Digit(n)];
    } else {
      DecimalReadsBack(n / 10);
      NumberOfMore(Decimal(n / 10), Digit(n % 10));
    }
  }

  /** A letter, a digit, a hyphen or a dot. */
  predicate IsPlain(c: char) {
    'a' <= c <= 'z' || 'A' <= c <= 'Z' || '0' <= c <= '9' || c == '-' || c == '.'
  }

  predicate AllPlain(s: string) {
    forall i :: 0 <= i < |s| ==> IsPlain(s[i])
  }

  function PortText(port: Option<nat>): string {
    if port.Some? then ":" + Decimal(port.value) else ""
  }

  /** Nothing, or a text that ends in an `@`. */
  predicate IsUserinfo(user: string) {
    && (user != "" ==> user[|user| - 1] == '@')
    && forall i :: 0 <= i < |user| ==> user[i] !in "/\\?#"
  }

  /** Nothing, or rooted, in settled segments without query, fragment or backslash. */
  predicate IsPlainPath(path: string) {
    && (path != "" ==> path[0] == '/')
    && (forall i :: 0 <= i < |path| ==> path[i] !in "?#\\")
    && forall i :: 0 <= i < |Split(path, '/')| ==> Decode(Split(path, '/')[i]) != "." && Decode(Split(path, '/')[i]) != ".."
  }

  predicate IsTail(tail: string) {
    tail == "" || tail[0] == '?' || tail[0] == '#'
  }

  lemma {:induction false} AfterLastAt(user: string, host: string)
    requires '@' !in host
    ensures AfterLast(user + "@" + host, '@') == host
    decreases |user|
  {
    var s := user + "@" + host;
    if '@' in user {
      var i := IndexOf(user, '@');
      assert s == user + ("@" + host);
      assert s[..i + 1] == user[..i + 1];
      FirstInBoth(user, "@" + host, '@');
      assert s[i + 1..] == user[i + 1..] + "@" + host;
      AfterLastAt(user[i + 1..], host);
    } else {
      assert s == user + ("@" + host);
      IndexAfter(user, "@" + host, '@');
      assert s[|user| + 1..] == host;
      LastAfter(host, "", '@');
      assert host + "" == host;
    }
  }

  lemma {:induction false} FirstInBoth(a: string, b: string, c: char)
    requires c in a
    ensures IndexOf(a + b, c) == IndexOf(a, c)
  {
    if a[0] != c {
      assert (a + b)[1..] == a[1..] + b;
      FirstInBoth(a[1..], b, c);
    }
  }

  lemma PlainIsName(host: string)
    requires host != "" && AllPlain(host)
    ensures IsName(host) && '@' !in host && ':' !in host && host[0] != '['
    ensures forall i :: 0 <= i < |host| ==> !EndsAuthority(host[i])
  {
  }

  lemma PortTextReads(port: Option<nat>)
    requires port.Some? ==> port.value <= 65535
    ensures ParsePort(PortText(port)) == Some(port)
    ensures IndexOf(PortText(port), ':') == 0 && '@' !in PortText(port)
    ensures forall i :: 0 <= i < |PortText(port)| ==> !EndsAuthority(PortText(port)[i])
  {
    if port.Some? {
      DecimalReadsBack(port.value);
      assert PortText(port)[1..] == Decimal(port.value);
    }
  }

  lemma AuthorityReads(user: string, host: string, port: Option<nat>)
    requires IsUserinfo(user) && host != "" && AllPlain(host) && (port.Some? ==> port.value <= 65535)
    ensures ParseAuthority(user + host + PortText(port)) == Some((Lower(host), port))
  {
    hide IsName, PortText;
    PlainIsName(host);
    PortTextReads(port);
    var rest := host + PortText(port);
    WithoutUser(user, rest);
    IndexAfter(host, PortText(port), ':');
    assert user + host + PortText(port) == user + rest;
    assert rest[0] == host[0];
    assert rest[..|host|] == host && rest[|host|..] == PortText(port);
  }

  lemma WithoutUser(user: string, rest: string)
    requires IsUserinfo(user) && '@' !in rest
    ensures AfterLast(user + rest, '@') == rest
  {
    if user == "" {
      assert user + rest == rest && rest + "" == rest;
      LastAfter(rest, "", '@');
    } else {
      assert user + rest == user[..|user| - 1] + "@" + rest;
      AfterLastAt(user[..|user| - 1], rest);
    }
  }

  lemma SettledPathReads(path: string, tail: string)
    requires IsPlainPath(path) && IsTail(tail)
    ensures PathOf(path + tail) == if path == "" then "/" else path
  {
    hide Split, Decode, DotSegments.Resolve;
    IndexAfter(path, tail, '?');
    IndexAfter(path, tail, '#');
    var s := path + tail;
    assert s[..|path|] == path;
    assert seq(|path|, i requires 0 <= i < |path| => if path[i] == '\\' then '/' else path[i]) == path;
    if path == "" {
      EmptyResolves();
    } else {
      NothingToResolve(path);
    }
  }

  lemma EmptyResolves()
    ensures DotSegments.Resolve("") == "/"
  {
    assert Decode("") == "";
    assert DotSegments.Settle([""], [], DotSegments.DECODED) == [""];
  }

  lemma NothingToResolve(path: string)
    requires IsPlainPath(path) && path != ""
    ensures DotSegments.Resolve(path[1..]) == path
  {
    hide Split, Join, Decode, DotSegments.Settle;
    var segments := Split(path[1..], '/');
    DotSegments.SplitRooted(path[1..]);
    assert path == "/" + path[1..];
    assert forall i :: 0 <= i < |segments| ==> segments[i] == Split(path, '/')[i + 1];
    DotSegments.SettleIsIdentity([], segments, DotSegments.DECODED);
    assert [] + segments == segments;
    JoinSplit(path[1..], '/');
  }

  /** Scheme, userinfo, host, port, path, and then query or fragment: the parts come
      back out, the host in lower case, the port with the scheme's default, the empty
      path as a slash, and userinfo, query and fragment dropped. */
  lemma ParseComposed(scheme: string, user: string, host: string, port: Option<nat>, path: string, tail: string)
    requires scheme == "http" || scheme == "https"
    requires IsUserinfo(user) && host != "" && AllPlain(host) && (port.Some? ==> port.value <= 65535)
    requires IsPlainPath(path) && IsTail(tail)
    ensures Parse(scheme + "://" + (user + host + PortText(port) + (path + tail))) ==
            Some(Url(scheme, Lower(host),
                     if port.Some? then port else Some(if scheme == "https" then 443 else 80),
                     if path == "" then "/" else path))
  {
    hide ParseAuthority, PathOf, Opened, IsName, IsPlainPath, PortText;
    var authority, more := user + host + PortText(port), path + tail;
    var rest := authority + more;
    OpenedWellKnown(scheme, rest);
    AuthorityReads(user, host, port);
    PlainIsName(host);
    PortTextReads(port);
    NoTerminator(user, host, PortText(port));
    AuthorityAfter(authority, more);
    StartsPast(path, tail);
    assert authority + "" == authority;
    SettledPathReads(path, tail);
    assert rest[|authority|..] == more;
  }

  lemma NoTerminator(user: string, host: string, port: string)
    requires IsUserinfo(user)
    requires forall i :: 0 <= i < |host| ==> !EndsAuthority(host[i])
    requires forall i :: 0 <= i < |port| ==> !EndsAuthority(port[i])
    ensures forall i :: 0 <= i < |user + host + port| ==> !EndsAuthority((user + host + port)[i])
  {
    var s := user + host + port;
    forall i | 0 <= i < |s| ensures !EndsAuthority(s[i]) {
      if i < |user| {
        assert s[i] == user[i];
      } else if i < |user + host| {
        assert s[i] == host[i - |user|];
      }
    }
  }

  lemma StartsPast(path: string, tail: string)
    requires IsPlainPath(path) && IsTail(tail)
    ensures Authority(path + tail) == ""
  {
    hide Split, Decode;
  }

  /** Folding is exactly that of the twenty-six ASCII letters. */
  lemma LowerLetters()
    ensures Lower("ABCDEFGHIJKLMNOPQRSTUVWXYZ") == "abcdefghijklmnopqrstuvwxyz"
    ensures forall s: string :: (forall i :: 0 <= i < |s| ==> !('A' <= s[i] <= 'Z')) ==> Lower(s) == s
  {
  }

  // ----- loopback -----

  function Quad(a: nat, b: nat, c: nat, d: nat): string {
    Decimal(a) + "." + (Decimal(b) + "." + (Decimal(c) + "." + Decimal(d)))
  }

  lemma DigitsHoldNoDot(s: string)
    requires AllDigits(s)
    ensures '.' !in s
  {
  }

  lemma OctetIsShort(n: nat)
    requires n < 256
    ensures 1 <= |Decimal(n)| <= 3
  {
    if n >= 10 {
      assert |Decimal(n)| == |Decimal(n / 10)| + 1;
      if n / 10 >= 10 {
        assert |Decimal(n / 10)| == |Decimal(n / 10 / 10)| + 1;
        assert n / 10 / 10 < 10;
      }
    }
  }

  lemma QuadSplits(a: nat, b: nat, c: nat, d: nat)
    ensures Split(Quad(a, b, c, d), '.') == [Decimal(a), Decimal(b), Decimal(c), Decimal(d)]
  {
    hide Split, Decimal, AllDigits, NumberOf;
    forall n ensures '.' !in Decimal(n) {
      DecimalReadsBack(n);
      DigitsHoldNoDot(Decimal(n));
    }
    SplitPlain(Decimal(a), '.');
    SplitPlain(Decimal(b), '.');
    SplitPlain(Decimal(c), '.');
    SplitPlain(Decimal(d), '.');
    SplitAppend(Decimal(c), Decimal(d), '.');
    SplitAppend(Decimal(b), Decimal(c) + "." + Decimal(d), '.');
    SplitAppend(Decimal(a), Decimal(b) + "." + (Decimal(c) + "." + Decimal(d)), '.');
    assert [Decimal(a)] + ([Decimal(b)] + ([Decimal(c)] + [Decimal(d)])) == [Decimal(a), Decimal(b), Decimal(c), Decimal(d)];
  }

  lemma OctetReads(n: nat)
    requires n < 256
    ensures 1 <= |Decimal(n)| <= 3 && AllDigits(Decimal(n)) && NumberOf(Decimal(n)) == n
  {
    OctetIsShort(n);
    DecimalReadsBack(n);
  }

  lemma Is127(a: nat)
    ensures Decimal(a) == "127" <==> a == 127
  {
    DecimalReadsBack(a);
    assert Decimal(127) == "127" by {
      assert Decimal(12) == "12" && Decimal(1) == "1";
    }
    assert NumberOf("127") == 127 by { DecimalReadsBack(127); }
  }

  /** Of dotted quads, exactly those of `127.0.0.0/8` are loopback. */
  lemma LoopbackQuads(a: nat, b: nat, c: nat, d: nat)
    requires a < 256 && b < 256 && c < 256 && d < 256
    ensures IsLoopback(Quad(a, b, c, d)) <==> a == 127
  {
    hide Split, Decimal, AllDigits, NumberOf;
    QuadSplits(a, b, c, d);
    Is127(a);
    OctetReads(a);
    OctetReads(b);
    OctetReads(c);
    OctetReads(d);
    QuadIsNoName(a, b, c, d);
  }

  lemma QuadIsNoName(a: nat, b: nat, c: nat, d: nat)
    ensures Quad(a, b, c, d) != "localhost" && Quad(a, b, c, d) != "[::1]"
  {
    hide Decimal, NumberOf;
    DecimalReadsBack(a);
    assert Quad(a, b, c, d)[0] == Decimal(a)[0];
  }

  /** Of other names, exactly `localhost` and the bracketed `::1`. */
  lemma LoopbackNames(host: string)
    requires |Split(host, '.')| != 4
    ensures IsLoopback(host) <==> host == "localhost" || host == "[::1]"
  {
    hide Split, NumberOf;
  }

  // ----- percent-encoding -----

  const HEX := "0123456789ABCDEF"
  const HEX_LOWER := "0123456789abcdef"

  /** Any octet, written with either case of digits, decodes to itself. */
  lemma OctetDecodes(n: nat, rest: string)
    requires n < 256
    ensures Decode("%" + [HEX[n / 16]] + [HEX[n % 16]] + rest) == [n as char] + Decode(rest)
    ensures Decode("%" + [HEX_LOWER[n / 16]] + [HEX_LOWER[n % 16]] + rest) == [n as char] + Decode(rest)
  {
    hide Decode, HexValue;
    HexDigits(n / 16);
    HexDigits(n % 16);
    DecodesFront(HEX[n / 16], HEX[n % 16], rest);
    DecodesFront(HEX_LOWER[n / 16], HEX_LOWER[n % 16], rest);
    assert "%" + [HEX[n / 16]] + [HEX[n % 16]] + rest == ['%', HEX[n / 16], HEX[n % 16]] + rest;
    assert "%" + [HEX_LOWER[n / 16]] + [HEX_LOWER[n % 16]] + rest == ['%', HEX_LOWER[n / 16], HEX_LOWER[n % 16]] + rest;
  }

  lemma HexDigits(v: nat)
    requires v < 16
    ensures IsHex(HEX[v]) && HexValue(HEX[v]) == v
    ensures IsHex(HEX_LOWER[v]) && HexValue(HEX_LOWER[v]) == v
  {
  }

  lemma DecodesFront(a: char, b: char, rest: string)
    requires IsHex(a) && IsHex(b)
    ensures Decode(['%', a, b] + rest) == [(16 * HexValue(a) + HexValue(b)) as char] + Decode(rest)
  {
    hide HexValue;
    var s := ['%', a, b] + rest;
    assert s[0] == '%' && s[1] == a && s[2] == b && s[3..] == rest;
  }

  /** A character that starts no escape stands for itself. */
  lemma LiteralDecodes(c: char, rest: string)
    requires c != '%'
    ensures Decode([c] + rest) == [c] + Decode(rest)
  {
    assert ([c] + rest)[1..] == rest;
  }
}
