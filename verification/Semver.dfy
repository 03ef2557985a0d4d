/** Versions and the order that resolution and the downgrade gate compare by. */
module Semver {
  import opened Wrappers

  datatype Identifier = Numeric(n: nat) | Alphanumeric(text: string)

  /** `pre` and `build` are the dot-separated identifiers after `-` and `+`. */
  datatype Version = Version(
    major: nat, minor: nat, patch: nat,
    pre: seq<Identifier>, build: seq<Identifier>)

  /** The two parsers of the `semver` crate. A parsed requirement is nothing but
      the set of versions it matches. */
  datatype Dialect = Dialect(
    parseVersion: string -> Option<Version>,
    parseReq: string -> Option<Version -> bool>)

  datatype Ordering = Less | Equal | Greater {
    function Flip(): Ordering {
      match this
      case Less => Greater
      case Equal => Equal
      case Greater => Less
    }

    function Then(next: Ordering): Ordering {
      if Equal? then next else this
    }
  }

  function CompareInt(a: int, b: int): Ordering {
    if a < b then Less else if a == b then Equal else Greater
  }

  /** ASCII sort order; a proper prefix sorts first. */
  function CompareText(a: string, b: string): Ordering {
    if a == "" then (if b == "" then Equal else Less)
    else if b == "" then Greater
    else CompareInt(a[0] as int, b[0] as int).Then(CompareText(a[1..], b[1..]))
  }

  /** Numeric identifiers sort below alphanumeric ones. */
  function CompareIdentifier(a: Identifier, b: Identifier): Ordering {
    match (a, b)
    case (Numeric(m), Numeric(n)) => CompareInt(m, n)
    case (Numeric(_), Alphanumeric(_)) => Less
    case (Alphanumeric(_), Numeric(_)) => Greater
    case (Alphanumeric(s), Alphanumeric(t)) => CompareText(s, t)
  }

  /** A longer list sorts above its own prefix. */
  function CompareIdentifiers(a: seq<Identifier>, b: seq<Identifier>): Ordering {
    if a == [] then (if b == [] then Equal else Less)
    else if b == [] then Greater
    else CompareIdentifier(a[0], b[0]).Then(CompareIdentifiers(a[1..], b[1..]))
  }

  /** A pre-release sorts below the release it precedes. */
  function ComparePre(a: seq<Identifier>, b: seq<Identifier>): Ordering {
    if a == [] && b != [] then Greater
    else if a != [] && b == [] then Less
    else CompareIdentifiers(a, b)
  }

  /** Section 11 of Semantic Versioning 2.0.0; build metadata has no part in it. */
  function Precedence(a: Version, b: Version): Ordering {
    CompareInt(a.major, b.major)
      .Then(CompareInt(a.minor, b.minor))
      .Then(CompareInt(a.patch, b.patch))
      .Then(ComparePre(a.pre, b.pre))
  }

  /** The total order: precedence first, then build metadata, so that only
      identical versions compare equal. */
  function Compare(a: Version, b: Version): Ordering {
    Precedence(a, b).Then(CompareIdentifiers(a.build, b.build))
  }

  predicate AtMost(a: Version, b: Version) {
    !Compare(a, b).Greater?
  }

  predicate Below(a: Version, b: Version) {
    Compare(a, b).Less?
  }

  lemma {:induction false} TextOrder(a: string, b: string)
    ensures CompareText(b, a) == CompareText(a, b).Flip()
    ensures CompareText(a, b).Equal? <==> a == b
  {
    if a != "" && b != "" {
      TextOrder(a[1..], b[1..]);
      assert a == [a[0]] + a[1..] && b == [b[0]] + b[1..];
    }
  }

  lemma {:induction false} TextTransitive(a: string, b: string, c: string)
    requires !CompareText(a, b).Greater? && !CompareText(b, c).Greater?
    ensures !CompareText(a, c).Greater?
  {
    if a != "" && b != "" && c != "" && a[0] == b[0] == c[0] {
      TextTransitive(a[1..], b[1..], c[1..]);
    }
  }

  lemma IdentifierOrder(a: Identifier, b: Identifier)
    ensures CompareIdentifier(b, a) == CompareIdentifier(a, b).Flip()
    ensures CompareIdentifier(a, b).Equal? <==> a == b
  {
    if a.Alphanumeric? && b.Alphanumeric? {
      TextOrder(a.text, b.text);
    }
  }

  lemma IdentifierTransitive(a: Identifier, b: Identifier, c: Identifier)
    requires !CompareIdentifier(a, b).Greater? && !CompareIdentifier(b, c).Greater?
    ensures !CompareIdentifier(a, c).Greater?
  {
    if a.Alphanumeric? && b.Alphanumeric? && c.Alphanumeric? {
      TextTransitive(a.text, b.text, c.text);
    }
  }

  lemma {:induction false} IdentifiersOrder(a: seq<Identifier>, b: seq<Identifier>)
    ensures CompareIdentifiers(b, a) == CompareIdentifiers(a, b).Flip()
    ensures CompareIdentifiers(a, b).Equal? <==> a == b
  {
    if a != [] && b != [] {
      IdentifierOrder(a[0], b[0]);
      IdentifiersOrder(a[1..], b[1..]);
      assert a == [a[0]] + a[1..] && b == [b[0]] + b[1..];
    }
  }

  lemma {:induction false} IdentifiersTransitive(
      a: seq<Identifier>, b: seq<Identifier>, c: seq<Identifier>)
    requires !CompareIdentifiers(a, b).Greater? && !CompareIdentifiers(b, c).Greater?
    ensures !CompareIdentifiers(a, c).Greater?
  {
    if a != [] && b != [] && c != [] {
      IdentifierTransitive(a[0], b[0], c[0]);
      IdentifierOrder(a[0], b[0]);
      IdentifierOrder(b[0], c[0]);
      IdentifierOrder(a[0], c[0]);
      if a[0] == b[0] == c[0] {
        IdentifiersTransitive(a[1..], b[1..], c[1..]);
      }
    }
  }

  /** `Compare` is a total order that refines section 11 precedence. */
  lemma CompareIsTotalOrder(a: Version, b: Version)
    ensures Compare(b, a) == Compare(a, b).Flip()
    ensures Compare(a, b).Equal? <==> a == b
    ensures AtMost(a, b) ==> !Precedence(a, b).Greater?
    ensures AtMost(a, b) || AtMost(b, a)
    ensures Below(a, b) <==> !AtMost(b, a)
  {
    IdentifiersOrder(a.pre, b.pre);
    IdentifiersOrder(a.build, b.build);
  }

  lemma CompareTransitive(a: Version, b: Version, c: Version)
    requires AtMost(a, b) && AtMost(b, c)
    ensures AtMost(a, c)
  {
    IdentifiersOrder(a.pre, b.pre);
    IdentifiersOrder(b.pre, c.pre);
    if !CompareIdentifiers(a.pre, b.pre).Greater? && !CompareIdentifiers(b.pre, c.pre).Greater? {
      IdentifiersTransitive(a.pre, b.pre, c.pre);
    }
    if !CompareIdentifiers(a.build, b.build).Greater? && !CompareIdentifiers(b.build, c.build).Greater? {
      IdentifiersTransitive(a.build, b.build, c.build);
    }
    IdentifiersOrder(a.pre, c.pre);
  }

  // ----- section 11, point by point -----

  /** Somewhere `a` and `b` first differ and `a` is lower there, or `a` ends there. */
  predicate TextBelow(a: string, b: string) {
    exists k :: 0 <= k < |b| && k <= |a| && a[..k] == b[..k] && (k == |a| || a[k] < b[k])
  }

  /** Numbers by value, text in ASCII order, and any number below any text. */
  predicate IdentifierBelow(a: Identifier, b: Identifier) {
    match (a, b)
    case (Numeric(m), Numeric(n)) => m < n
    case (Numeric(_), Alphanumeric(_)) => true
    case (Alphanumeric(_), Numeric(_)) => false
    case (Alphanumeric(s), Alphanumeric(t)) => TextBelow(s, t)
  }

  /** Left to right until a difference; where all are equal, fewer come first. */
  predicate IdentifiersBelow(a: seq<Identifier>, b: seq<Identifier>) {
    exists k :: 0 <= k < |b| && k <= |a| && a[..k] == b[..k] && (k == |a| || IdentifierBelow(a[k], b[k]))
  }

  /** Major, minor and patch in turn; then a pre-release comes before its release, and
      two pre-releases compare by their identifiers. */
  predicate Precedes(a: Version, b: Version) {
    || a.major < b.major
    || (a.major == b.major && a.minor < b.minor)
    || (a.major == b.major && a.minor == b.minor && a.patch < b.patch)
    || (a.major == b.major && a.minor == b.minor && a.patch == b.patch && PreBelow(a.pre, b.pre))
  }

  predicate PreBelow(a: seq<Identifier>, b: seq<Identifier>) {
    a != [] && (b == [] || IdentifiersBelow(a, b))
  }

  lemma {:induction false} TextBelowExactly(a: string, b: string)
    ensures CompareText(a, b).Less? <==> TextBelow(a, b)
  {
    if b != "" && a == "" {
      assert a[..0] == b[..0];
    } else if b != "" {
      TextBelowExactly(a[1..], b[1..]);
      if k :| 0 <= k < |b| && k <= |a| && a[..k] == b[..k] && (k == |a| || a[k] < b[k]) {
        TextPrefix(a, b, k);
      }
      if TextBelow(a[1..], b[1..]) && a[0] == b[0] {
        var k :| 0 <= k < |b[1..]| && k <= |a[1..]| && a[1..][..k] == b[1..][..k]
                 && (k == |a[1..]| || a[1..][k] < b[1..][k]);
        assert a[..k + 1] == [a[0]] + a[1..][..k] && b[..k + 1] == [b[0]] + b[1..][..k];
      }
      assert a[..0] == b[..0];
    }
  }

  lemma TextPrefix(a: string, b: string, k: nat)
    requires a != "" && b != "" && k < |b| && k <= |a| && a[..k] == b[..k]
    ensures k > 0 ==> a[0] == b[0] && a[1..][..k - 1] == b[1..][..k - 1]
  {
    if k > 0 {
      assert a[..k][0] == b[..k][0];
      assert a[1..][..k - 1] == a[..k][1..] && b[1..][..k - 1] == b[..k][1..];
    }
  }

  lemma IdentifierBelowExactly(a: Identifier, b: Identifier)
    ensures CompareIdentifier(a, b).Less? <==> IdentifierBelow(a, b)
  {
    if a.Alphanumeric? && b.Alphanumeric? {
      TextBelowExactly(a.text, b.text);
    }
  }

  lemma {:induction false} IdentifiersBelowExactly(a: seq<Identifier>, b: seq<Identifier>)
    ensures CompareIdentifiers(a, b).Less? <==> IdentifiersBelow(a, b)
  {
    if b != [] && a == [] {
      assert a[..0] == b[..0];
    } else if b != [] {
      hide CompareIdentifier, IdentifierBelow;
      IdentifiersBelowExactly(a[1..], b[1..]);
      IdentifierBelowExactly(a[0], b[0]);
      IdentifierOrder(a[0], b[0]);
      IdentifierBelowSelf(a[0], b[0]);
      if k :| 0 <= k < |b| && k <= |a| && a[..k] == b[..k] && (k == |a| || IdentifierBelow(a[k], b[k])) {
        IdentifiersPrefix(a, b, k);
      }
      if IdentifiersBelow(a[1..], b[1..]) && a[0] == b[0] {
        var k :| 0 <= k < |b[1..]| && k <= |a[1..]| && a[1..][..k] == b[1..][..k]
                 && (k == |a[1..]| || IdentifierBelow(a[1..][k], b[1..][k]));
        assert a[..k + 1] == [a[0]] + a[1..][..k] && b[..k + 1] == [b[0]] + b[1..][..k];
      }
      assert a[..0] == b[..0];
    }
  }

  lemma IdentifierBelowSelf(a: Identifier, b: Identifier)
    ensures CompareIdentifier(a, b).Less? ==> a != b
  {
    IdentifierOrder(a, b);
  }

  lemma IdentifiersPrefix(a: seq<Identifier>, b: seq<Identifier>, k: nat)
    requires a != [] && b != [] && k < |b| && k <= |a| && a[..k] == b[..k]
    ensures k > 0 ==> a[0] == b[0] && a[1..][..k - 1] == b[1..][..k - 1]
  {
    if k > 0 {
      assert a[..k][0] == b[..k][0];
      assert a[1..][..k - 1] == a[..k][1..] && b[1..][..k - 1] == b[..k][1..];
    }
  }

  /** The comparison is section 11 of Semantic Versioning 2.0.0, and nothing but build
      metadata separates versions it leaves equal. */
  lemma PrecedesExactly(a: Version, b: Version)
    ensures Precedence(a, b).Less? <==> Precedes(a, b)
    ensures Precedes(a, b) ==> Below(a, b)
    ensures Below(a, b) && !Precedes(a, b) ==>
              a.(build := []) == b.(build := []) && IdentifiersBelow(a.build, b.build)
  {
    hide IdentifiersBelow, CompareIdentifiers;
    IdentifiersOrder(a.pre, b.pre);
    IdentifiersBelowExactly(a.pre, b.pre);
    IdentifiersBelowExactly(a.build, b.build);
  }
}
