/** The gate on reading a secret: the whole isolation boundary between extensions. */
module Secrets {
  import opened Wrappers
  import opened Text
  import opened PercentPath
  import opened DotSegments

  datatype BackendError = NotFound(key: string) | Backend(reason: string)

  datatype SecretError =
    | Malformed(uri: string)
    | PermissionDenied(uri: string)
    | SecretNotFound(key: string)
    | BackendFailed(reason: string)

  /** No percent-escape, and no dot segment. */
  predicate UriIsPlain(uri: string) {
    '%' !in uri && forall i :: 0 <= i < |Split(uri, '/')| ==> !IsDots(Split(uri, '/')[i])
  }

  /** What follows the first colon, or everything. */
  function AfterScheme(declared: string): (rest: string)
    ensures ':' !in declared ==> rest == declared
    ensures ':' in declared ==>
              |rest| < |declared| && declared[|declared| - |rest|..] == rest
              && declared[|declared| - |rest| - 1] == ':' && ':' !in declared[..|declared| - |rest| - 1]
  {
    if declared == "" then ""
    else if declared[0] == ':' then declared[1..]
    else if ':' in declared[1..] then AfterScheme(declared[1..])
    else declared
  }

  function TrimStart(s: string): string {
    if s != "" && s[0] == '/' then TrimStart(s[1..]) else s
  }

  function TrimEnd(s: string): string {
    if s != "" && s[|s| - 1] == '/' then TrimEnd(s[..|s| - 1]) else s
  }

  predicate DeclarationIsSpecific(declared: string) {
    TrimEnd(TrimStart(AfterScheme(declared))) != ""
  }

  predicate Permitted(declared: seq<string>, uri: string) {
    exists d :: d in declared && DeclarationIsSpecific(d) && ContinuesAt(d, uri, '/')
  }

  /** `asked` is every URI the backend was asked for. */
  method Get(declared: seq<string>, backend: string -> Result<string, BackendError>, uri: string)
    returns (asked: seq<string>, result: Result<string, SecretError>)
    ensures !UriIsPlain(uri) ==> asked == [] && result == Err(Malformed(uri))
    ensures UriIsPlain(uri) && !Permitted(declared, uri) ==> asked == [] && result == Err(PermissionDenied(uri))
    ensures UriIsPlain(uri) && Permitted(declared, uri) ==> asked == [uri]
    ensures UriIsPlain(uri) && Permitted(declared, uri) ==>
              match backend(uri)
              case Ok(value) => result == Ok(value)
              case Err(NotFound(key)) => result == Err(SecretNotFound(key))
              case Err(Backend(reason)) => result == Err(BackendFailed(reason))
  {
    if !UriIsPlain(uri) {
      return [], Err(Malformed(uri));
    }
    if !Permitted(declared, uri) {
      return [], Err(PermissionDenied(uri));
    }
    asked := [uri];
    match backend(uri) {
      case Ok(value) => result := Ok(value);
      case Err(NotFound(key)) => result := Err(SecretNotFound(key));
      case Err(Backend(reason)) => result := Err(BackendFailed(reason));
    }
  }

  // ----- what a declaration grants -----

  lemma {:induction false} TrimStartLeavesNothing(s: string)
    ensures TrimStart(s) != "" <==> exists i :: 0 <= i < |s| && s[i] != '/'
    ensures TrimStart(s) != "" ==> TrimStart(s)[0] != '/'
  {
    if s != "" && s[0] == '/' {
      TrimStartLeavesNothing(s[1..]);
      assert forall i :: 1 <= i < |s| ==> s[1..][i - 1] == s[i];
    }
  }

  lemma {:induction false} TrimEndKeepsFirst(s: string)
    requires s != "" && s[0] != '/'
    ensures TrimEnd(s) != ""
  {
    if s[|s| - 1] == '/' {
      TrimEndKeepsFirst(s[..|s| - 1]);
    }
  }

  predicate NamesASegment(s: string) {
    exists i :: 0 <= i < |Split(s, '/')| && Split(s, '/')[i] != ""
  }

  /** A declaration counts exactly when some segment after its scheme has a name. */
  lemma SpecificNamesASegment(declared: string)
    ensures DeclarationIsSpecific(declared) <==> NamesASegment(AfterScheme(declared))
  {
    hide Split, AfterScheme, TrimStart;
    var rest := AfterScheme(declared);
    TrimStartLeavesNothing(rest);
    if TrimStart(rest) != "" {
      TrimEndKeepsFirst(TrimStart(rest));
    }
    SomePieceIsNamed(rest);
  }

  lemma {:induction false} SomePieceIsNamed(s: string)
    ensures NamesASegment(s) <==> exists i :: 0 <= i < |s| && s[i] != '/'
  {
    if s != "" {
      SomePieceIsNamed(s[1..]);
      var rest, parts := Split(s[1..], '/'), Split(s, '/');
      if s[0] == '/' {
        assert forall i :: 1 <= i < |parts| ==> parts[i] == rest[i - 1];
        assert forall i :: 0 <= i < |rest| ==> rest[i] == parts[i + 1];
        assert forall i :: 1 <= i < |s| ==> s[i] == s[1..][i - 1];
      } else {
        assert parts[0] != "";
      }
    }
  }

  /** A read is permitted exactly when all the segments of some specific declaration
      lead the URI. */
  lemma PermittedExactlyWhen(declared: seq<string>, uri: string)
    ensures Permitted(declared, uri) <==>
            exists d :: d in declared && DeclarationIsSpecific(d) && Split(d, '/') <= Split(uri, '/')
  {
    hide Split, ContinuesAt, DeclarationIsSpecific;
    forall d ensures ContinuesAt(d, uri, '/') <==> Split(d, '/') <= Split(uri, '/') {
      ContinuesAtIsPiecePrefix(d, uri, '/');
    }
  }

  lemma {:induction false} NothingToDecode(s: string)
    requires '%' !in s
    ensures Decode(s) == s
  {
    if s != "" {
      NothingToDecode(s[1..]);
      assert s == [s[0]] + s[1..];
    }
  }

  /** Plain means that no segment is `.` or `..` or holds a percent sign. */
  lemma PlainExactlyWhen(segments: seq<string>)
    requires segments != [] && forall i :: 0 <= i < |segments| ==> '/' !in segments[i]
    ensures UriIsPlain(Join(segments, '/')) <==>
            forall i :: 0 <= i < |segments| ==> '%' !in segments[i] && segments[i] != "." && segments[i] != ".."
  {
    hide Split, Join;
    SplitJoin(segments, '/');
    JoinHolds(segments, '%');
  }

  lemma {:induction false} JoinHolds(segments: seq<string>, c: char)
    requires segments != [] && c != '/'
    ensures c in Join(segments, '/') <==> exists i :: 0 <= i < |segments| && c in segments[i]
  {
    if |segments| > 1 {
      JoinHolds(segments[1..], c);
      assert forall i :: 1 <= i < |segments| ==> segments[1..][i - 1] == segments[i];
      assert Join(segments, '/') == segments[0] + ['/'] + Join(segments[1..], '/');
    }
  }

  /** With or without a scheme, what has nothing but slashes in it names nothing. */
  lemma SpecificExactlyWhen(scheme: string, rest: string)
    requires ':' !in scheme
    ensures DeclarationIsSpecific(scheme + ":" + rest) <==> exists i :: 0 <= i < |rest| && rest[i] != '/'
    ensures DeclarationIsSpecific(scheme) <==> exists i :: 0 <= i < |scheme| && scheme[i] != '/'
  {
    hide Split, TrimStart, TrimEnd, DeclarationIsSpecific, NamesASegment;
    SpecificNamesASegment(scheme + ":" + rest);
    SpecificNamesASegment(scheme);
    AfterFirstColon(scheme, rest);
    SomePieceIsNamed(rest);
    SomePieceIsNamed(scheme);
  }

  lemma {:induction false} AfterFirstColon(scheme: string, rest: string)
    requires ':' !in scheme
    ensures AfterScheme(scheme + ":" + rest) == rest && AfterScheme(scheme) == scheme
  {
    var declared := scheme + ":" + rest;
    if scheme == "" {
      assert declared[1..] == rest;
    } else {
      AfterFirstColon(scheme[1..], rest);
      assert declared[1..] == scheme[1..] + ":" + rest;
      assert declared[1..][|scheme| - 1] == ':';
    }
  }

  /** A backend that decodes a plain URI and resolves its dots reads the same URI. */
  lemma PlainMeansItself(uri: string)
    requires UriIsPlain(uri)
    ensures ServerSegments(uri) == Split(uri, '/')
  {
    hide Split, Decode;
    NothingToDecode(uri);
    SettleIsIdentity([], Split(uri, '/'), LITERALLY);
  }

  /** So whatever the backend does with the URI, it stays under a declared prefix
      that names something. */
  lemma PermittedStaysInside(declared: seq<string>, uri: string)
    requires UriIsPlain(uri) && Permitted(declared, uri)
    ensures exists d :: d in declared && DeclarationIsSpecific(d) && Split(d, '/') <= ServerSegments(uri)
  {
    hide Split, Decode, UriIsPlain, DeclarationIsSpecific;
    PermittedExactlyWhen(declared, uri);
    PlainMeansItself(uri);
  }
}
