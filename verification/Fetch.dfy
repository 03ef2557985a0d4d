/** Outbound HTTP for a guest: one permission check before every request that
    leaves the host, whatever the servers answer. */
module Fetching {
  import opened Wrappers
  import opened Text
  import opened Urls
  import opened UrlMatchers
  import opened NetPermissions

  const MAX_RESPONSE_BYTES: nat := 32 * 1024 * 1024
  const MAX_REDIRECT_HOPS: nat := 10
  const FORBIDDEN_REQUEST_HEADERS := ["host", "content-length", "transfer-encoding", "connection", "upgrade", "expect"]
  const METHODS := ["GET", "POST", "PUT", "DELETE", "PATCH", "HEAD"]

  type Header = (string, string)

  datatype Request = Request(httpMethod: string, url: string, headers: seq<Header>, body: Option<seq<byte>>)

  /** A body as the wire delivers it: `length` is `None` for one that never ends, and
      reading may fail at some byte. */
  datatype Body = Body(at: nat -> byte, length: Option<nat>, failsAt: Option<nat>)

  /** `url` is where the client says the answer came from; a header value that is no
      text is `None`. */
  datatype Answer = Answer(status: nat, url: string, location: Option<string>, headers: seq<(string, Option<string>)>, body: Body)

  /** The servers' `n`-th answer of one fetch, and how a location is resolved against
      a URL. Nothing is assumed about either. */
  datatype Client = Client(answers: nat -> Result<Answer, string>, join: (string, string) -> Option<string>)

  datatype Response = Response(status: nat, headers: seq<Header>, body: seq<byte>)

  datatype Refusal =
    | NotAllowed(url: string)
    | NoClient
    | UnsupportedMethod(name: string)
    | Transport(reason: string)
    | RedirectNotAllowed(url: string)
    | BodyError
    | BodyTooLarge

  // ----- request headers -----

  predicate Forbidden(name: string) {
    Lower(name) in FORBIDDEN_REQUEST_HEADERS
  }

  /** The guest's headers without the ones it must not set. */
  function Passed(headers: seq<Header>): seq<Header> {
    if headers == [] then []
    else
      var n := |headers| - 1;
      Passed(headers[..n]) + if Forbidden(headers[n].0) then [] else [headers[n]]
  }

  lemma {:induction false} PassedKeepsAllOthers(headers: seq<Header>, h: Header)
    ensures multiset(Passed(headers))[h] == if Forbidden(h.0) then 0 else multiset(headers)[h]
  {
    if headers != [] {
      var n := |headers| - 1;
      assert headers == headers[..n] + [headers[n]];
      PassedKeepsAllOthers(headers[..n], h);
    }
  }

  lemma {:induction false} PassedInOrder(a: seq<Header>, b: seq<Header>)
    ensures Passed(a + b) == Passed(a) + Passed(b)
  {
    if b == [] {
      assert a + b == a;
    } else {
      var n := |b| - 1;
      PassedInOrder(a, b[..n]);
      assert (a + b)[..|a| + n] == a + b[..n];
    }
  }

  /** The six names a guest must not set, in any case. */
  lemma PassedOne(h: Header)
    ensures Passed([h]) ==
              var name := Lower(h.0);
              if name == "host" || name == "content-length" || name == "transfer-encoding"
                 || name == "connection" || name == "upgrade" || name == "expect" then []
              else [h]
  {
    assert [h][..0] == [];
  }

  /** What goes on the wire. */
  datatype Sent = Sent(httpMethod: string, url: string, headers: seq<Header>, body: Option<seq<byte>>)

  method SendOnce(client: Client, n: nat, httpMethod: string, url: string, headers: seq<Header>, body: Option<seq<byte>>)
    returns (sent: Sent, answer: Result<Answer, string>)
    ensures sent == Sent(httpMethod, url, Passed(headers), body)
    ensures answer == client.answers(n)
  {
    var kept: seq<Header> := [];
    for i := 0 to |headers|
      invariant kept == Passed(headers[..i])
    {
      assert headers[..i + 1][..i] == headers[..i];
      if !Forbidden(headers[i].0) {
        kept := kept + [headers[i]];
      }
    }
    assert headers[..|headers|] == headers;
    sent := Sent(httpMethod, url, kept, body);
    answer := client.answers(n);
  }

  // ----- redirects -----

  function RedirectTarget(client: Client, answer: Answer): Option<string> {
    if 300 <= answer.status < 400 && answer.location.Some?
    then client.join(answer.url, answer.location.value)
    else None
  }

  /** The request after the `i`-th goes where the `i`-th answer pointed. */
  predicate Follows(client: Client, sent: seq<Sent>, i: nat)
    requires i + 1 < |sent|
  {
    && client.answers(i).Ok?
    && RedirectTarget(client, client.answers(i).value) == Some(sent[i + 1].url)
  }

  /** The guest's own request, repeated along redirects, each hop allowed. */
  predicate Chained(allowed: string -> bool, client: Client, req: Request, httpMethod: string, sent: seq<Sent>) {
    && 0 < |sent| <= MAX_REDIRECT_HOPS + 1
    && sent[0].url == req.url
    && (forall i :: 0 <= i < |sent| ==> sent[i] == Sent(httpMethod, sent[i].url, Passed(req.headers), req.body))
    && (forall i :: 0 <= i < |sent| ==> allowed(sent[i].url))
    && (forall i :: 0 <= i < |sent| - 1 ==> Follows(client, sent, i))
  }

  /** Nothing more is to be sent: the last answer failed, points nowhere or off the
      list, or the hops are used up. */
  predicate Spent(allowed: string -> bool, client: Client, sent: seq<Sent>)
    requires sent != []
  {
    var last := client.answers(|sent| - 1);
    || last.Err?
    || |sent| == MAX_REDIRECT_HOPS + 1
    || RedirectTarget(client, last.value).None?
    || !allowed(RedirectTarget(client, last.value).value)
  }

  // ----- the response -----

  function Rendered(headers: seq<(string, Option<string>)>): seq<Header> {
    if headers == [] then []
    else (if headers[0].1.Some? then [(headers[0].0, headers[0].1.value)] else []) + Rendered(headers[1..])
  }

  function Bytes(body: Body, n: nat): seq<byte> {
    seq<byte>(n, i requires 0 <= i < n => body.at(i))
  }

  /** Reading up to `limit` bytes. */
  function Read(body: Body, limit: nat): Option<seq<byte>> {
    var n := if body.length.Some? && body.length.value < limit then body.length.value else limit;
    if body.failsAt.Some? && (body.failsAt.value < n || (n < limit && body.failsAt.value == n)) then None
    else Some(Bytes(body, n))
  }

  function Delivered(answer: Answer): Result<Response, Refusal> {
    match Read(answer.body, MAX_RESPONSE_BYTES + 1)
    case None => Err(BodyError)
    case Some(body) =>
      if |body| > MAX_RESPONSE_BYTES then Err(BodyTooLarge)
      else Ok(Response(answer.status, Rendered(answer.headers), body))
  }

  /** A body is delivered whole or not at all: one that is longer than 32 MiB, or never
      ends, is never cut short. */
  lemma DeliveredWhole(answer: Answer)
    ensures Delivered(answer).Ok? <==>
              && answer.body.length.Some? && answer.body.length.value <= 32 * 1024 * 1024
              && (answer.body.failsAt.None? || answer.body.failsAt.value > answer.body.length.value)
    ensures Delivered(answer).Ok? ==>
              var response := Delivered(answer).value;
              && response.status == answer.status && response.headers == Rendered(answer.headers)
              && |response.body| == answer.body.length.value
              && forall i :: 0 <= i < |response.body| ==> response.body[i] == answer.body.at(i)
    ensures Delivered(answer) == Err(BodyTooLarge) <==>
              && (answer.body.length.None? || answer.body.length.value > 32 * 1024 * 1024)
              && (answer.body.failsAt.None? || answer.body.failsAt.value > 32 * 1024 * 1024)
    ensures Delivered(answer).Err? ==> Delivered(answer).error == BodyTooLarge || Delivered(answer).error == BodyError
  {
  }

  /** Headers keep their order; one whose value is no text is left out. */
  lemma {:induction false} RenderedInOrder(a: seq<(string, Option<string>)>, b: seq<(string, Option<string>)>)
    ensures Rendered(a + b) == Rendered(a) + Rendered(b)
  {
    if a == [] {
      assert a + b == b;
    } else {
      assert (a + b)[1..] == a[1..] + b;
      RenderedInOrder(a[1..], b);
    }
  }

  lemma RenderedOne(name: string, value: string)
    ensures Rendered([(name, Some(value))]) == [(name, value)]
    ensures Rendered([(name, None)]) == []
  {
    var textual, other: seq<(string, Option<string>)> := [(name, Some(value))], [(name, None)];
    assert textual[1..] == [] && other[1..] == [];
  }

  /** How the fetch ends once the chain is spent. */
  function Concluded(allowed: string -> bool, client: Client, sent: seq<Sent>): Result<Response, Refusal>
    requires sent != []
  {
    var n := |sent| - 1;
    match client.answers(n)
    case Err(reason) => Err(Transport(reason))
    case Ok(answer) =>
      var next := RedirectTarget(client, answer);
      if n < MAX_REDIRECT_HOPS && next.Some? then Err(RedirectNotAllowed(next.value))
      else if answer.url != sent[n].url && !allowed(answer.url) then Err(RedirectNotAllowed(answer.url))
      else Delivered(answer)
  }

  /** `allowed` is the matcher's verdict on a URL, `upper` the case mapping used on
      the method name. */
  method Fetch(allowed: string -> bool, client: Option<Client>, upper: string -> string, req: Request)
    returns (sent: seq<Sent>, result: Result<Response, Refusal>)
    ensures !allowed(req.url) ==> sent == [] && result == Err(NotAllowed(req.url))
    ensures allowed(req.url) && client.None? ==> sent == [] && result == Err(NoClient)
    ensures allowed(req.url) && client.Some? && upper(req.httpMethod) !in ["GET", "POST", "PUT", "DELETE", "PATCH", "HEAD"] ==>
              sent == [] && result == Err(UnsupportedMethod(upper(req.httpMethod)))
    ensures allowed(req.url) && client.Some? && upper(req.httpMethod) in ["GET", "POST", "PUT", "DELETE", "PATCH", "HEAD"] ==>
              && Chained(allowed, client.value, req, upper(req.httpMethod), sent)
              && Spent(allowed, client.value, sent)
              && result == Concluded(allowed, client.value, sent)
  {
    hide Passed, Delivered;
    sent := [];
    if !allowed(req.url) {
      return sent, Err(NotAllowed(req.url));
    }
    if client.None? {
      return sent, Err(NoClient);
    }
    var httpMethod := upper(req.httpMethod);
    if httpMethod !in METHODS {
      return sent, Err(UnsupportedMethod(httpMethod));
    }
    var c := client.value;
    var url := req.url;
    var first, answer := SendOnce(c, 0, httpMethod, url, req.headers, req.body);
    sent := [first];
    if answer.Err? {
      return sent, Err(Transport(answer.error));
    }
    var resp := answer.value;
    var hops := 0;
    while hops < MAX_REDIRECT_HOPS
      invariant 0 <= hops <= MAX_REDIRECT_HOPS && |sent| == hops + 1
      invariant Chained(allowed, c, req, httpMethod, sent)
      invariant url == sent[hops].url && c.answers(hops) == Ok(resp)
    {
      var next := RedirectTarget(c, resp);
      if next.None? {
        break;
      }
      if !allowed(next.value) {
        return sent, Err(RedirectNotAllowed(next.value));
      }
      url := next.value;
      var again, more := SendOnce(c, hops + 1, httpMethod, url, req.headers, req.body);
      ChainGrows(allowed, c, req, httpMethod, sent, again);
      sent := sent + [again];
      if more.Err? {
        return sent, Err(Transport(more.error));
      }
      resp := more.value;
      hops := hops + 1;
    }
    if resp.url != url && !allowed(resp.url) {
      return sent, Err(RedirectNotAllowed(resp.url));
    }
    result := Delivered(resp);
  }

  lemma ChainGrows(allowed: string -> bool, c: Client, req: Request, httpMethod: string, sent: seq<Sent>, again: Sent)
    requires Chained(allowed, c, req, httpMethod, sent) && |sent| <= MAX_REDIRECT_HOPS
    requires c.answers(|sent| - 1).Ok?
    requires RedirectTarget(c, c.answers(|sent| - 1).value) == Some(again.url)
    requires allowed(again.url) && again == Sent(httpMethod, again.url, Passed(req.headers), req.body)
    ensures Chained(allowed, c, req, httpMethod, sent + [again])
  {
    hide Passed, RedirectTarget;
    var longer := sent + [again];
    forall i | 0 <= i < |longer| - 1 ensures Follows(c, longer, i) {
      assert i < |sent| - 1 ==> Follows(c, sent, i);
    }
  }

  // ----- what the contract amounts to -----

  /** The contract leaves no freedom: one server behaviour, one chain. */
  lemma ChainIsDetermined(allowed: string -> bool, c: Client, req: Request, httpMethod: string, a: seq<Sent>, b: seq<Sent>)
    requires Chained(allowed, c, req, httpMethod, a) && Spent(allowed, c, a)
    requires Chained(allowed, c, req, httpMethod, b) && Spent(allowed, c, b)
    ensures a == b
  {
    hide Passed, RedirectTarget;
    SharedStart(allowed, c, req, httpMethod, a, b, |if |a| < |b| then a else b|);
    CannotOutrun(allowed, c, req, httpMethod, a, b);
    CannotOutrun(allowed, c, req, httpMethod, b, a);
  }

  lemma {:induction false} SharedStart(allowed: string -> bool, c: Client, req: Request, httpMethod: string, a: seq<Sent>, b: seq<Sent>, n: nat)
    requires Chained(allowed, c, req, httpMethod, a) && Chained(allowed, c, req, httpMethod, b)
    requires n <= |a| && n <= |b|
    ensures a[..n] == b[..n]
  {
    hide Passed, RedirectTarget;
    if n > 0 {
      SharedStart(allowed, c, req, httpMethod, a, b, n - 1);
      if n > 1 {
        assert Follows(c, a, n - 2) && Follows(c, b, n - 2);
      }
      assert a[n - 1] == b[n - 1];
      assert a[..n] == a[..n - 1] + [a[n - 1]] && b[..n] == b[..n - 1] + [b[n - 1]];
    }
  }

  lemma CannotOutrun(allowed: string -> bool, c: Client, req: Request, httpMethod: string, a: seq<Sent>, b: seq<Sent>)
    requires Chained(allowed, c, req, httpMethod, a) && Spent(allowed, c, a)
    requires Chained(allowed, c, req, httpMethod, b)
    ensures |b| <= |a|
  {
    hide Passed, RedirectTarget;
    assert |a| < |b| ==> Follows(c, b, |a| - 1);
  }

  /** The last answer came from an allowed URL, and was no redirect still to be
      followed unless the hops ran out. */
  predicate AllowedAnswer(allowed: string -> bool, c: Client, n: nat) {
    && c.answers(n).Ok?
    && allowed(c.answers(n).value.url)
    && (n < MAX_REDIRECT_HOPS ==> RedirectTarget(c, c.answers(n).value).None?)
  }

  /** A response the guest gets is such an answer, that of the last request of the
      chain. This holds for a client that follows redirects by itself too. */
  lemma DeliveredResponseIsAllowed(allowed: string -> bool, c: Client, req: Request, httpMethod: string, sent: seq<Sent>)
    requires sent != [] && Chained(allowed, c, req, httpMethod, sent) && Spent(allowed, c, sent)
    ensures Concluded(allowed, c, sent).Ok? ==> AllowedAnswer(allowed, c, |sent| - 1)
  {
    hide Passed, RedirectTarget, Delivered;
  }

  /** With a client all of whose answers come from allowed URLs, as those of one that
      follows no redirect by itself do, the only URL a redirect can be refused for is
      one that was never asked for. */
  lemma RefusedBeforeAsking(allowed: string -> bool, c: Client, req: Request, httpMethod: string, sent: seq<Sent>, target: string)
    requires sent != [] && Chained(allowed, c, req, httpMethod, sent) && Spent(allowed, c, sent)
    requires forall i :: 0 <= i < |sent| && c.answers(i).Ok? ==> allowed(c.answers(i).value.url)
    requires Concluded(allowed, c, sent) == Err(RedirectNotAllowed(target))
    ensures !allowed(target) && forall i :: 0 <= i < |sent| ==> sent[i].url != target
  {
    hide Passed, RedirectTarget;
  }

  /** The answer is a redirect to `next`: a status of the three hundreds, and a location
      that joins. */
  predicate Points(client: Client, answer: Answer, next: string) {
    && 300 <= answer.status <= 399 && answer.location.Some?
    && client.join(answer.url, answer.location.value) == Some(next)
  }

  /** The chain: at most 11 requests, each with the guest's method, body and permitted
      headers, each to an allowed URL, and each after the first to where the answer
      before it points. */
  lemma ChainFollowsRedirects(allowed: string -> bool, c: Client, req: Request, httpMethod: string, sent: seq<Sent>)
    requires Chained(allowed, c, req, httpMethod, sent)
    ensures 1 <= |sent| <= 11 && sent[0].url == req.url
    ensures forall i :: 0 <= i < |sent| ==>
              && allowed(sent[i].url) && sent[i].httpMethod == httpMethod
              && sent[i].headers == Passed(req.headers) && sent[i].body == req.body
    ensures forall i :: 0 <= i < |sent| - 1 ==> c.answers(i).Ok? && Points(c, c.answers(i).value, sent[i + 1].url)
  {
    hide Passed;
    forall i | 0 <= i < |sent| - 1 ensures c.answers(i).Ok? && Points(c, c.answers(i).value, sent[i + 1].url) {
      assert Follows(c, sent, i);
    }
  }

  /** The end: a redirect that could be followed and is allowed never ends a chain of
      fewer than 11, one that is not allowed is refused, and anything else is answered
      with what the last answer holds. */
  lemma ConcludedExactly(
      allowed: string -> bool, c: Client, req: Request, httpMethod: string, sent: seq<Sent>, next: string)
    requires sent != [] && Chained(allowed, c, req, httpMethod, sent) && Spent(allowed, c, sent)
    ensures var last, result := c.answers(|sent| - 1), Concluded(allowed, c, sent);
            && (last.Err? ==> result == Err(Transport(last.error)))
            && (last.Ok? && Points(c, last.value, next) && |sent| < 11 ==>
                  !allowed(next) && result == Err(RedirectNotAllowed(next)))
            && (last.Ok? && (|sent| == 11 || forall url :: !Points(c, last.value, url)) ==>
                  if last.value.url != sent[|sent| - 1].url && !allowed(last.value.url)
                  then result == Err(RedirectNotAllowed(last.value.url))
                  else result == Delivered(last.value))
  {
    hide Passed, Delivered;
    var last := c.answers(|sent| - 1);
    if last.Ok? && RedirectTarget(c, last.value).Some? {
      assert Points(c, last.value, RedirectTarget(c, last.value).value);
    }
  }

  /** A response delivered before the hops ran out is no redirect that could be followed. */
  lemma DeliveredPointsNowhere(allowed: string -> bool, c: Client, req: Request, httpMethod: string, sent: seq<Sent>)
    requires sent != [] && Chained(allowed, c, req, httpMethod, sent) && Spent(allowed, c, sent)
    requires Concluded(allowed, c, sent).Ok? && |sent| < 11
    ensures var last := c.answers(|sent| - 1); last.Ok? && forall url :: !Points(c, last.value, url)
  {
    hide Passed, Delivered;
  }

  /** End to end: every request a guest causes, and every response it gets, is for
      a URL that some pattern its extension declared grants, inside the operator's
      ceiling, over https or to loopback. */
  lemma GuestReachesOnlyWhatWasGranted(
      declared: seq<string>, operator: UrlMatcher, c: Client, req: Request, httpMethod: string, sent: seq<Sent>)
    requires declared != []
    requires Chained(Verdict(Effective(declared, operator)), c, req, httpMethod, sent)
    requires Spent(Verdict(Effective(declared, operator)), c, sent)
    ensures forall i :: 0 <= i < |sent| ==> Granted(declared, operator, sent[i].url)
    ensures Concluded(Verdict(Effective(declared, operator)), c, sent).Ok? ==>
              c.answers(|sent| - 1).Ok? && Granted(declared, operator, c.answers(|sent| - 1).value.url)
  {
    hide Passed, RedirectTarget, Delivered, Effective, Follows;
    var allowed := Verdict(Effective(declared, operator));
    forall url: string
      ensures allowed(url) ==> Granted(declared, operator, url)
    {
      AllowedIsGranted(declared, operator, url);
    }
    DeliveredResponseIsAllowed(allowed, c, req, httpMethod, sent);
  }

  predicate Granted(declared: seq<string>, operator: UrlMatcher, text: string) {
    && Parse(text).Some?
    && (Parse(text).value.scheme == "https" || IsLoopback(Parse(text).value.host))
    && exists pattern :: pattern in declared && Grants(pattern, operator.raw, Parse(text).value)
  }

  lemma AllowedIsGranted(declared: seq<string>, operator: UrlMatcher, text: string)
    requires declared != []
    ensures Verdict(Effective(declared, operator))(text) ==> Granted(declared, operator, text)
  {
    hide Parse, Effective, Grants, IsLoopback;
    EffectiveAllowsExactlyWhen(declared, operator, text);
    if IsAllowed(Effective(declared, operator), text) {
      PlainHttpIsLoopback(declared, operator, text);
    }
  }
}
