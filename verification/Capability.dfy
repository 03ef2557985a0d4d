/** What extensions offer each other: the offering table and highest-match resolution. */
module Capability {
  import opened Wrappers
  import opened Semver

  type CapabilityId = string
  type ExtensionId = string

  datatype OfferedBinding = OfferedBinding(
    extensionId: ExtensionId,
    capId: CapabilityId,
    version: Version,
    kind: string,
    exportPath: string)

  datatype CapabilityRef = CapabilityRef(id: CapabilityId, version: string)

  type Offerings = map<CapabilityId, seq<OfferedBinding>>

  datatype ResolutionPlan = ResolutionPlan(
    consumer: string,
    resolved: map<CapabilityId, OfferedBinding>,
    unresolved: seq<CapabilityRef>)

  /** Everything offered under `id`, in registration order. */
  function OffersOf(table: Offerings, id: CapabilityId): seq<OfferedBinding> {
    if id in table then table[id] else []
  }

  function Added(table: Offerings, o: OfferedBinding): Offerings {
    table[o.capId := OffersOf(table, o.capId) + [o]]
  }

  /** `req` parses and its range admits `o`'s version. */
  predicate Satisfies(d: Dialect, req: CapabilityRef, o: OfferedBinding) {
    d.parseReq(req.version).Some? && d.parseReq(req.version).value(o.version)
  }

  ghost predicate Resolvable(d: Dialect, table: Offerings, req: CapabilityRef) {
    exists o :: o in OffersOf(table, req.id) && Satisfies(d, req, o)
  }

  /** The requirements left over, in the order they were asked for. */
  ghost function Unresolved(d: Dialect, table: Offerings, required: seq<CapabilityRef>): seq<CapabilityRef>
  {
    if required == [] then []
    else
      var last := required[|required| - 1];
      Unresolved(d, table, required[..|required| - 1])
      + if Resolvable(d, table, last) then [] else [last]
  }

  /** `offers[k]` is the highest match, and the latest registered of equals. */
  ghost predicate IsBestAt(d: Dialect, offers: seq<OfferedBinding>, req: CapabilityRef, k: int) {
    && 0 <= k < |offers|
    && Satisfies(d, req, offers[k])
    && (forall j :: 0 <= j < |offers| && Satisfies(d, req, offers[j]) ==>
          AtMost(offers[j].version, offers[k].version))
    && (forall j :: k < j < |offers| && Satisfies(d, req, offers[j]) ==>
          Below(offers[j].version, offers[k].version))
  }

  ghost predicate IsBest(d: Dialect, offers: seq<OfferedBinding>, req: CapabilityRef, o: OfferedBinding) {
    exists k :: IsBestAt(d, offers, req, k) && offers[k] == o
  }

  /** Where the last requirement for `id` that anything satisfies stands, or -1. */
  ghost function LastMet(d: Dialect, table: Offerings, required: seq<CapabilityRef>, id: CapabilityId): (i: int)
    ensures -1 <= i < |required|
    ensures i >= 0 ==> required[i].id == id && Resolvable(d, table, required[i])
    ensures forall j :: i < j < |required| && required[j].id == id ==> !Resolvable(d, table, required[j])
  {
    var n := |required| - 1;
    if required == [] then -1
    else if required[n].id == id && Resolvable(d, table, required[n]) then n
    else LastMet(d, table, required[..n], id)
  }

  /** `resolved` answers `id` exactly when some requirement for it can be met, and
      then with the best match of the last one that can. */
  ghost predicate Answers(d: Dialect, table: Offerings, required: seq<CapabilityRef>,
                          resolved: map<CapabilityId, OfferedBinding>, id: CapabilityId)
  {
    var last := LastMet(d, table, required, id);
    && (id in resolved <==> last >= 0)
    && (id in resolved ==> IsBest(d, OffersOf(table, id), required[last], resolved[id]))
  }

  /** What a plan for `required` has to be. */
  ghost predicate Plans(d: Dialect, table: Offerings, required: seq<CapabilityRef>, plan: ResolutionPlan) {
    && plan.unresolved == Unresolved(d, table, required)
    && forall id :: Answers(d, table, required, plan.resolved, id)
  }

  /** One requirement more: the loop step of `Resolve`. */
  lemma PlanExtends(d: Dialect, table: Offerings, required: seq<CapabilityRef>, n: nat,
                    before: ResolutionPlan, best: Option<OfferedBinding>)
    requires n < |required|
    requires Plans(d, table, required[..n], before)
    requires best.None? <==> !Resolvable(d, table, required[n])
    requires best.Some? ==> IsBest(d, OffersOf(table, required[n].id), required[n], best.value)
    ensures Plans(d, table, required[..n + 1],
                  match best
                  case Some(o) => before.(resolved := before.resolved[required[n].id := o])
                  case None => before.(unresolved := before.unresolved + [required[n]]))
  {
    hide IsBest, Resolvable;
    var longer := required[..n + 1];
    assert longer[..n] == required[..n] && longer[n] == required[n];
    var after := if best.Some? then before.resolved[required[n].id := best.value] else before.resolved;
    forall id
      ensures Answers(d, table, longer, after, id)
    {
      assert Answers(d, table, required[..n], before.resolved, id);
    }
  }

  /** A best match is offered, is admitted, and no admitted offer is newer. */
  lemma BestIsHighest(d: Dialect, offers: seq<OfferedBinding>, req: CapabilityRef, o: OfferedBinding)
    requires IsBest(d, offers, req, o)
    ensures o in offers && Satisfies(d, req, o)
    ensures forall x :: x in offers && Satisfies(d, req, x) ==> AtMost(x.version, o.version)
  {
    hide AtMost, Below;
  }

  /** Two tables that differ only in the order things were registered in. */
  ghost predicate SameOffers(t1: Offerings, t2: Offerings) {
    forall id :: multiset(OffersOf(t1, id)) == multiset(OffersOf(t2, id))
  }

  lemma SameOffersMembers(t1: Offerings, t2: Offerings, id: CapabilityId)
    requires SameOffers(t1, t2)
    ensures forall o :: o in OffersOf(t1, id) <==> o in OffersOf(t2, id)
  {
    forall o
      ensures o in OffersOf(t1, id) <==> o in OffersOf(t2, id)
    {
      assert o in OffersOf(t1, id) <==> o in multiset(OffersOf(t1, id));
      assert o in OffersOf(t2, id) <==> o in multiset(OffersOf(t2, id));
    }
  }

  lemma {:induction false} SameOffersSameAnswers(
      d: Dialect, t1: Offerings, t2: Offerings, required: seq<CapabilityRef>, id: CapabilityId)
    requires SameOffers(t1, t2)
    ensures Unresolved(d, t1, required) == Unresolved(d, t2, required)
    ensures LastMet(d, t1, required, id) == LastMet(d, t2, required, id)
  {
    if required != [] {
      SameOffersSameAnswers(d, t1, t2, required[..|required| - 1], id);
      SameOffersMembers(t1, t2, required[|required| - 1].id);
    }
  }

  /** The rebuild walks a hash map, so registration order is arbitrary. The
      leftovers, the ids met and the versions chosen do not depend on it. */
  lemma ResolveIgnoresRegistrationOrder(
      d: Dialect, t1: Offerings, t2: Offerings, required: seq<CapabilityRef>,
      p1: ResolutionPlan, p2: ResolutionPlan)
    requires SameOffers(t1, t2)
    requires Plans(d, t1, required, p1) && Plans(d, t2, required, p2)
    ensures p1.unresolved == p2.unresolved
    ensures p1.resolved.Keys == p2.resolved.Keys
    ensures forall id :: id in p1.resolved ==> p1.resolved[id].version == p2.resolved[id].version
  {
    hide IsBest, Resolvable, AtMost, SameOffers;
    SameOffersSameAnswers(d, t1, t2, required, "");
    forall id
      ensures id in p1.resolved <==> id in p2.resolved
      ensures id in p1.resolved && id in p2.resolved ==> p1.resolved[id].version == p2.resolved[id].version
    {
      SameOffersSameAnswers(d, t1, t2, required, id);
      assert Answers(d, t1, required, p1.resolved, id) && Answers(d, t2, required, p2.resolved, id);
      if id in p1.resolved && id in p2.resolved {
        var req := required[LastMet(d, t1, required, id)];
        BestIsHighest(d, OffersOf(t1, id), req, p1.resolved[id]);
        BestIsHighest(d, OffersOf(t2, id), req, p2.resolved[id]);
        SameOffersMembers(t1, t2, id);
        CompareIsTotalOrder(p1.resolved[id].version, p2.resolved[id].version);
        CompareIsTotalOrder(p2.resolved[id].version, p1.resolved[id].version);
      }
    }
  }

  /** No two requirements ask for the same capability. */
  ghost predicate DistinctIds(required: seq<CapabilityRef>) {
    forall i, j :: 0 <= i < j < |required| ==> required[i].id != required[j].id
  }

  lemma AddingKeepsResolvable(d: Dialect, table: Offerings, o: OfferedBinding, req: CapabilityRef)
    ensures Resolvable(d, Added(table, o), req) <==>
            Resolvable(d, table, req) || (o.capId == req.id && Satisfies(d, req, o))
  {
    if x :| x in OffersOf(table, req.id) && Satisfies(d, req, x) {
      assert x in OffersOf(Added(table, o), req.id);
    }
    assert o in OffersOf(Added(table, o), o.capId);
  }

  /** Adding an offering leaves no requirement unresolved that was met before. */
  lemma {:induction false} AddingNeverUnresolves(
      d: Dialect, table: Offerings, o: OfferedBinding, required: seq<CapabilityRef>)
    ensures forall r :: r in Unresolved(d, Added(table, o), required) ==> r in Unresolved(d, table, required)
  {
    hide Resolvable;
    if required != [] {
      AddingNeverUnresolves(d, table, o, required[..|required| - 1]);
      AddingKeepsResolvable(d, table, o, required[|required| - 1]);
    }
  }

  /** Some requirement for `o`'s capability after position `i` admits `o`. */
  ghost predicate MetLater(d: Dialect, required: seq<CapabilityRef>, i: int, o: OfferedBinding) {
    exists j :: 0 <= j < |required| && i < j && required[j].id == o.capId && Satisfies(d, required[j], o)
  }

  /** The newcomer only ever moves the deciding requirement later. */
  lemma AddingMovesLastMet(d: Dialect, table: Offerings, o: OfferedBinding, required: seq<CapabilityRef>, id: CapabilityId)
    requires LastMet(d, table, required, id) >= 0
    ensures var i, k := LastMet(d, table, required, id), LastMet(d, Added(table, o), required, id);
            && i <= k
            && (i < k <==> o.capId == id && MetLater(d, required, i, o))
            && (i < k ==> Satisfies(d, required[k], o) && !Resolvable(d, table, required[k]))
  {
    hide Resolvable, Satisfies;
    var i, k := LastMet(d, table, required, id), LastMet(d, Added(table, o), required, id);
    AddingKeepsResolvable(d, table, o, required[i]);
    if i < k {
      AddingKeepsResolvable(d, table, o, required[k]);
    }
    if o.capId == id && MetLater(d, required, i, o) {
      var j :| 0 <= j < |required| && i < j && required[j].id == o.capId && Satisfies(d, required[j], o);
      AddingKeepsResolvable(d, table, o, required[j]);
    }
  }

  /** Once an offering is added, the version chosen for an id goes down exactly
      when a later requirement for that id, which nothing met before, is met by
      the newcomer, and the newcomer is older than what was chosen. */
  lemma AddingLowersExactlyWhen(
      d: Dialect, table: Offerings, o: OfferedBinding, required: seq<CapabilityRef>,
      before: ResolutionPlan, after: ResolutionPlan, id: CapabilityId)
    requires Plans(d, table, required, before) && Plans(d, Added(table, o), required, after)
    requires id in before.resolved
    ensures id in after.resolved
    ensures !AtMost(before.resolved[id].version, after.resolved[id].version) <==>
            && o.capId == id
            && MetLater(d, required, LastMet(d, table, required, id), o)
            && !AtMost(before.resolved[id].version, o.version)
  {
    hide IsBest, Resolvable, AtMost, Satisfies, MetLater;
    assert Answers(d, table, required, before.resolved, id);
    AddingMovesLastMet(d, table, o, required, id);
    var i, k := LastMet(d, table, required, id), LastMet(d, Added(table, o), required, id);
    assert Answers(d, Added(table, o), required, after.resolved, id);
    var was, now := before.resolved[id], after.resolved[id];
    BestIsHighest(d, OffersOf(table, id), required[i], was);
    BestIsHighest(d, OffersOf(Added(table, o), id), required[k], now);
    if i == k {
      assert was in OffersOf(Added(table, o), id);
    } else {
      NewlyMetByNewcomer(d, table, o, required[k], now);
    }
  }

  lemma NewlyMetByNewcomer(d: Dialect, table: Offerings, o: OfferedBinding, req: CapabilityRef, x: OfferedBinding)
    requires !Resolvable(d, table, req)
    requires x in OffersOf(Added(table, o), req.id) && Satisfies(d, req, x)
    ensures x == o
  {
  }

  /** With distinct ids, adding an offering never lowers a version. */
  lemma AddingNeverLowersDistinctIds(
      d: Dialect, table: Offerings, o: OfferedBinding, required: seq<CapabilityRef>,
      before: ResolutionPlan, after: ResolutionPlan)
    requires DistinctIds(required)
    requires Plans(d, table, required, before) && Plans(d, Added(table, o), required, after)
    ensures forall id :: id in before.resolved ==>
              id in after.resolved && AtMost(before.resolved[id].version, after.resolved[id].version)
  {
    forall id | id in before.resolved
      ensures id in after.resolved && AtMost(before.resolved[id].version, after.resolved[id].version)
    {
      hide IsBest, Resolvable, AtMost, Satisfies;
      assert Answers(d, table, required, before.resolved, id);
      AddingLowersExactlyWhen(d, table, o, required, before, after, id);
    }
  }

  /** Distinct ids are needed: ask for the same capability twice, and a newcomer
      that only meets the second request replaces the higher version already chosen. */
  lemma AddingCanLowerARepeatedId(
      d: Dialect, table: Offerings, required: seq<CapabilityRef>, v1: OfferedBinding, v2: OfferedBinding,
      before: ResolutionPlan, after: ResolutionPlan)
    requires v2 == OfferedBinding("x", "greentic:x/y", Version(2, 0, 0, [], []), "design", "")
    requires v1 == OfferedBinding("w", "greentic:x/y", Version(1, 0, 0, [], []), "design", "")
    requires d.parseReq("^2").Some? && d.parseReq("^2").value(v2.version) && !d.parseReq("^2").value(v1.version)
    requires d.parseReq("^1").Some? && d.parseReq("^1").value(v1.version) && !d.parseReq("^1").value(v2.version)
    requires required == [CapabilityRef("greentic:x/y", "^2"), CapabilityRef("greentic:x/y", "^1")]
    requires table == map["greentic:x/y" := [v2]]
    requires Plans(d, table, required, before) && Plans(d, Added(table, v1), required, after)
    ensures v2.capId in before.resolved && before.resolved[v2.capId] == v2
    ensures v2.capId in after.resolved && after.resolved[v2.capId] == v1
  {
    var cap := v2.capId;
    assert v2 in OffersOf(table, cap) && Satisfies(d, required[0], v2);
    assert Resolvable(d, table, required[0]);
    assert !Resolvable(d, table, required[1]);
    assert LastMet(d, table, required, cap) == 0;
    assert Answers(d, table, required, before.resolved, cap);
    BestIsHighest(d, OffersOf(table, cap), required[0], before.resolved[cap]);
    AddingKeepsResolvable(d, table, v1, required[1]);
    assert Satisfies(d, required[1], v1);
    assert LastMet(d, Added(table, v1), required, cap) == 1;
    assert Answers(d, Added(table, v1), required, after.resolved, cap);
    BestIsHighest(d, OffersOf(Added(table, v1), cap), required[1], after.resolved[cap]);
  }
}
