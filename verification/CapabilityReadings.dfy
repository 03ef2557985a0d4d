/** What plans and cycle reports mean in terms of the two parsers and the offering
    table alone. */
module CapabilityReadings {
  import opened Wrappers
  import opened Semver
  import opened Capability
  import opened DependencyGraph
  import opened CapabilityRegistries

  /** `r` parses, and the table holds a version of its capability inside the range. */
  ghost predicate Met(d: Dialect, table: Offerings, r: CapabilityRef) {
    && d.parseReq(r.version).Some?
    && r.id in table
    && exists k :: 0 <= k < |table[r.id]| && d.parseReq(r.version).value(table[r.id][k].version)
  }

  lemma MetIsResolvable(d: Dialect, table: Offerings, r: CapabilityRef)
    ensures Met(d, table, r) <==> Resolvable(d, table, r)
  {
    if Met(d, table, r) {
      var k :| 0 <= k < |table[r.id]| && d.parseReq(r.version).value(table[r.id][k].version);
      assert table[r.id][k] in OffersOf(table, r.id);
    }
    if Resolvable(d, table, r) {
      var o :| o in OffersOf(table, r.id) && Satisfies(d, r, o);
      var k :| 0 <= k < |table[r.id]| && table[r.id][k] == o;
    }
  }

  lemma {:induction false} UnresolvedHoldsExactly(d: Dialect, table: Offerings, required: seq<CapabilityRef>, r: CapabilityRef)
    ensures r in Unresolved(d, table, required) <==> r in required && !Met(d, table, r)
  {
    hide Met, Resolvable;
    if required != [] {
      var n := |required| - 1;
      UnresolvedHoldsExactly(d, table, required[..n], r);
      MetIsResolvable(d, table, required[n]);
      assert required == required[..n] + [required[n]];
    }
  }

  /** What a plan leaves over: a requirement that does not parse, names nothing that is
      offered, or whose range no offered version lies in. */
  lemma LeftOverExactlyWhen(d: Dialect, table: Offerings, required: seq<CapabilityRef>, plan: ResolutionPlan, r: CapabilityRef)
    requires Plans(d, table, required, plan)
    ensures r in plan.unresolved <==>
            && r in required
            && (|| d.parseReq(r.version).None?
                || r.id !in table
                || forall k :: 0 <= k < |table[r.id]| ==> !d.parseReq(r.version).value(table[r.id][k].version))
  {
    hide Answers;
    UnresolvedHoldsExactly(d, table, required, r);
  }

  /** Nothing that does not parse is ever taken for a wildcard. */
  lemma UnparseableIsLeftOver(d: Dialect, table: Offerings, required: seq<CapabilityRef>, plan: ResolutionPlan, r: CapabilityRef)
    requires Plans(d, table, required, plan) && r in required && d.parseReq(r.version).None?
    ensures r in plan.unresolved
  {
    hide Plans;
    LeftOverExactlyWhen(d, table, required, plan, r);
  }

  lemma {:induction false} UnresolvedConcat(d: Dialect, table: Offerings, a: seq<CapabilityRef>, b: seq<CapabilityRef>)
    ensures Unresolved(d, table, a + b) == Unresolved(d, table, a) + Unresolved(d, table, b)
  {
    if b == [] {
      assert a + b == a;
    } else {
      var n := |b| - 1;
      UnresolvedConcat(d, table, a, b[..n]);
      assert (a + b)[..|a| + n] == a + b[..n];
    }
  }

  /** Leftovers keep the order and the number of the requirements. */
  lemma LeftOverInOrder(
      d: Dialect, table: Offerings, a: seq<CapabilityRef>, b: seq<CapabilityRef>,
      pa: ResolutionPlan, pb: ResolutionPlan, both: ResolutionPlan)
    requires Plans(d, table, a, pa) && Plans(d, table, b, pb) && Plans(d, table, a + b, both)
    ensures both.unresolved == pa.unresolved + pb.unresolved
    ensures |a| == 1 ==> pa.unresolved == [] || pa.unresolved == a
  {
    hide Answers;
    UnresolvedConcat(d, table, a, b);
  }

  /** An id is resolved exactly when some requirement for it is met. */
  lemma ResolvedExactlyWhen(d: Dialect, table: Offerings, required: seq<CapabilityRef>, plan: ResolutionPlan, id: CapabilityId)
    requires Plans(d, table, required, plan)
    ensures id in plan.resolved <==> exists i :: 0 <= i < |required| && required[i].id == id && Met(d, table, required[i])
  {
    hide Met, Resolvable, IsBest;
    assert Answers(d, table, required, plan.resolved, id);
    forall i | 0 <= i < |required| ensures Met(d, table, required[i]) <==> Resolvable(d, table, required[i]) {
      MetIsResolvable(d, table, required[i]);
    }
  }

  /** And then by an offering at some place `k` of its own list, inside the range of
      the last requirement `i` for the id that is met: no version in that range is
      higher, and none registered later is as high. */
  lemma ResolvedTo(d: Dialect, table: Offerings, required: seq<CapabilityRef>, plan: ResolutionPlan, id: CapabilityId)
      returns (i: nat, k: nat)
    requires Plans(d, table, required, plan) && id in plan.resolved
    ensures i < |required| && required[i].id == id && Met(d, table, required[i])
    ensures forall j :: i < j < |required| && required[j].id == id ==> !Met(d, table, required[j])
    ensures k < |table[id]| && plan.resolved[id] == table[id][k]
    ensures var range, offers := d.parseReq(required[i].version).value, table[id];
            && range(offers[k].version)
            && (forall j :: 0 <= j < |offers| && range(offers[j].version) ==> !Below(offers[k].version, offers[j].version))
            && (forall j :: k < j < |offers| && range(offers[j].version) ==> Below(offers[j].version, offers[k].version))
  {
    assert Answers(d, table, required, plan.resolved, id);
    i := LastMet(d, table, required, id);
    forall j | 0 <= j < |required| ensures Met(d, table, required[j]) <==> Resolvable(d, table, required[j]) {
      MetIsResolvable(d, table, required[j]);
    }
    hide LastMet, Resolvable, Below, AtMost;
    var offers := OffersOf(table, id);
    var best :| IsBestAt(d, offers, required[i], best) && offers[best] == plan.resolved[id];
    k := best;
    forall j | 0 <= j < |offers| && Satisfies(d, required[i], offers[j])
      ensures !Below(offers[k].version, offers[j].version)
    {
      CompareIsTotalOrder(offers[k].version, offers[j].version);
    }
  }

  // ----- the dependency graph -----

  /** `b` offers a version inside the range of one of the listed `a`'s requirements. */
  ghost predicate Needs(g: Graph, a: ExtensionId, b: ExtensionId) {
    && a in g.requirements
    && exists i, k :: NeedsAt(g, g.requirements[a], i, k, b)
  }

  predicate NeedsAt(g: Graph, reqs: seq<CapabilityRef>, i: int, k: int, b: ExtensionId) {
    && 0 <= i < |reqs| && g.dialect.parseReq(reqs[i].version).Some?
    && reqs[i].id in g.table && 0 <= k < |g.table[reqs[i].id]|
    && g.dialect.parseReq(reqs[i].version).value(g.table[reqs[i].id][k].version)
    && g.table[reqs[i].id][k].extensionId == b
  }

  /** The edges cycle detection follows, and no others. */
  lemma EdgeExactlyWhen(g: Graph, a: ExtensionId, b: ExtensionId)
    ensures Edge(g, a, b) <==> Needs(g, a, b)
  {
    if Edge(g, a, b) {
      var req, o :| req in g.requirements[a] && o in OffersOf(g.table, req.id)
                    && Satisfies(g.dialect, req, o) && o.extensionId == b;
      var i :| 0 <= i < |g.requirements[a]| && g.requirements[a][i] == req;
      var k :| 0 <= k < |g.table[req.id]| && g.table[req.id][k] == o;
      assert NeedsAt(g, g.requirements[a], i, k, b);
    }
    if Needs(g, a, b) {
      var i, k :| NeedsAt(g, g.requirements[a], i, k, b);
      var req := g.requirements[a][i];
      assert g.table[req.id][k] in OffersOf(g.table, req.id) && Satisfies(g.dialect, req, g.table[req.id][k]);
    }
  }

  /** An extension all of whose ranges fail to parse, or leave out every version on
      offer, has no dependency and is never reported. */
  lemma NoRangeNoCycle(g: Graph, extensions: Listing, id: ExtensionId)
    requires id in g.requirements ==>
               forall i :: 0 <= i < |g.requirements[id]| ==>
                 var r := g.requirements[id][i];
                 || g.dialect.parseReq(r.version).None?
                 || r.id !in g.table
                 || forall k :: 0 <= k < |g.table[r.id]| ==>
                      !g.dialect.parseReq(r.version).value(g.table[r.id][k].version)
    ensures forall b :: !Edge(g, id, b)
    ensures id !in IdsReachingCycle(g, extensions)
  {
    forall b ensures !Edge(g, id, b) {
      EdgeExactlyWhen(g, id, b);
    }
    hide Edge;
    FlaggedExactlyWhen(g, extensions, id);
    if ReachesCycle(g, id) {
      var b := CyclesNeedAnEdge(g, id);
    }
  }

  lemma CyclesNeedAnEdge(g: Graph, e: ExtensionId) returns (b: ExtensionId)
    requires ReachesCycle(g, e)
    ensures Edge(g, e, b)
  {
    hide Edge;
    var c :| Reaches(g, e, c) && OnCycle(g, c);
    var w :| IsWalk(g, w) && w[0] == e && w[|w| - 1] == c;
    if |w| == 1 {
      w :| IsWalk(g, w) && |w| > 1 && w[0] == c && w[|w| - 1] == c;
    }
    b := w[0 + 1];
    assert Edge(g, w[0], w[0 + 1]);
  }

  /** Of several listings of an id, the last one counts. */
  lemma {:induction false} LastListingCounts(extensions: Listing, i: nat)
    requires i < |extensions|
    requires forall j :: i < j < |extensions| ==> extensions[j].0 != extensions[i].0
    ensures extensions[i].0 in Collected(extensions) && Collected(extensions)[extensions[i].0] == extensions[i].1
  {
    var n := |extensions| - 1;
    if i < n {
      LastListingCounts(extensions[..n], i);
    }
  }

  /** Reports keep listing order and repeat an id as often as it is listed. */
  lemma {:induction false} ReportedInOrder(g: Graph, a: Listing, b: Listing)
    ensures IdsReachingCycle(g, a + b) == IdsReachingCycle(g, a) + IdsReachingCycle(g, b)
  {
    hide ReachesCycle;
    if b == [] {
      assert a + b == a;
    } else {
      var n := |b| - 1;
      ReportedInOrder(g, a, b[..n]);
      assert (a + b)[..|a| + n] == a + b[..n];
    }
  }

  lemma ReportOfOne(g: Graph, id: ExtensionId, reqs: seq<CapabilityRef>)
    ensures IdsReachingCycle(g, [(id, reqs)]) == if ReachesCycle(g, id) then [id] else []
  {
    hide ReachesCycle;
    assert [(id, reqs)][..0] == [];
  }
}
