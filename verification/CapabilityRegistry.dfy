/** The registry itself: registration, resolution and cycle detection. */
module CapabilityRegistries {
  import opened Wrappers
  import opened Semver
  import opened Capability
  import opened DependencyGraph

  /** The shared `visited` set of one search. It holds the current path, not
      everything ever seen: entries are taken out again on the way back. */
  class PathSet {
    var ids: set<ExtensionId>

    constructor ()
      ensures ids == {}
    {
      ids := {};
    }

    /** True when `id` was not there yet. */
    method Insert(id: ExtensionId) returns (added: bool)
      modifies this
      ensures ids == old(ids) + {id}
      ensures added <==> id !in old(ids)
    {
      added := id !in ids;
      ids := ids + {id};
    }

    method Remove(id: ExtensionId)
      modifies this
      ensures ids == old(ids) - {id}
    {
      ids := ids - {id};
    }
  }

  /** The last listing of an id is the one that counts. */
  function Collected(extensions: Listing): map<ExtensionId, seq<CapabilityRef>> {
    if extensions == [] then map[]
    else
      var n := |extensions| - 1;
      Collected(extensions[..n])[extensions[n].0 := extensions[n].1]
  }

  /** The listed ids that reach a cycle, in listing order. */
  ghost function IdsReachingCycle(g: Graph, extensions: Listing): seq<ExtensionId> {
    if extensions == [] then []
    else
      var n := |extensions| - 1;
      IdsReachingCycle(g, extensions[..n])
      + if ReachesCycle(g, extensions[n].0) then [extensions[n].0] else []
  }

  ghost predicate Listed(extensions: Listing, id: ExtensionId) {
    exists i :: 0 <= i < |extensions| && extensions[i].0 == id
  }

  lemma {:induction false} CollectedHoldsTheListed(extensions: Listing, id: ExtensionId)
    ensures id in Collected(extensions) <==> Listed(extensions, id)
  {
    if extensions != [] {
      var n := |extensions| - 1;
      CollectedHoldsTheListed(extensions[..n], id);
      assert Listed(extensions[..n], id) ==> Listed(extensions, id);
      assert extensions[n].0 == id ==> Listed(extensions, id);
    }
  }

  lemma {:induction false} FlaggedExactlyWhen(g: Graph, extensions: Listing, id: ExtensionId)
    ensures id in IdsReachingCycle(g, extensions) <==> Listed(extensions, id) && ReachesCycle(g, id)
  {
    hide ReachesCycle;
    if extensions != [] {
      var n := |extensions| - 1;
      FlaggedExactlyWhen(g, extensions[..n], id);
      assert Listed(extensions[..n], id) ==> Listed(extensions, id);
      assert extensions[n].0 == id ==> Listed(extensions, id);
    }
  }

  /** What cycle detection is for: everything listed that it does not return can be
      activated, dependencies first, and depends on nothing listed that it returns. */
  lemma UnflaggedActivateInOrder(g: Graph, extensions: Listing) returns (order: seq<ExtensionId>)
    requires g.requirements == Collected(extensions)
    ensures forall id :: id in order <==> Listed(extensions, id) && id !in IdsReachingCycle(g, extensions)
    ensures forall i, j :: 0 <= i < j < |order| ==> order[i] != order[j]
    ensures RespectsDependencies(g, order)
    ensures forall a, b :: a in order && Edge(g, a, b) && Listed(extensions, b) ==> b in order
  {
    hide ReachesCycle, Edge, RespectsDependencies, Listed, IdsReachingCycle;
    var ids := set id | id in g.requirements && !ReachesCycle(g, id);
    order := ActivationOrderExists(g, ids);
    forall id
      ensures id in ids <==> Listed(extensions, id) && id !in IdsReachingCycle(g, extensions)
    {
      CollectedHoldsTheListed(extensions, id);
      FlaggedExactlyWhen(g, extensions, id);
    }
    forall a, b | a in order && Edge(g, a, b) && Listed(extensions, b)
      ensures b in order
    {
      AcyclicIsClosedUnderDependency(g, a, b);
      CollectedHoldsTheListed(extensions, b);
    }
  }

  class CapabilityRegistry {
    const dialect: Dialect
    var offerings: Offerings

    constructor (dialect: Dialect)
      ensures this.dialect == dialect && offerings == map[]
    {
      this.dialect := dialect;
      offerings := map[];
    }

    method AddOffering(o: OfferedBinding)
      modifies this`offerings
      ensures offerings == Added(old(offerings), o)
      ensures o.capId in offerings
      ensures offerings[o.capId] == (if o.capId in old(offerings) then old(offerings)[o.capId] else []) + [o]
      ensures forall cap :: cap != o.capId ==>
                (cap in offerings <==> cap in old(offerings)) && (cap in offerings ==> offerings[cap] == old(offerings)[cap])
    {
      if o.capId !in offerings {
        offerings := offerings[o.capId := []];
      }
      offerings := offerings[o.capId := offerings[o.capId] + [o]];
    }

    /** The filtered `max_by`: scanning forward, a later equal replaces an earlier one. */
    method BestMatch(req: CapabilityRef) returns (best: Option<OfferedBinding>)
      requires dialect.parseReq(req.version).Some?
      ensures best.None? <==> !Resolvable(dialect, offerings, req)
      ensures best.Some? ==> IsBest(dialect, OffersOf(offerings, req.id), req, best.value)
    {
      best := None;
      if req.id !in offerings {
        return;
      }
      var offers := offerings[req.id];
      ghost var at := 0;
      for i := 0 to |offers|
        invariant best.None? ==> forall j :: 0 <= j < i ==> !Satisfies(dialect, req, offers[j])
        invariant best.Some? ==> 0 <= at < i && offers[at] == best.value
        invariant best.Some? ==> IsBestAt(dialect, offers[..i], req, at)
      {
        ghost var before := offers[..i];
        assert offers[..i + 1] == before + [offers[i]];
        if Satisfies(dialect, req, offers[i]) {
          if best.None? {
            CompareIsTotalOrder(offers[i].version, offers[i].version);
            best, at := Some(offers[i]), i;
          } else {
            CompareIsTotalOrder(best.value.version, offers[i].version);
            CompareIsTotalOrder(offers[i].version, offers[i].version);
            if AtMost(best.value.version, offers[i].version) {
              forall j | 0 <= j < i && Satisfies(dialect, req, offers[j])
                ensures AtMost(offers[j].version, offers[i].version)
              {
                assert before[j] == offers[j];
                CompareTransitive(offers[j].version, best.value.version, offers[i].version);
              }
              best, at := Some(offers[i]), i;
            }
          }
        }
      }
      assert offers[..|offers|] == offers;
      if best.Some? {
        assert IsBestAt(dialect, offers, req, at);
      }
    }

    method Resolve(consumer: string, required: seq<CapabilityRef>) returns (plan: ResolutionPlan)
      ensures plan.consumer == consumer
      ensures Plans(dialect, offerings, required, plan)
    {
      var resolved: map<CapabilityId, OfferedBinding> := map[];
      var unresolved: seq<CapabilityRef> := [];
      for n := 0 to |required|
        invariant Plans(dialect, offerings, required[..n], ResolutionPlan(consumer, resolved, unresolved))
      {
        ghost var before := ResolutionPlan(consumer, resolved, unresolved);
        var req := required[n];
        var best := None;
        if dialect.parseReq(req.version).Some? {
          best := BestMatch(req);
        }
        match best {
          case Some(o) => resolved := resolved[req.id := o];
          case None => unresolved := unresolved + [req];
        }
        PlanExtends(dialect, offerings, required, n, before, best);
      }
      assert required[..|required|] == required;
      plan := ResolutionPlan(consumer, resolved, unresolved);
    }

    /** The listed ids whose dependencies reach a cycle, in listing order. */
    method DetectCycle(extensions: Listing) returns (inCycle: seq<ExtensionId>)
      ensures inCycle == IdsReachingCycle(Graph(dialect, offerings, Collected(extensions)), extensions)
    {
      var requirements: map<ExtensionId, seq<CapabilityRef>> := map[];
      for i := 0 to |extensions|
        invariant requirements == Collected(extensions[..i])
      {
        requirements := requirements[extensions[i].0 := extensions[i].1];
        assert extensions[..i + 1][..i] == extensions[..i];
      }
      assert extensions[..|extensions|] == extensions;

      ghost var g := Graph(dialect, offerings, requirements);
      inCycle := [];
      for i := 0 to |extensions|
        invariant offerings == g.table
        invariant inCycle == IdsReachingCycle(g, extensions[..i])
      {
        var visited := new PathSet();
        var found := DfsHasCycle(extensions[i].0, requirements, visited);
        CanCloseIsReachesCycle(g, extensions[i].0);
        if found {
          inCycle := inCycle + [extensions[i].0];
        }
        assert extensions[..i + 1][..i] == extensions[..i];
      }
    }

    /** Depth-first search along dependencies; true exactly when some walk from
        `id` runs into the current path or into itself. A false answer leaves
        the path as it was found. */
    method DfsHasCycle(id: ExtensionId, requirements: map<ExtensionId, seq<CapabilityRef>>, visited: PathSet)
        returns (found: bool)
      modifies visited
      ensures found <==> CanClose(Graph(dialect, offerings, requirements), old(visited.ids), id)
      ensures !found ==> visited.ids == old(visited.ids)
      decreases requirements.Keys - visited.ids
    {
      ghost var g := Graph(dialect, offerings, requirements);
      ghost var path := visited.ids;
      CanCloseUnfolds(g, path, id);
      var added := visited.Insert(id);
      if !added {
        return true;
      }
      if id !in requirements {
        visited.Remove(id);
        return false;
      }
      var reqs := requirements[id];
      for i := 0 to |reqs|
        invariant visited.ids == path + {id}
        invariant forall k, o ::
                    0 <= k < i && o in OffersOf(offerings, reqs[k].id) && Satisfies(dialect, reqs[k], o) ==>
                      !CanClose(g, path + {id}, o.extensionId)
      {
        var req := reqs[i];
        if dialect.parseReq(req.version).Some? && req.id in offerings {
          var offers := offerings[req.id];
          for j := 0 to |offers|
            invariant visited.ids == path + {id}
            invariant forall k :: 0 <= k < j && Satisfies(dialect, req, offers[k]) ==>
                        !CanClose(g, path + {id}, offers[k].extensionId)
          {
            if dialect.parseReq(req.version).value(offers[j].version) {
              var closes := DfsHasCycle(offers[j].extensionId, requirements, visited);
              if closes {
                assert Edge(g, id, offers[j].extensionId);
                return true;
              }
            }
          }
        }
      }
      visited.Remove(id);
      found := false;
    }
  }
}
