/** The runtime's mutation paths, one at a time: every one of them goes through
    `MutateLoaded`, which republishes the map and its index together. */
module Runtime {
  import opened Wrappers
  import opened Semver
  import opened Capability
  import opened CapabilityRegistries
  import opened Extensions

  datatype Failure = BadOfferedVersion | Downgrade(prevVersion: string)

  class ExtensionRuntime {
    const dialect: Dialect
    var loaded: LoadedMap
    var registry: CapabilityRegistry
    var events: seq<RuntimeEvent>

    /** The index agrees with the map, and replaying the events gives the loaded ids. */
    ghost predicate Valid()
      reads this, registry
    {
      && KeyedById(loaded)
      && Indexes(dialect, registry.offerings, loaded)
      && Replay(events) == loaded.Keys
    }

    constructor (dialect: Dialect)
      ensures Valid() && loaded == map[] && events == []
    {
      this.dialect := dialect;
      loaded := map[];
      registry := new CapabilityRegistry(dialect);
      events := [];
    }

    /** Derive the index from scratch, whatever order the map iterates in. */
    static method RebuildRegistry(dialect: Dialect, loaded: LoadedMap) returns (r: Result<CapabilityRegistry, Failure>)
      requires KeyedById(loaded)
      ensures r.Ok? <==> forall id, i :: id in loaded && 0 <= i < |loaded[id].describe.offered| ==>
                           dialect.parseVersion(loaded[id].describe.offered[i].version).Some?
      ensures r.Ok? ==> fresh(r.value) && Indexes(dialect, r.value.offerings, loaded)
    {
      var registry := new CapabilityRegistry(dialect);
      var todo := loaded.Keys;
      ghost var done: LoadedMap := map[];
      while todo != {}
        invariant todo <= loaded.Keys && done == loaded - todo
        invariant fresh(registry)
        invariant Indexes(dialect, registry.offerings, done)
        decreases todo
      {
        var id :| id in todo;
        var ext := loaded[id];
        ghost var base := registry.offerings;
        var ok := IndexExtension(dialect, registry, ext);
        if !ok {
          return Err(BadOfferedVersion);
        }
        IndexGrows(dialect, base, done, registry.offerings, ext);
        todo := todo - {id};
        done := done[id := ext];
        assert done == loaded - todo;
      }
      assert done == loaded;
      r := Ok(registry);
    }

    /** Add what one extension offers, stopping at the first version that does not parse. */
    static method IndexExtension(dialect: Dialect, registry: CapabilityRegistry, ext: LoadedExtension)
        returns (ok: bool)
      requires WellFiled(registry.offerings)
      modifies registry`offerings
      ensures ok <==> Parses(dialect, ext)
      ensures ok ==> WellFiled(registry.offerings)
      ensures ok ==> forall b :: IndexedCount(registry.offerings, b) ==
                                 IndexedCount(old(registry.offerings), b) + multiset(Bindings(dialect, ext))[b]
    {
      hide IndexedCount, WellFiled, Added;
      var offered := ext.describe.offered;
      ghost var base := registry.offerings;
      for i := 0 to |offered|
        invariant forall k :: 0 <= k < i ==> dialect.parseVersion(offered[k].version).Some?
        invariant WellFiled(registry.offerings)
        invariant forall b :: IndexedCount(registry.offerings, b) ==
                              IndexedCount(base, b) + multiset(FirstBindings(dialect, ext, i))[b]
      {
        match dialect.parseVersion(offered[i].version) {
          case None => return false;
          case Some(version) =>
            ghost var before := registry.offerings;
            var binding := BindingOf(dialect, ext, offered[i]);
            registry.AddOffering(binding);
            AddingCounts(before, binding);
            assert FirstBindings(dialect, ext, i + 1) == FirstBindings(dialect, ext, i) + [binding];
        }
      }
      assert FirstBindings(dialect, ext, |offered|) == Bindings(dialect, ext);
      ok := true;
    }

    method ApplyEdit(edit: Edit) returns (after: LoadedMap, out: Outcome)
      requires KeyedById(loaded)
      ensures Edits(dialect, edit, loaded, after, out) && KeyedById(after)
    {
      after := loaded;
      match edit {
        case Register(ext) =>
          after := after[ext.describe.id := ext];
          out := Installed(ext.describe.id);
        case Reload(ext) =>
          var id := ext.describe.id;
          if id !in after {
            after, out := after[id := ext], Installed(id);
          } else {
            var prev := after[id].describe.version;
            if IsDowngrade(dialect, prev, ext.describe.version) {
              out := Refused(id, prev);
            } else {
              after, out := after[id := ext], Updated(id, prev);
            }
          }
        case Evict(id) =>
          out := if id in after then Removed(id) else Untouched;
          after := after - {id};
        case RemoveAt(dir) =>
          if id :| id in after && after[id].sourceDir == dir {
            after, out := after - {id}, Removed(id);
          } else {
            out := Untouched;
          }
      }
    }

    /** Edit a copy, rebuild the index from the copy, publish both or neither. */
    method MutateLoaded(edit: Edit) returns (r: Result<Outcome, Failure>)
      requires KeyedById(loaded)
      modifies this`loaded, this`registry
      ensures KeyedById(loaded)
      ensures r.Ok? ==> fresh(registry) && Edits(dialect, edit, old(loaded), loaded, r.value)
      ensures r.Ok? ==> Indexes(dialect, registry.offerings, loaded)
      ensures r.Err? ==> loaded == old(loaded) && registry == old(registry)
      ensures r.Err? ==> exists after, out ::
                           Edits(dialect, edit, loaded, after, out) && !AllParse(dialect, after)
    {
      var after, out := ApplyEdit(edit);
      var rebuilt := RebuildRegistry(dialect, after);
      match rebuilt {
        case Err(e) => return Err(e);
        case Ok(registry') =>
          loaded := after;
          registry := registry';
          r := Ok(out);
      }
    }

    /** Explicit registration of an extension the load gate let through. There is
        no downgrade check here. */
    method RegisterLoaded(ext: LoadedExtension) returns (r: Result<(), Failure>)
      requires Valid()
      modifies this
      ensures Valid()
      ensures r.Ok? <==> forall i :: 0 <= i < |ext.describe.offered| ==>
                           dialect.parseVersion(ext.describe.offered[i].version).Some?
      ensures r.Ok? ==> loaded == old(loaded)[ext.describe.id := ext]
                        && events == old(events) + [ExtensionInstalled(ext.describe.id)]
      ensures r.Err? ==> loaded == old(loaded) && events == old(events)
    {
      var result := MutateLoaded(Register(ext));
      match result {
        case Err(e) => r := Err(e);
        case Ok(out) =>
          AnnouncedKeepsReplay(dialect, Register(ext), old(loaded), loaded, out, events);
          events := events + [ExtensionInstalled(ext.describe.id)];
          assert loaded[ext.describe.id] == ext;
          r := Ok(());
      }
    }

    /** The watcher's reload of an extension the load gate let through. */
    method HandleAddedOrModified(ext: LoadedExtension) returns (r: Result<(), Failure>)
      requires Valid()
      modifies this
      ensures Valid()
      ensures var id := ext.describe.id;
              var now := dialect.parseVersion(ext.describe.version);
              var was := if id in old(loaded) then dialect.parseVersion(old(loaded)[id].describe.version) else None;
              var refused := was.Some? && now.Some? && Below(now.value, was.value);
              var indexable := forall i :: 0 <= i < |ext.describe.offered| ==>
                                 dialect.parseVersion(ext.describe.offered[i].version).Some?;
              && (r.Ok? <==> !refused && indexable)
              && (r.Ok? ==> loaded == old(loaded)[id := ext])
              && (r.Ok? && id in old(loaded) ==>
                    events == old(events) + [ExtensionUpdated(id, old(loaded)[id].describe.version)])
              && (r.Ok? && id !in old(loaded) ==> events == old(events) + [ExtensionInstalled(id)])
              && (r.Err? ==> loaded == old(loaded) && events == old(events))
    {
      var result := MutateLoaded(Reload(ext));
      match result {
        case Err(e) => r := Err(e);
        case Ok(out) =>
          AnnouncedKeepsReplay(dialect, Reload(ext), old(loaded), loaded, out, events);
          if out.Refused? {
            assert events + [] == events;
            return Err(Downgrade(out.prevVersion));
          }
          events := events + Announced(out);
          assert loaded[ext.describe.id] == ext;
          r := Ok(());
      }
    }

    /** Dropping an extension by id cannot fail: what is left was indexed before. */
    method EvictId(id: ExtensionId)
      requires Valid()
      modifies this
      ensures Valid()
      ensures loaded == old(loaded) - {id}
      ensures events == old(events) + if id in old(loaded) then [ExtensionRemoved(id)] else []
    {
      var result := MutateLoaded(Evict(id));
      Announce(Evict(id), result, old(loaded));
    }

    /** Dropping whatever was loaded from `dir`: one entry, if there is any. */
    method HandleRemoval(dir: Path)
      requires Valid()
      modifies this
      ensures Valid()
      ensures (exists id :: id in old(loaded) && old(loaded)[id].sourceDir == dir) ==>
                exists id :: id in old(loaded) && old(loaded)[id].sourceDir == dir
                             && loaded == old(loaded) - {id} && events == old(events) + [ExtensionRemoved(id)]
      ensures (forall id :: id in old(loaded) ==> old(loaded)[id].sourceDir != dir) ==>
                loaded == old(loaded) && events == old(events)
    {
      var result := MutateLoaded(RemoveAt(dir));
      Announce(RemoveAt(dir), result, old(loaded));
      assert result.Ok? && Edits(dialect, RemoveAt(dir), old(loaded), loaded, result.value);
    }

    /** Report an eviction; the failing branch is ruled out by the caller's invariant. */
    method Announce(edit: Edit, found: Result<Outcome, Failure>, ghost was: LoadedMap)
      requires edit.Evict? || edit.RemoveAt?
      requires KeyedById(loaded) && AllParse(dialect, was) && Replay(events) == was.Keys
      requires found.Ok? ==> Edits(dialect, edit, was, loaded, found.value)
      requires found.Ok? ==> Indexes(dialect, registry.offerings, loaded)
      requires found.Err? ==> loaded == was && exists after, out ::
                                Edits(dialect, edit, was, after, out) && !AllParse(dialect, after)
      modifies this`events
      ensures found.Ok? && Valid()
      ensures events == old(events) + Announced(found.value)
    {
      match found {
        case Err(_) =>
          ghost var after, out :| Edits(dialect, edit, was, after, out) && !AllParse(dialect, after);
          EvictionAlwaysIndexable(dialect, edit, was, after, out);
        case Ok(out) =>
          AnnouncedKeepsReplay(dialect, edit, was, loaded, out, events);
          events := events + Announced(out);
      }
    }

    /** A removal event: whatever order the ids come in, exactly the entries whose
        source directory is gone are dropped, and each is announced once. */
    method EvictVanishedExtensions(stat: Path -> Presence)
      requires Valid()
      modifies this
      ensures Valid()
      ensures loaded == map id | id in old(loaded) && !stat(old(loaded)[id].sourceDir).NotFound? :: old(loaded)[id]
      ensures exists order: seq<ExtensionId> ::
                && (forall id :: id in order <==> id in old(loaded) && stat(old(loaded)[id].sourceDir).NotFound?)
                && (forall i, j :: 0 <= i < j < |order| ==> order[i] != order[j])
                && events == old(events) + seq(|order|, i requires 0 <= i < |order| => ExtensionRemoved(order[i]))
    {
      hide Indexes, KeyedById, Replay;
      var vanished := set id | id in loaded && HasVanished(stat, loaded[id].sourceDir);
      ghost var gone := vanished;
      ghost var order: seq<ExtensionId> := [];
      while vanished != {}
        invariant Valid() && vanished <= gone
        invariant gone == set id | id in old(loaded) && HasVanished(stat, old(loaded)[id].sourceDir)
        invariant loaded == old(loaded) - (gone - vanished)
        invariant forall id :: id in order <==> id in gone - vanished
        invariant forall i, j :: 0 <= i < j < |order| ==> order[i] != order[j]
        invariant events == old(events) + seq(|order|, i requires 0 <= i < |order| => ExtensionRemoved(order[i]))
        decreases vanished
      {
        var id :| id in vanished;
        EvictId(id);
        vanished := vanished - {id};
        order := order + [id];
      }
    }
  }

  /** The first `n` declared offerings as bindings. */
  ghost function FirstBindings(d: Dialect, e: LoadedExtension, n: nat): seq<OfferedBinding>
    requires n <= |e.describe.offered|
    requires forall k :: 0 <= k < n ==> d.parseVersion(e.describe.offered[k].version).Some?
  {
    seq(n, i requires 0 <= i < n => BindingOf(d, e, e.describe.offered[i]))
  }
}
