/** What a registry rebuilt from the loaded map advertises, in terms of the describes. */
module IndexReadings {
  import opened Wrappers
  import opened Semver
  import opened Capability
  import opened CapabilityReadings
  import opened Extensions

  /** `o` is what `e` declares in the `i`-th place. */
  predicate DeclaredAt(d: Dialect, e: LoadedExtension, i: int, o: OfferedBinding) {
    && 0 <= i < |e.describe.offered|
    && o.capId == e.describe.offered[i].id
    && d.parseVersion(e.describe.offered[i].version) == Some(o.version)
    && o.extensionId == e.describe.id
    && o.kind == e.describe.kind
    && o.exportPath == ""
  }

  lemma BindingIsDeclared(d: Dialect, e: LoadedExtension, o: OfferedBinding)
    requires Parses(d, e)
    ensures |Bindings(d, e)| == |e.describe.offered|
    ensures forall i :: 0 <= i < |Bindings(d, e)| ==> (Bindings(d, e)[i] == o <==> DeclaredAt(d, e, i, o))
  {
  }

  lemma {:induction false} CountIsPlaces(bs: seq<OfferedBinding>, o: OfferedBinding)
    ensures multiset(bs)[o] == |set i | 0 <= i < |bs| && bs[i] == o|
  {
    if bs != [] {
      var n := |bs| - 1;
      CountIsPlaces(bs[..n], o);
      assert bs == bs[..n] + [bs[n]];
      var before := set i | 0 <= i < |bs[..n]| && bs[..n][i] == o;
      var places := set i | 0 <= i < |bs| && bs[i] == o;
      assert places == if bs[n] == o then before + {n} else before;
    }
  }

  /** Under its own capability, an offering stands in the index exactly as often as the
      extension it names declares it, and nothing stands under any other. */
  lemma AdvertisedAsOftenAsDeclared(d: Dialect, table: Offerings, m: LoadedMap, cap: CapabilityId, o: OfferedBinding)
    requires Indexes(d, table, m)
    ensures o.capId != cap && cap in table ==> o !in table[cap]
    ensures o.capId == cap ==>
              (if cap in table then multiset(table[cap])[o] else 0) ==
              if o.extensionId in m
              then |set i | 0 <= i < |m[o.extensionId].describe.offered| && DeclaredAt(d, m[o.extensionId], i, o)|
              else 0
  {
    if o.capId == cap {
      assert IndexedCount(table, o) == DeclaredCount(d, m, o);
      assert cap !in table ==> multiset(OffersOf(table, cap))[o] == 0;
      if o.extensionId in m {
        var e := m[o.extensionId];
        BindingIsDeclared(d, e, o);
        CountIsPlaces(Bindings(d, e), o);
        hide Bindings;
        assert (set i | 0 <= i < |Bindings(d, e)| && Bindings(d, e)[i] == o)
            == set i | 0 <= i < |e.describe.offered| && DeclaredAt(d, e, i, o);
      }
    }
  }

  ghost predicate Declares(d: Dialect, m: LoadedMap, id: ExtensionId, o: OfferedBinding) {
    id in m && exists i :: DeclaredAt(d, m[id], i, o)
  }

  /** The index holds an offering under a capability exactly when some loaded extension
      declares that capability with a version that parses to that of the offering. */
  lemma AdvertisedExactlyWhen(d: Dialect, table: Offerings, m: LoadedMap, cap: CapabilityId, o: OfferedBinding)
    requires KeyedById(m) && Indexes(d, table, m)
    ensures cap in table && o in table[cap] <==> o.capId == cap && exists id :: Declares(d, m, id, o)
  {
    AdvertisedAsOftenAsDeclared(d, table, m, cap, o);
    hide Indexes, DeclaredAt;
    assert forall id :: Declares(d, m, id, o) ==> id == o.extensionId by {
      DeclarerIsNamed(d, m, o);
    }
    if o.capId == cap && o.extensionId in m {
      var places := set i | 0 <= i < |m[o.extensionId].describe.offered| && DeclaredAt(d, m[o.extensionId], i, o);
      DeclaredIsInPlace(d, m[o.extensionId], o);
      if places != {} {
        var i :| i in places;
        assert Declares(d, m, o.extensionId, o);
      }
      if i :| DeclaredAt(d, m[o.extensionId], i, o) {
        assert i in places;
      }
    }
    assert cap in table ==> (o in table[cap] <==> multiset(table[cap])[o] > 0);
  }

  lemma DeclarerIsNamed(d: Dialect, m: LoadedMap, o: OfferedBinding)
    requires KeyedById(m)
    ensures forall id :: Declares(d, m, id, o) ==> id == o.extensionId
  {
  }

  lemma DeclaredIsInPlace(d: Dialect, e: LoadedExtension, o: OfferedBinding)
    ensures forall i :: DeclaredAt(d, e, i, o) ==> 0 <= i < |e.describe.offered|
  {
  }

  /** From describe to resolution: a requirement can be met from the index exactly when
      some loaded extension declares its capability in a version inside the range. */
  lemma MetExactlyWhenDeclared(d: Dialect, table: Offerings, m: LoadedMap, r: CapabilityRef)
    requires KeyedById(m) && Indexes(d, table, m)
    ensures Met(d, table, r) <==> d.parseReq(r.version).Some? && exists id, i :: OffersInRange(d, m, id, i, r)
  {
    if Met(d, table, r) {
      var k :| 0 <= k < |table[r.id]| && d.parseReq(r.version).value(table[r.id][k].version);
      var o := table[r.id][k];
      AdvertisedExactlyWhen(d, table, m, r.id, o);
      var id :| Declares(d, m, id, o);
      var i :| DeclaredAt(d, m[id], i, o);
      assert OffersInRange(d, m, id, i, r);
    }
    if id, i :| d.parseReq(r.version).Some? && OffersInRange(d, m, id, i, r) {
      var e := m[id];
      var o := OfferedBinding(e.describe.id, r.id, d.parseVersion(e.describe.offered[i].version).value, e.describe.kind, "");
      assert DeclaredAt(d, e, i, o);
      assert Declares(d, m, id, o);
      AdvertisedExactlyWhen(d, table, m, r.id, o);
      var k :| 0 <= k < |table[r.id]| && table[r.id][k] == o;
    }
  }

  predicate OffersInRange(d: Dialect, m: LoadedMap, id: ExtensionId, i: int, r: CapabilityRef)
    requires d.parseReq(r.version).Some?
  {
    && id in m && 0 <= i < |m[id].describe.offered|
    && m[id].describe.offered[i].id == r.id
    && d.parseVersion(m[id].describe.offered[i].version).Some?
    && d.parseReq(r.version).value(d.parseVersion(m[id].describe.offered[i].version).value)
  }
}
