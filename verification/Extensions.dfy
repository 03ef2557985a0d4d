/** Loaded extensions, the edits made to the loaded map, and the registry index
    derived from it. */
module Extensions {
  import opened Wrappers
  import opened Semver
  import opened Capability

  /** An absolute path, as its components. */
  type Path = seq<string>

  datatype OfferedCapability = OfferedCapability(id: CapabilityId, version: string)

  /** The fields of a `describe.json` that decide identity, authority and code.
      `components` pairs each component id with its pack-relative file, if any. */
  datatype Describe = Describe(
    id: ExtensionId,
    version: string,
    kind: string,
    offered: seq<OfferedCapability>,
    publicKey: Option<string>,
    manifestSha256: Option<string>,
    components: seq<(string, Option<string>)>)

  datatype LoadedExtension = LoadedExtension(describe: Describe, sourceDir: Path, component: seq<byte>)

  type LoadedMap = map<ExtensionId, LoadedExtension>

  ghost predicate KeyedById(m: LoadedMap) {
    forall id :: id in m ==> m[id].describe.id == id
  }

  predicate Parses(d: Dialect, e: LoadedExtension) {
    forall i :: 0 <= i < |e.describe.offered| ==> d.parseVersion(e.describe.offered[i].version).Some?
  }

  /** Every version any loaded extension offers is one the registry can index. */
  ghost predicate AllParse(d: Dialect, m: LoadedMap) {
    forall id :: id in m ==> Parses(d, m[id])
  }

  function BindingOf(d: Dialect, e: LoadedExtension, cap: OfferedCapability): OfferedBinding
    requires d.parseVersion(cap.version).Some?
  {
    OfferedBinding(e.describe.id, cap.id, d.parseVersion(cap.version).value, e.describe.kind, "")
  }

  /** What one loaded extension declares, in declaration order. */
  function Bindings(d: Dialect, e: LoadedExtension): (bs: seq<OfferedBinding>)
    requires Parses(d, e)
    ensures |bs| == |e.describe.offered|
    ensures forall i :: 0 <= i < |bs| ==> bs[i] == BindingOf(d, e, e.describe.offered[i])
  {
    seq(|e.describe.offered|, i requires 0 <= i < |e.describe.offered| => BindingOf(d, e, e.describe.offered[i]))
  }

  ghost function DeclaredCount(d: Dialect, m: LoadedMap, b: OfferedBinding): nat
    requires AllParse(d, m)
  {
    if b.extensionId in m then multiset(Bindings(d, m[b.extensionId]))[b] else 0
  }

  ghost function IndexedCount(table: Offerings, b: OfferedBinding): nat {
    multiset(OffersOf(table, b.capId))[b]
  }

  /** Every offering is filed under its own capability. */
  ghost predicate WellFiled(table: Offerings) {
    forall cap, o :: cap in table && o in table[cap] ==> o.capId == cap
  }

  /** The registry is an index of the map: it advertises each declared offering
      exactly as often as it is declared, and nothing else. */
  ghost predicate Indexes(d: Dialect, table: Offerings, m: LoadedMap) {
    && AllParse(d, m)
    && WellFiled(table)
    && forall b :: IndexedCount(table, b) == DeclaredCount(d, m, b)
  }

  lemma AddingCounts(table: Offerings, o: OfferedBinding)
    requires WellFiled(table)
    ensures WellFiled(Added(table, o))
    ensures forall b :: IndexedCount(Added(table, o), b) == IndexedCount(table, b) + if b == o then 1 else 0
  {
  }

  /** Indexing one more extension: the outer loop step of the rebuild. */
  lemma IndexGrows(d: Dialect, base: Offerings, m: LoadedMap, table: Offerings, e: LoadedExtension)
    requires Indexes(d, base, m) && WellFiled(table) && Parses(d, e) && e.describe.id !in m
    requires forall b :: IndexedCount(table, b) == IndexedCount(base, b) + multiset(Bindings(d, e))[b]
    ensures Indexes(d, table, m[e.describe.id := e])
  {
    hide WellFiled, IndexedCount;
    var grown := m[e.describe.id := e];
    forall b
      ensures IndexedCount(table, b) == DeclaredCount(d, grown, b)
    {
      assert IndexedCount(base, b) == DeclaredCount(d, m, b);
      if b.extensionId != e.describe.id {
        assert b !in Bindings(d, e);
      }
    }
  }

  /** Whatever offers only readable versions has an index. */
  lemma {:induction false} IndexExists(d: Dialect, m: LoadedMap) returns (table: Offerings)
    requires KeyedById(m) && AllParse(d, m)
    ensures Indexes(d, table, m)
    decreases |m|
  {
    hide Indexes, AllParse;
    if m == map[] {
      table := map[];
      NothingIndexesNothing(d);
    } else {
      var id :| id in m;
      var rest := m - {id};
      assert m.Keys == rest.Keys + {id};
      assert rest[id := m[id]] == m;
      PartIsIndexable(d, m, rest, id);
      var base := IndexExists(d, rest);
      table := Filed(base, Bindings(d, m[id]));
      FiledIndexes(d, base, rest, m[id]);
    }
  }

  lemma NothingIndexesNothing(d: Dialect)
    ensures Indexes(d, map[], map[])
  {
  }

  lemma PartIsIndexable(d: Dialect, m: LoadedMap, rest: LoadedMap, id: ExtensionId)
    requires KeyedById(m) && AllParse(d, m) && id in m && rest == m - {id}
    ensures KeyedById(rest) && AllParse(d, rest) && Parses(d, m[id]) && m[id].describe.id == id
  {
  }

  lemma FiledIndexes(d: Dialect, base: Offerings, m: LoadedMap, e: LoadedExtension)
    requires Indexes(d, base, m) && Parses(d, e) && e.describe.id !in m
    ensures Indexes(d, Filed(base, Bindings(d, e)), m[e.describe.id := e])
  {
    FiledCounts(base, Bindings(d, e));
    IndexGrows(d, base, m, Filed(base, Bindings(d, e)), e);
  }

  ghost function Filed(base: Offerings, bs: seq<OfferedBinding>): Offerings {
    if bs == [] then base else Added(Filed(base, bs[..|bs| - 1]), bs[|bs| - 1])
  }

  lemma {:induction false} FiledCounts(base: Offerings, bs: seq<OfferedBinding>)
    requires WellFiled(base)
    ensures WellFiled(Filed(base, bs))
    ensures forall b :: IndexedCount(Filed(base, bs), b) == IndexedCount(base, b) + multiset(bs)[b]
  {
    hide WellFiled, IndexedCount, Added;
    if bs != [] {
      var n := |bs| - 1;
      FiledCounts(base, bs[..n]);
      AddingCounts(Filed(base, bs[..n]), bs[n]);
      assert bs == bs[..n] + [bs[n]];
    }
  }

  /** Is `candidate` an older release than `current`? Only when both parse. */
  predicate IsDowngrade(d: Dialect, current: string, candidate: string) {
    && d.parseVersion(current).Some? && d.parseVersion(candidate).Some?
    && Below(d.parseVersion(candidate).value, d.parseVersion(current).value)
  }

  /** The edits the runtime makes to the loaded map. */
  datatype Edit =
    | Register(ext: LoadedExtension)
    | Reload(ext: LoadedExtension)
    | Evict(id: ExtensionId)
    | RemoveAt(dir: Path)

  datatype Outcome =
    | Installed(id: ExtensionId)
    | Updated(id: ExtensionId, prevVersion: string)
    | Refused(id: ExtensionId, prevVersion: string)
    | Removed(id: ExtensionId)
    | Untouched

  /** `edit` may turn `m` into `after` with outcome `out`. Removal by directory
      takes whichever matching entry the map's iteration meets first. */
  ghost predicate Edits(d: Dialect, edit: Edit, m: LoadedMap, after: LoadedMap, out: Outcome) {
    match edit
    case Register(ext) =>
      out == Installed(ext.describe.id) && after == m[ext.describe.id := ext]
    case Reload(ext) =>
      var id := ext.describe.id;
      if id !in m then
        out == Installed(id) && after == m[id := ext]
      else if IsDowngrade(d, m[id].describe.version, ext.describe.version) then
        out == Refused(id, m[id].describe.version) && after == m
      else
        out == Updated(id, m[id].describe.version) && after == m[id := ext]
    case Evict(id) =>
      after == m - {id} && out == if id in m then Removed(id) else Untouched
    case RemoveAt(dir) =>
      if out.Removed? then
        out.id in m && m[out.id].sourceDir == dir && after == m - {out.id}
      else
        out == Untouched && after == m && forall id :: id in m ==> m[id].sourceDir != dir
  }

  lemma EditsKeepIds(d: Dialect, edit: Edit, m: LoadedMap, after: LoadedMap, out: Outcome)
    requires KeyedById(m) && Edits(d, edit, m, after, out)
    ensures KeyedById(after)
  {
  }

  /** What the filesystem answers about a path; not every error means it is gone. */
  datatype Presence = Present | NotFound | Unreadable

  predicate HasVanished(stat: Path -> Presence, dir: Path) {
    stat(dir).NotFound?
  }

  datatype RuntimeEvent =
    | ExtensionInstalled(id: ExtensionId)
    | ExtensionUpdated(id: ExtensionId, prevVersion: string)
    | ExtensionRemoved(id: ExtensionId)

  /** The event an outcome is announced by; refusals and no-ops are silent. */
  function Announced(out: Outcome): seq<RuntimeEvent> {
    match out
    case Installed(id) => [ExtensionInstalled(id)]
    case Updated(id, prev) => [ExtensionUpdated(id, prev)]
    case Removed(id) => [ExtensionRemoved(id)]
    case Refused(_, _) => []
    case Untouched => []
  }

  /** What a subscriber who starts from nothing believes to be loaded. */
  function Replay(events: seq<RuntimeEvent>): set<ExtensionId> {
    if events == [] then {}
    else
      var before := Replay(events[..|events| - 1]);
      match events[|events| - 1]
      case ExtensionInstalled(id) => before + {id}
      case ExtensionUpdated(id, _) => before + {id}
      case ExtensionRemoved(id) => before - {id}
  }

  /** Announcing an edit keeps a subscriber's picture equal to the loaded ids. */
  lemma AnnouncedKeepsReplay(d: Dialect, edit: Edit, m: LoadedMap, after: LoadedMap, out: Outcome,
                             events: seq<RuntimeEvent>)
    requires Edits(d, edit, m, after, out) && Replay(events) == m.Keys
    ensures Replay(events + Announced(out)) == after.Keys
  {
    var e := Announced(out);
    if e == [] {
      assert events + e == events;
    } else {
      assert (events + e)[..|events + e| - 1] == events;
    }
  }

  /** An edit that only takes entries away leaves nothing the index cannot hold. */
  lemma EvictionAlwaysIndexable(d: Dialect, edit: Edit, m: LoadedMap, after: LoadedMap, out: Outcome)
    requires edit.Evict? || edit.RemoveAt?
    requires AllParse(d, m) && Edits(d, edit, m, after, out)
    ensures AllParse(d, after)
  {
  }
}
