/** Runs of loads, reloads and evictions, with the filesystem free to change
    between any two reads and several loads under way at once. */
module LoadRuns {
  import opened Wrappers
  import opened Semver
  import opened Capability
  import opened Extensions
  import opened PackTree
  import opened LoadGate

  datatype Gated = Gated(describe: Describe, ledger: Ledger, dir: Path)

  /** `gated` passed the gate, `ready` were instantiated, `everLoaded` were at some
      time published; none of these is ever forgotten. */
  datatype State = State(
    pins: Pins,
    gated: set<Gated>,
    ready: set<LoadedExtension>,
    loaded: LoadedMap,
    everLoaded: set<LoadedExtension>)

  /** Each tree argument is whatever the pack happens to look like at that read;
      `usable` is whether the trust store can be resolved, read and written then. */
  datatype Step =
    | PassGate(dir: Path, atDescribe: Pack, atManifest: Pack, usable: bool)
    | Instantiate(item: Gated, atPick: Pack, atRead: Pack)
    | Publish(edit: Edit, after: LoadedMap, out: Outcome)
    | PinElsewhere(id: ExtensionId, key: Key)

  ghost predicate Init(s: State) {
    s.gated == {} && s.ready == {} && s.loaded == map[] && s.everLoaded == {}
  }

  ghost predicate Next(w: World, dl: Dialect, s: State, step: Step, s': State) {
    match step
    case PassGate(dir, atDescribe, atManifest, usable) =>
      var pins' := PinsAfterGate(w, s.pins, atDescribe, atManifest, usable);
      if GatePasses(w, s.pins, atDescribe, atManifest, usable) then
        var (d, ledger) := Passed(w, atDescribe, atManifest);
        s' == s.(pins := pins', gated := s.gated + {Gated(d, ledger, dir)})
      else
        s' == s.(pins := pins')
    case Instantiate(item, atPick, atRead) =>
      && item in s.gated
      && (match FromVerified(w, item.describe, item.ledger, item.dir, atPick, atRead)
          case Ok(e) => s' == s.(ready := s.ready + {e})
          case Err(_) => s' == s)
    case Publish(edit, after, out) =>
      && (edit.Register? || edit.Reload? ==> edit.ext in s.ready)
      && Edits(dl, edit, s.loaded, after, out) && AllParse(dl, after)
      && s' == s.(loaded := after,
                  everLoaded := s.everLoaded + if out.Installed? || out.Updated? then {edit.ext} else {})
    case PinElsewhere(id, key) =>
      Anchors(s.pins, id, key) && s' == s.(pins := s.pins[id := key])
  }

  ghost predicate IsRun(w: World, dl: Dialect, run: seq<State>, steps: seq<Step>) {
    && |run| == |steps| + 1 && Init(run[0])
    && forall i :: 0 <= i < |steps| ==> Next(w, dl, run[i], steps[i], run[i + 1])
  }

  /** The ledger is the one a manifest gives whose digest the signed describe names. */
  ghost predicate Binds(w: World, d: Describe, ledger: Ledger) {
    && w.selfConsistent(d) && d.publicKey.Some?
    && exists raw :: BindsBy(w, d, ledger, raw)
  }

  ghost predicate BindsBy(w: World, d: Describe, ledger: Ledger, raw: seq<byte>) {
    && d.manifestSha256 == Some(w.sha256(raw))
    && w.parseManifest(raw).Some?
    && AllRelative(w.parseManifest(raw).value.entries)
    && ledger == LedgerOf(w.parseManifest(raw).value.entries)
  }

  /** The component is exactly bytes whose digest such a ledger records. */
  ghost predicate Vouched(w: World, e: LoadedExtension) {
    exists ledger, path :: Binds(w, e.describe, ledger) && Records(w, ledger, path, e.component)
  }

  predicate Records(w: World, ledger: Ledger, path: Path, bytes: seq<byte>) {
    path in ledger && ledger[path] == w.sha256(bytes)
  }

  ghost predicate Anchored(pins: Pins, d: Describe) {
    d.id in pins && d.publicKey == Some(pins[d.id])
  }

  ghost predicate Inv(w: World, s: State) {
    && (forall g :: g in s.gated ==> Binds(w, g.describe, g.ledger) && Anchored(s.pins, g.describe))
    && (forall e :: e in s.ready ==> Vouched(w, e) && Anchored(s.pins, e.describe))
    && s.everLoaded <= s.ready
    && (forall id :: id in s.loaded ==> s.loaded[id] in s.everLoaded)
  }

  lemma GateBinds(w: World, atDescribe: Pack, atManifest: Pack)
    requires IntegrityHolds(w, atDescribe, atManifest)
    ensures var d := ReadDescribe(w, atDescribe).value;
            Binds(w, d, LedgerOf(BoundManifest(w, atManifest, d).value.entries))
  {
    hide Listing, Nesting, LedgerOf;
    var d := ReadDescribe(w, atDescribe).value;
    var raw := ReadFile(atManifest, MANIFEST_PATH).value;
    assert BindsBy(w, d, LedgerOf(BoundManifest(w, atManifest, d).value.entries), raw);
  }

  lemma InstanceVouched(w: World, d: Describe, ledger: Ledger, dir: Path, atPick: Pack, atRead: Pack)
    requires Binds(w, d, ledger)
    requires FromVerified(w, d, ledger, dir, atPick, atRead).Ok?
    ensures var e := FromVerified(w, d, ledger, dir, atPick, atRead).value;
            e.describe == d && Vouched(w, e)
  {
    hide Binds, Lstat, PackRelative;
    var e := FromVerified(w, d, ledger, dir, atPick, atRead).value;
    var path := WasmComponentPath(d, atPick).value;
    assert Records(w, ledger, path, e.component);
  }

  /** What the gate hands on is bound and anchored, and no pin it found changes. */
  lemma GateAnchors(w: World, pins: Pins, atDescribe: Pack, atManifest: Pack, usable: bool)
    ensures var after := PinsAfterGate(w, pins, atDescribe, atManifest, usable);
            forall id :: id in pins ==> id in after && after[id] == pins[id]
    ensures GatePasses(w, pins, atDescribe, atManifest, usable) ==>
              var (d, ledger) := Passed(w, atDescribe, atManifest);
              Binds(w, d, ledger) && Anchored(PinsAfterGate(w, pins, atDescribe, atManifest, usable), d)
  {
    hide IntegrityHolds, Binds, LedgerOf, BoundManifest, ReadDescribe, PackHolds;
    if IntegrityHolds(w, atDescribe, atManifest) {
      GateBinds(w, atDescribe, atManifest);
      IntegrityMeansReadable(w, atDescribe, atManifest);
    }
  }

  lemma StepKeeps(w: World, dl: Dialect, s: State, step: Step, s': State)
    requires Inv(w, s) && Next(w, dl, s, step, s')
    ensures Inv(w, s')
    ensures forall id :: id in s.pins ==> id in s'.pins && s'.pins[id] == s.pins[id]
  {
    hide Binds, Vouched, FromVerified, GatePasses, PinsAfterGate, Passed;
    match step {
      case PassGate(dir, atDescribe, atManifest, usable) =>
        GateAnchors(w, s.pins, atDescribe, atManifest, usable);
      case Instantiate(item, atPick, atRead) =>
        if FromVerified(w, item.describe, item.ledger, item.dir, atPick, atRead).Ok? {
          InstanceVouched(w, item.describe, item.ledger, item.dir, atPick, atRead);
        }
      case Publish(edit, after, out) =>
      case PinElsewhere(id, key) =>
    }
  }

  lemma {:induction false} RunKeeps(w: World, dl: Dialect, run: seq<State>, steps: seq<Step>, i: nat)
    requires IsRun(w, dl, run, steps) && i < |run|
    ensures Inv(w, run[i])
  {
    hide Next;
    if i > 0 {
      RunKeeps(w, dl, run, steps, i - 1);
      assert Next(w, dl, run[i - 1], steps[i - 1], run[i - 1 + 1]);
      StepKeeps(w, dl, run[i - 1], steps[i - 1], run[i]);
    }
  }

  /** Everything loaded, in every state of every run, runs bytes its own signed
      describe committed to, however the directory changed meanwhile; and all that
      was ever loaded under one id carries the one key pinned for that id. */
  lemma LoadedCodeIsVouchedAndAnchored(w: World, dl: Dialect, run: seq<State>, steps: seq<Step>, i: nat)
    requires IsRun(w, dl, run, steps) && i < |run|
    ensures forall id :: id in run[i].loaded ==> Vouched(w, run[i].loaded[id])
    ensures forall e :: e in run[i].everLoaded ==> Vouched(w, e) && Anchored(run[i].pins, e.describe)
    ensures forall e, f :: e in run[i].everLoaded && f in run[i].everLoaded && e.describe.id == f.describe.id ==>
              e.describe.publicKey == f.describe.publicKey
  {
    hide Vouched;
    RunKeeps(w, dl, run, steps, i);
  }

  /** The gate writes to the trust store exactly when the pack's integrity held, the
      id had no pin and the store could be written; failing integrity never does. */
  lemma GateWritesExactlyWhen(w: World, pins: Pins, atDescribe: Pack, atManifest: Pack, usable: bool)
    ensures PinsAfterGate(w, pins, atDescribe, atManifest, usable) != pins <==>
            usable && IntegrityHolds(w, atDescribe, atManifest) && ReadDescribe(w, atDescribe).value.id !in pins
    ensures PinsAfterGate(w, pins, atDescribe, atManifest, usable) != pins ==>
              GatePasses(w, pins, atDescribe, atManifest, usable)
  {
    hide IntegrityHolds, ReadDescribe, PackHolds;
    if IntegrityHolds(w, atDescribe, atManifest) {
      IntegrityMeansReadable(w, atDescribe, atManifest);
      var d := ReadDescribe(w, atDescribe).value;
      if usable && d.id !in pins {
        assert d.id in PinsAfterGate(w, pins, atDescribe, atManifest, usable);
      } else if usable && pins[d.id] == d.publicKey.value {
        assert pins[d.id := d.publicKey.value] == pins;
      }
    }
  }

  lemma IntegrityMeansReadable(w: World, atDescribe: Pack, atManifest: Pack)
    ensures IntegrityHolds(w, atDescribe, atManifest) ==>
              ReadDescribe(w, atDescribe).Some? && ReadDescribe(w, atDescribe).value.publicKey.Some?
  {
    hide PackHolds;
  }

  // ----- one whole load -----

  /** All that a load meets on its way: the tree at each read, the trust store, and
      whether it is an explicit registration or the watcher's reload. */
  datatype Load = Load(
    dir: Path, atDescribe: Pack, atManifest: Pack, usable: bool, atPick: Pack, atRead: Pack, reload: bool)

  /** What the instantiation makes of a pack whose integrity held. */
  ghost function Instance(w: World, load: Load): Result<LoadedExtension, Refusal>
    requires IntegrityHolds(w, load.atDescribe, load.atManifest)
  {
    var (d, ledger) := Passed(w, load.atDescribe, load.atManifest);
    FromVerified(w, d, ledger, load.dir, load.atPick, load.atRead)
  }

  ghost function PinsAfter(w: World, pins: Pins, load: Load): Pins {
    PinsAfterGate(w, pins, load.atDescribe, load.atManifest, load.usable)
  }

  ghost predicate Publishes(dl: Dialect, m: LoadedMap, edit: Edit) {
    exists after, out :: Edits(dl, edit, m, after, out) && !out.Refused? && AllParse(dl, after)
  }

  /** The load goes through: the gate against `pins`, the component, and a map
      published over `m`, which other loads may have changed since the gate. */
  ghost predicate Loads(w: World, dl: Dialect, pins: Pins, m: LoadedMap, load: Load) {
    && GatePasses(w, pins, load.atDescribe, load.atManifest, load.usable)
    && Instance(w, load).Ok?
    && Publishes(dl, m, EditOf(load, Instance(w, load).value))
  }

  function EditOf(load: Load, e: LoadedExtension): Edit {
    if load.reload then Reload(e) else Register(e)
  }

  predicate OffersParse(dl: Dialect, d: Describe) {
    forall i :: 0 <= i < |d.offered| ==> dl.parseVersion(d.offered[i].version).Some?
  }

  /** The watcher's reload of `d` meets a newer release of the same id. */
  predicate RefusedAsOlder(dl: Dialect, m: LoadedMap, load: Load, d: Describe) {
    && load.reload && d.id in m
    && IsDowngrade(dl, m[d.id].describe.version, d.version)
  }

  /** What every state of a run also keeps about the loaded map. */
  ghost predicate MapInv(dl: Dialect, s: State) {
    KeyedById(s.loaded) && AllParse(dl, s.loaded)
  }

  lemma {:induction false} RunKeepsMap(w: World, dl: Dialect, run: seq<State>, steps: seq<Step>, i: nat)
    requires IsRun(w, dl, run, steps) && i < |run|
    ensures MapInv(dl, run[i])
  {
    hide IntegrityHolds, FromVerified, LedgerOf, BoundManifest, ReadDescribe, PackHolds;
    if i > 0 {
      RunKeepsMap(w, dl, run, steps, i - 1);
      assert Next(w, dl, run[i - 1], steps[i - 1], run[i - 1 + 1]);
    }
  }

  lemma PublishesExactlyWhen(dl: Dialect, m: LoadedMap, load: Load, e: LoadedExtension)
    requires KeyedById(m) && AllParse(dl, m)
    ensures Publishes(dl, m, EditOf(load, e)) <==>
            OffersParse(dl, e.describe) && !RefusedAsOlder(dl, m, load, e.describe)
  {
    hide IsDowngrade;
    var id, edit := e.describe.id, EditOf(load, e);
    var grown := m[id := e];
    var out := if load.reload && id in m then Updated(id, m[id].describe.version) else Installed(id);
    assert grown[id] == e;
    assert OffersParse(dl, e.describe) <==> AllParse(dl, grown);
    assert !RefusedAsOlder(dl, m, load, e.describe) ==> Edits(dl, edit, m, grown, out);
  }

  lemma InstanceHasTheDescribe(w: World, load: Load)
    requires IntegrityHolds(w, load.atDescribe, load.atManifest) && Instance(w, load).Ok?
    ensures Instance(w, load).value.describe == Passed(w, load.atDescribe, load.atManifest).0
  {
    hide PackHolds, LedgerOf, BoundManifest, ReadVerified, WasmComponentPath;
  }

  /** The gate passed and pinned a new id. */
  ghost predicate PinsAnew(w: World, pins: Pins, load: Load) {
    && load.usable && IntegrityHolds(w, load.atDescribe, load.atManifest)
    && Passed(w, load.atDescribe, load.atManifest).0.id !in pins
  }

  ghost predicate ComponentFails(w: World, load: Load)
    requires IntegrityHolds(w, load.atDescribe, load.atManifest)
  {
    var (d, ledger) := Passed(w, load.atDescribe, load.atManifest);
    BadComponent(w, d, ledger, load.atPick, load.atRead)
  }

  /** A load that fails leaves a new pin behind exactly when the pack's integrity
      held, the id had no pin, the trust store took it, and then one of the later
      guards fails: no component can be picked or what is read of it is missing,
      unlisted, altered or no component; an offered version does not parse; or a
      newer release was published between the gate, in state `i`, and the edit, in
      state `j`. */
  lemma PinOutlivesItsLoadExactlyWhen(
      w: World, dl: Dialect, run: seq<State>, steps: seq<Step>, i: nat, j: nat, load: Load)
    requires IsRun(w, dl, run, steps) && i <= j < |run|
    ensures var pins, m := run[i].pins, run[j].loaded;
            !Loads(w, dl, pins, m, load) && PinsAfter(w, pins, load) != pins <==>
            && PinsAnew(w, pins, load)
            && var d := Passed(w, load.atDescribe, load.atManifest).0;
               ComponentFails(w, load) || !OffersParse(dl, d) || RefusedAsOlder(dl, m, load, d)
  {
    hide IntegrityHolds, FromVerified, BadComponent, ReadDescribe, IsRun, Publishes, RefusedAsOlder, OffersParse, LedgerOf, BoundManifest;
    RunKeepsMap(w, dl, run, steps, j);
    GateWritesExactlyWhen(w, run[i].pins, load.atDescribe, load.atManifest, load.usable);
    if IntegrityHolds(w, load.atDescribe, load.atManifest) {
      var (d, ledger) := Passed(w, load.atDescribe, load.atManifest);
      InstantiatesExactlyWhen(w, d, ledger, load.dir, load.atPick, load.atRead);
      if Instance(w, load).Ok? {
        InstanceHasTheDescribe(w, load);
        PublishesExactlyWhen(dl, run[j].loaded, load, Instance(w, load).value);
      }
    }
  }

  /** When nothing else is published meanwhile, the last cause falls away: an id
      without a pin is not loaded. */
  lemma UndisturbedPinOutlivesItsLoadExactlyWhen(
      w: World, dl: Dialect, run: seq<State>, steps: seq<Step>, i: nat, load: Load)
    requires IsRun(w, dl, run, steps) && i < |run|
    ensures var s := run[i];
            !Loads(w, dl, s.pins, s.loaded, load) && PinsAfter(w, s.pins, load) != s.pins <==>
            && PinsAnew(w, s.pins, load)
            && (ComponentFails(w, load) || !OffersParse(dl, Passed(w, load.atDescribe, load.atManifest).0))
  {
    hide IntegrityHolds, ComponentFails, OffersParse, Passed, IsRun, Loads, PinsAfter, MapInv, Inv;
    PinOutlivesItsLoadExactlyWhen(w, dl, run, steps, i, i, load);
    if IntegrityHolds(w, load.atDescribe, load.atManifest) {
      RunKeeps(w, dl, run, steps, i);
      RunKeepsMap(w, dl, run, steps, i);
      LoadedIsPinned(w, dl, run[i], Passed(w, load.atDescribe, load.atManifest).0.id);
    }
  }

  lemma LoadedIsPinned(w: World, dl: Dialect, s: State, id: ExtensionId)
    requires Inv(w, s) && MapInv(dl, s)
    ensures id in s.loaded ==> id in s.pins
  {
    hide Vouched, Binds;
  }

  /** The load of a pack that does not change. */
  function Still(pack: Pack, dir: Path, usable: bool, reload: bool): Load {
    Load(dir, pack, pack, usable, pack, pack, reload)
  }

  /** The picked file is not in the ledger, or is in the pack and no component. */
  ghost predicate BadPick(w: World, pack: Pack, ledger: Ledger, path: Path)
    requires path != []
  {
    path !in ledger || !exists content :: IsFileOf(pack.entries, path, content) && w.compiles(content)
  }

  lemma StillComponentFailsExactlyWhen(w: World, pack: Pack, describe: Describe, ledger: Ledger, dir: Path)
    requires WellFormed(pack.entries) && PackHolds(w, pack, describe) && ReadDescribe(w, pack).Some?
    requires ledger == LedgerOf(BoundManifest(w, pack, describe).value.entries)
    ensures BadComponent(w, describe, ledger, pack, pack) <==>
            NoPick(describe, pack) || BadPick(w, pack, ledger, Picked(describe, pack))
  {
    hide WellFormed, PackHolds, LedgerOf, BoundManifest, ReadDescribe, FromVerified, NoPick, BadRead, WasmComponentPath, IsLeaf, At;
    InstantiatesExactlyWhen(w, describe, ledger, dir, pack, pack);
    if !NoPick(describe, pack) {
      UnchangedPackLoadsExactlyWhen(w, pack, describe, ledger, dir, Picked(describe, pack));
    }
  }

  /** For a pack that stays as it is and an undisturbed load, the causes are in the
      pack alone: nothing to pick, a picked file the ledger does not list or that is no
      component, or an offered version that does not parse. */
  lemma StillPinOutlivesItsLoadExactlyWhen(
      w: World, dl: Dialect, run: seq<State>, steps: seq<Step>, i: nat,
      pack: Pack, dir: Path, usable: bool, reload: bool)
    requires IsRun(w, dl, run, steps) && i < |run| && WellFormed(pack.entries)
    ensures var s, load := run[i], Still(pack, dir, usable, reload);
            !Loads(w, dl, s.pins, s.loaded, load) && PinsAfter(w, s.pins, load) != s.pins <==>
            && PinsAnew(w, s.pins, load)
            && var (d, ledger) := Passed(w, pack, pack);
               NoPick(d, pack) || BadPick(w, pack, ledger, Picked(d, pack)) || !OffersParse(dl, d)
  {
    var load := Still(pack, dir, usable, reload);
    UndisturbedPinOutlivesItsLoadExactlyWhen(w, dl, run, steps, i, load);
    if PinsAnew(w, run[i].pins, load) {
      StillPasses(w, pack, dir);
    }
    hide IntegrityHolds, OffersParse, Passed, IsRun, Loads, PinsAfter, BadComponent, NoPick, BadPick, WellFormed;
  }

  lemma StillPasses(w: World, pack: Pack, dir: Path)
    requires IntegrityHolds(w, pack, pack) && WellFormed(pack.entries)
    ensures var (d, ledger) := Passed(w, pack, pack);
            BadComponent(w, d, ledger, pack, pack) <==> NoPick(d, pack) || BadPick(w, pack, ledger, Picked(d, pack))
  {
    hide LedgerOf, BoundManifest, NoPick, BadPick, BadComponent, WellFormed;
    var (d, ledger) := Passed(w, pack, pack);
    StillComponentFailsExactlyWhen(w, pack, d, ledger, dir);
  }

  /** The plainest such load: by the time the component is picked the directory is gone. */
  lemma PinCanOutliveItsLoad(w: World, pins: Pins, atDescribe: Pack, atManifest: Pack, dir: Path, gone: Pack)
    requires IntegrityHolds(w, atDescribe, atManifest)
    requires ReadDescribe(w, atDescribe).value.id !in pins && gone.entries == []
    ensures var d := ReadDescribe(w, atDescribe).value;
            && d.id in PinsAfterGate(w, pins, atDescribe, atManifest, true)
            && FromVerified(w, d, LedgerOf(BoundManifest(w, atManifest, d).value.entries), dir, gone, gone).Err?
  {
    hide PackHolds, PackRelative, LedgerOf, BoundManifest;
  }
}
