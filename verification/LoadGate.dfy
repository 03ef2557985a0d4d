/** The load gate: describe integrity, whole-pack ledger, first-use key anchor,
    and the ledger-checked read of the component. */
module LoadGate {
  import opened Wrappers
  import opened Text
  import opened Capability
  import opened Extensions
  import opened PackTree

  type Digest = string
  type Key = string
  type Ledger = map<Path, Digest>
  type Pins = map<ExtensionId, Key>

  datatype Manifest = Manifest(schema: string, entries: seq<(string, Digest)>)

  /** The parts of the outside world the gate computes with: the hash, the two
      parsers, the describe's own signature check, and the component compiler. */
  datatype World = World(
    sha256: seq<byte> -> Digest,
    parseDescribe: seq<byte> -> Option<Describe>,
    parseManifest: seq<byte> -> Option<Manifest>,
    selfConsistent: Describe -> bool,
    compiles: seq<byte> -> bool,
    manifestSchema: string)

  const DESCRIBE_PATH: Path := ["describe.json"]
  const MANIFEST_PATH: Path := ["manifest.json"]
  const DESIGN_WASM_PATH: Path := ["extension.wasm"]

  datatype Refusal =
    | BadDescribe
    | BadSignature
    | Unsigned
    | ManifestUnreadable
    | ManifestUnbound
    | ManifestUnparseable
    | ManifestSchemaUnsupported
    | BadPath(raw: string)
    | NotRegular(raw: string)
    | Mismatch(raw: string)
    | CannotBeWalked
    | Unlisted(path: Path)
    | NotAnchored
    | NoComponent
    | NotCovered
    | ChangedAfterVerification
    | NotAComponent

  /** A ledger path as components. Empty pieces and interior `.` vanish, as the
      standard library's component iterator drops them; a leading `/` or `.` and
      any `..` is refused. */
  function PackRelative(rel: string): (r: Option<Path>)
    ensures r.Some? ==> r.value != []
    ensures r.Some? ==> forall name :: name in r.value ==> name != "" && name != "." && name != ".."
  {
    var parts := Split(rel, '/');
    if parts[0] == "" || parts[0] == "." || ".." in parts then None
    else Some(Normal(parts))
  }

  function Normal(parts: seq<string>): (r: seq<string>)
    ensures forall name :: name in r <==> name in parts && name != "" && name != "."
    ensures |parts| > 0 && parts[0] != "" && parts[0] != "." ==> r != []
  {
    if parts == [] then []
    else (if parts[0] == "" || parts[0] == "." then [] else [parts[0]]) + Normal(parts[1..])
  }

  /** A path names exactly its own components: what is refused is precisely what
      is empty, absolute, starts at `.`, or climbs through `..`. */
  lemma PackRelativeExactly(rel: string)
    ensures PackRelative(rel).None? <==>
            rel == "" || rel[0] == '/' || rel == "." || ContinuesAt(".", rel, '/') || ".." in Split(rel, '/')
  {
    ContinuesAtIsPiecePrefix(".", rel, '/');
    SplitPlain(".", '/');
    if Split(rel, '/')[0] == "." {
      assert ["."] <= Split(rel, '/');
    }
  }

  /** A path text that ends in a slash, or in a slash and a dot, can only ever reach
      a directory, although its components are those of the text without them. */
  predicate EndsInAName(rel: string) {
    var parts := Split(rel, '/');
    parts[|parts| - 1] != "" && parts[|parts| - 1] != "."
  }

  /** One ledger row checks out against the pack: its path resolves inside it, to
      a regular file rather than a link, with the recorded digest. */
  predicate RowHolds(w: World, pack: Pack, row: (string, Digest)) {
    && PackRelative(row.0).Some? && EndsInAName(row.0)
    && var found := Lstat(pack, pack.entries, PackRelative(row.0).value);
       found.Some? && found.value.File? && w.sha256(found.value.content) == row.1
  }

  ghost predicate AllRelative(rows: seq<(string, Digest)>) {
    forall i :: 0 <= i < |rows| ==> PackRelative(rows[i].0).Some?
  }

  /** The rows as a map; of repeated paths the last row stands. */
  function LedgerOf(rows: seq<(string, Digest)>): Ledger
    requires AllRelative(rows)
  {
    if rows == [] then map[]
    else LedgerOf(rows[..|rows| - 1])[PackRelative(rows[|rows| - 1].0).value := rows[|rows| - 1].1]
  }

  /** A path is in the ledger because some row put it there. */
  lemma {:induction false} LedgerRow(rows: seq<(string, Digest)>, path: Path) returns (i: nat)
    requires AllRelative(rows) && path in LedgerOf(rows)
    ensures i < |rows| && PackRelative(rows[i].0).value == path && rows[i].1 == LedgerOf(rows)[path]
  {
    hide PackRelative;
    var n := |rows| - 1;
    if PackRelative(rows[n].0).value == path {
      i := n;
    } else {
      i := LedgerRow(rows[..n], path);
    }
  }

  /** And every row's path is in it. */
  lemma {:induction false} LedgerHasRow(rows: seq<(string, Digest)>, i: nat)
    requires AllRelative(rows) && i < |rows|
    ensures PackRelative(rows[i].0).value in LedgerOf(rows)
  {
    hide PackRelative;
    var n := |rows| - 1;
    if i < n {
      LedgerHasRow(rows[..n], i);
    }
  }

  predicate Exempt(path: Path) {
    path == MANIFEST_PATH || path == DESCRIBE_PATH
  }

  /** The manifest the signed describe commits to, as found in the pack. */
  function BoundManifest(w: World, pack: Pack, describe: Describe): Option<Manifest> {
    match ReadFile(pack, MANIFEST_PATH)
    case None => None
    case Some(raw) =>
      if describe.manifestSha256 != Some(w.sha256(raw)) then None
      else
        match w.parseManifest(raw)
        case None => None
        case Some(m) => if m.schema == w.manifestSchema then Some(m) else None
  }

  /** Every path is in the ledger, or is one of the two the ledger cannot list. */
  predicate Covered(paths: seq<Path>, ledger: Ledger) {
    forall i :: 0 <= i < |paths| ==> Exempt(paths[i]) || paths[i] in ledger
  }

  /** What the directory gate accepts. */
  ghost predicate PackHolds(w: World, pack: Pack, describe: Describe) {
    && BoundManifest(w, pack, describe).Some?
    && var m := BoundManifest(w, pack, describe).value;
    && (forall i :: 0 <= i < |m.entries| ==> RowHolds(w, pack, m.entries[i]))
    && AllRelative(m.entries)
    && Nesting(pack.entries) <= MAX_PACK_DEPTH && Readable(pack.entries)
    && Covered(Listing([], pack.entries), LedgerOf(m.entries))
  }

  /** Verify an unpacked directory against its manifest, both ways: every row
      against the tree, and every file in the tree against the rows. */
  method VerifyDirManifest(w: World, pack: Pack, describe: Describe) returns (r: Result<Ledger, Refusal>)
    ensures r.Ok? <==> PackHolds(w, pack, describe)
    ensures r.Ok? ==> r.value == LedgerOf(BoundManifest(w, pack, describe).value.entries)
  {
    hide Listing, Nesting, Readable, LedgerOf, PackRelative, Lstat;
    var raw := ReadFile(pack, MANIFEST_PATH);
    if raw.None? {
      return Err(ManifestUnreadable);
    }
    if describe.manifestSha256 != Some(w.sha256(raw.value)) {
      return Err(ManifestUnbound);
    }
    var parsed := w.parseManifest(raw.value);
    if parsed.None? {
      return Err(ManifestUnparseable);
    }
    var rows := parsed.value.entries;
    if parsed.value.schema != w.manifestSchema {
      return Err(ManifestSchemaUnsupported);
    }

    var checked := VerifyRows(w, pack, rows);
    match checked {
      case Err(e) => return Err(e);
      case Ok(listed) =>
        var uncovered := VerifyCoverage(pack, listed);
        match uncovered {
          case Some(e) => return Err(e);
          case None => r := Ok(listed);
        }
    }
  }

  /** The first loop: every row resolves, is a regular file, and has its digest. */
  method VerifyRows(w: World, pack: Pack, rows: seq<(string, Digest)>) returns (r: Result<Ledger, Refusal>)
    ensures r.Ok? <==> AllRelative(rows) && forall i :: 0 <= i < |rows| ==> RowHolds(w, pack, rows[i])
    ensures r.Ok? ==> r.value == LedgerOf(rows)
  {
    hide Lstat, PackRelative, EndsInAName;
    var listed: Ledger := map[];
    for i := 0 to |rows|
      invariant forall k :: 0 <= k < i ==> RowHolds(w, pack, rows[k])
      invariant AllRelative(rows[..i]) && listed == LedgerOf(rows[..i])
    {
      var path := PackRelative(rows[i].0);
      if path.None? {
        return Err(BadPath(rows[i].0));
      }
      var meta := Lstat(pack, pack.entries, path.value);
      if !EndsInAName(rows[i].0) || meta.None? || !meta.value.File? {
        return Err(NotRegular(rows[i].0));
      }
      if w.sha256(meta.value.content) != rows[i].1 {
        return Err(Mismatch(rows[i].0));
      }
      listed := listed[path.value := rows[i].1];
      assert rows[..i + 1][..i] == rows[..i];
    }
    assert rows[..|rows|] == rows;
    r := Ok(listed);
  }

  /** The second: nothing on disk sits outside the ledger. */
  method VerifyCoverage(pack: Pack, listed: Ledger) returns (refusal: Option<Refusal>)
    ensures refusal.None? <==>
            && Nesting(pack.entries) <= MAX_PACK_DEPTH && Readable(pack.entries)
            && Covered(Listing([], pack.entries), listed)
  {
    hide Nesting, Listing, Readable;
    var out := new Found();
    var walked := CollectInto(pack.entries, [], 0, out);
    if !walked {
      return Some(CannotBeWalked);
    }
    var present := out.paths;
    for i := 0 to |present|
      invariant Covered(present[..i], listed)
    {
      if !(Exempt(present[i]) || present[i] in listed) {
        return Some(Unlisted(present[i]));
      }
      assert present[..i + 1] == present[..i] + [present[i]];
    }
    assert present[..|present|] == present;
    refusal := None;
  }

  /** The trust store: one pinned publisher key per extension id. */
  class TrustStore {
    var pins: Pins

    constructor ()
      ensures pins == map[]
    {
      pins := map[];
    }

    /** `usable` is whether the trust root resolves and can be read and written. */
    method PinOrVerify(id: ExtensionId, key: Key, usable: bool) returns (ok: bool)
      modifies this
      ensures ok <==> usable && Anchors(old(pins), id, key)
      ensures pins == if ok then old(pins)[id := key] else old(pins)
    {
      if !usable {
        ok := false;
      } else if id in pins {
        ok := pins[id] == key;
      } else {
        pins := pins[id := key];
        ok := true;
      }
    }
  }

  predicate Anchors(pins: Pins, id: ExtensionId, key: Key) {
    id in pins ==> pins[id] == key
  }

  /** The describe read from the pack, once. */
  function ReadDescribe(w: World, pack: Pack): Option<Describe> {
    match ReadFile(pack, DESCRIBE_PATH)
    case None => None
    case Some(raw) => w.parseDescribe(raw)
  }

  /** Steps 1 and 2: the describe is unmodified since it was signed, and the pack
      is what it commits to. The tree may have changed between the two reads. */
  ghost predicate IntegrityHolds(w: World, atDescribe: Pack, atManifest: Pack) {
    && ReadDescribe(w, atDescribe).Some?
    && var d := ReadDescribe(w, atDescribe).value;
       w.selfConsistent(d) && d.publicKey.Some? && PackHolds(w, atManifest, d)
  }

  /** The pins once the gate is done, passed or not. */
  ghost function PinsAfterGate(w: World, pins: Pins, atDescribe: Pack, atManifest: Pack, usable: bool): Pins {
    if !IntegrityHolds(w, atDescribe, atManifest) then pins
    else
      var d := ReadDescribe(w, atDescribe).value;
      if usable && Anchors(pins, d.id, d.publicKey.value) then pins[d.id := d.publicKey.value] else pins
  }

  ghost predicate GatePasses(w: World, pins: Pins, atDescribe: Pack, atManifest: Pack, usable: bool) {
    && usable && IntegrityHolds(w, atDescribe, atManifest)
    && var d := ReadDescribe(w, atDescribe).value;
       Anchors(pins, d.id, d.publicKey.value)
  }

  /** What the gate hands on: the describe it verified, and the ledger that binds. */
  ghost function Passed(w: World, atDescribe: Pack, atManifest: Pack): (Describe, Ledger)
    requires IntegrityHolds(w, atDescribe, atManifest)
  {
    var d := ReadDescribe(w, atDescribe).value;
    (d, LedgerOf(BoundManifest(w, atManifest, d).value.entries))
  }

  /** Integrity, then the ledger, then the anchor: the pin is written last, and
      only for a pack whose integrity held. */
  method VerifyDirSignature(w: World, atDescribe: Pack, atManifest: Pack, trust: TrustStore, usable: bool)
      returns (r: Result<(Describe, Ledger), Refusal>)
    modifies trust
    ensures r.Ok? <==> GatePasses(w, old(trust.pins), atDescribe, atManifest, usable)
    ensures r.Ok? ==> r.value == Passed(w, atDescribe, atManifest)
    ensures trust.pins == PinsAfterGate(w, old(trust.pins), atDescribe, atManifest, usable)
    ensures !IntegrityHolds(w, atDescribe, atManifest) ==> trust.pins == old(trust.pins)
  {
    var read := ReadDescribe(w, atDescribe);
    if read.None? {
      return Err(BadDescribe);
    }
    var describe := read.value;
    if !w.selfConsistent(describe) {
      return Err(BadSignature);
    }
    if describe.publicKey.None? {
      return Err(Unsigned);
    }
    var ledger := VerifyDirManifest(w, atManifest, describe);
    match ledger {
      case Err(e) => return Err(e);
      case Ok(entries) =>
        var anchored := trust.PinOrVerify(describe.id, describe.publicKey.value, usable);
        if !anchored {
          return Err(NotAnchored);
        }
        r := Ok((describe, entries));
    }
  }

  /** Which file holds the component: a root `extension.wasm` wins outright, else
      the one component the describe declares, if its path can name a file at all. */
  function WasmComponentPath(describe: Describe, atPick: Pack): Option<Path> {
    if Stat(atPick, DESIGN_WASM_PATH).Some? then Some(DESIGN_WASM_PATH)
    else if |describe.components| != 1 || describe.components[0].1.None? then None
    else if !EndsInAName(describe.components[0].1.value) then None
    else PackRelative(describe.components[0].1.value)
  }

  /** The bytes at `path`, if the ledger vouches for what was just read. */
  function ReadVerified(w: World, ledger: Ledger, path: Path, atRead: Pack): Result<seq<byte>, Refusal>
    requires path != []
  {
    match ReadFile(atRead, path)
    case None => Err(NoComponent)
    case Some(bytes) =>
      if path !in ledger then Err(NotCovered)
      else if w.sha256(bytes) != ledger[path] then Err(ChangedAfterVerification)
      else Ok(bytes)
  }

  /** Instantiate from the describe the gate verified, whatever is on disk by now. */
  function FromVerified(w: World, describe: Describe, ledger: Ledger, dir: Path, atPick: Pack, atRead: Pack)
      : Result<LoadedExtension, Refusal>
  {
    match WasmComponentPath(describe, atPick)
    case None => Err(NoComponent)
    case Some(path) =>
      match ReadVerified(w, ledger, path, atRead)
      case Err(e) => Err(e)
      case Ok(bytes) =>
        if w.compiles(bytes) then Ok(LoadedExtension(describe, dir, bytes)) else Err(NotAComponent)
  }

  /** No file can be picked: there is no root `extension.wasm`, and the describe does
      not declare exactly one component with a file path inside the pack. */
  predicate NoPick(describe: Describe, atPick: Pack) {
    && Stat(atPick, DESIGN_WASM_PATH).None?
    && (|| |describe.components| != 1 || describe.components[0].1.None?
        || !EndsInAName(describe.components[0].1.value) || PackRelative(describe.components[0].1.value).None?)
  }

  /** What was read at the picked path is not there, not listed, not as recorded, or
      no component. */
  predicate BadRead(w: World, ledger: Ledger, path: Path, atRead: Pack)
    requires path != []
  {
    || ReadFile(atRead, path).None?
    || path !in ledger
    || w.sha256(ReadFile(atRead, path).value) != ledger[path]
    || !w.compiles(ReadFile(atRead, path).value)
  }

  predicate BadComponent(w: World, describe: Describe, ledger: Ledger, atPick: Pack, atRead: Pack) {
    || NoPick(describe, atPick)
    || BadRead(w, ledger, Picked(describe, atPick), atRead)
  }

  function Picked(describe: Describe, atPick: Pack): (path: Path)
    requires !NoPick(describe, atPick)
    ensures path != [] && WasmComponentPath(describe, atPick) == Some(path)
  {
    if Stat(atPick, DESIGN_WASM_PATH).Some? then DESIGN_WASM_PATH
    else PackRelative(describe.components[0].1.value).value
  }

  /** The guards at which instantiation fails. */
  lemma InstantiatesExactlyWhen(
      w: World, describe: Describe, ledger: Ledger, dir: Path, atPick: Pack, atRead: Pack)
    ensures FromVerified(w, describe, ledger, dir, atPick, atRead).Ok? <==>
            !BadComponent(w, describe, ledger, atPick, atRead)
    ensures NoPick(describe, atPick) <==> WasmComponentPath(describe, atPick).None?
  {
    hide Lstat, PackRelative, EndsInAName, Stat;
    if !NoPick(describe, atPick) {
      var path := Picked(describe, atPick);
    }
  }

  // ----- what acceptance means -----

  /** Until a symlink is met, following links and not following them agree. */
  lemma {:induction false} LstatPastRealDirectories(p: Pack, entries: seq<Entry>, path: Path)
      returns (k: nat)
    requires path != [] && Lstat(p, entries, path).Some?
    ensures 0 < k <= |path|
    ensures At(entries, path[..k]).Some? && Lstat(p, entries, path[..k]) == At(entries, path[..k])
    ensures k < |path| ==> At(entries, path[..k]).value.Symlink? && p.follow(At(entries, path[..k]).value.target).Some?
                           && p.follow(At(entries, path[..k]).value.target).value.Dir?
    ensures k == |path| ==> Lstat(p, entries, path) == At(entries, path)
    decreases |path|
  {
    var n := Lookup(entries, path[0]).value;
    if |path| == 1 || n.Symlink? {
      k := 1;
      assert |path| == 1 ==> path[..1] == path;
    } else {
      var j := LstatPastRealDirectories(p, n.entries, path[1..]);
      k := j + 1;
      assert path[..k][1..] == path[1..][..j];
      assert k == |path| ==> path[..k] == path;
    }
  }

  /** Where the describe is a link, and a ledger path runs through it. */
  predicate ThroughLinkedDescribe(pack: Pack, path: Path) {
    && |path| > 1 && path[..1] == DESCRIBE_PATH
    && At(pack.entries, DESCRIBE_PATH).Some? && At(pack.entries, DESCRIBE_PATH).value.Symlink?
  }

  /** Every ledger path leads, through real directories only, to a regular file in
      the pack with the recorded digest, unless it runs through a `describe.json`
      that is itself a link: that name is exempt from the walk's verdict. */
  lemma LedgerPathsArePhysical(w: World, pack: Pack, describe: Describe, path: Path)
    requires WellFormed(pack.entries) && PackHolds(w, pack, describe)
    requires path in LedgerOf(BoundManifest(w, pack, describe).value.entries)
    ensures path != []
    ensures IsLeaf(pack.entries, path) <==> !ThroughLinkedDescribe(pack, path)
    ensures IsLeaf(pack.entries, path) ==>
              && At(pack.entries, path).value.File?
              && w.sha256(At(pack.entries, path).value.content)
                   == LedgerOf(BoundManifest(w, pack, describe).value.entries)[path]
  {
    hide Listing, Nesting, Readable, WellFormed;
    LedgerPathHolds(w, pack, describe, path);
    hide PackRelative, LedgerOf;
    var k := LstatPastRealDirectories(pack, pack.entries, path);
    if k < |path| {
      LinkOnLedgerPathIsDescribe(w, pack, describe, path[..k]);
      assert path[..k][..1] == path[..1];
      PastALinkIsNothing(pack.entries, path, k);
    }
    ThroughALinkIsNoLeaf(pack, path);
  }

  lemma ThroughALinkIsNoLeaf(pack: Pack, path: Path)
    ensures ThroughLinkedDescribe(pack, path) ==> !IsLeaf(pack.entries, path)
  {
    if ThroughLinkedDescribe(pack, path) {
      PastALinkIsNothing(pack.entries, path, 1);
    }
  }

  lemma {:induction false} PastALinkIsNothing(entries: seq<Entry>, path: Path, k: nat)
    requires 0 < k < |path| && At(entries, path[..k]).Some? && !At(entries, path[..k]).value.Dir?
    ensures At(entries, path).None?
  {
    if k > 1 {
      var n := Lookup(entries, path[..k][0]).value;
      assert path[..k][1..] == path[1..][..k - 1];
      PastALinkIsNothing(n.entries, path[1..], k - 1);
    }
  }

  /** The row behind a ledger path. */
  lemma LedgerPathHolds(w: World, pack: Pack, describe: Describe, path: Path)
    requires PackHolds(w, pack, describe)
    requires path in LedgerOf(BoundManifest(w, pack, describe).value.entries)
    ensures path != []
    ensures var found := Lstat(pack, pack.entries, path);
            && found.Some? && found.value.File?
            && w.sha256(found.value.content) == LedgerOf(BoundManifest(w, pack, describe).value.entries)[path]
  {
    hide Listing, Nesting, Readable, LedgerOf;
    var rows := BoundManifest(w, pack, describe).value.entries;
    var i := LedgerRow(rows, path);
    assert RowHolds(w, pack, rows[i]);
  }

  /** A link to a directory is a leaf, so an accepted pack must list it or exempt
      it. A listed one would not be a regular file, and the manifest's own name is
      read as a file: only the describe's is left. */
  lemma LinkOnLedgerPathIsDescribe(w: World, pack: Pack, describe: Describe, link: Path)
    requires WellFormed(pack.entries) && PackHolds(w, pack, describe)
    requires link != [] && At(pack.entries, link).Some? && At(pack.entries, link).value.Symlink?
    requires Lstat(pack, pack.entries, link) == At(pack.entries, link)
    requires pack.follow(At(pack.entries, link).value.target).Some?
             && pack.follow(At(pack.entries, link).value.target).value.Dir?
    ensures link == DESCRIBE_PATH
  {
    hide Listing, Nesting, Readable, WellFormed, LedgerOf, PackRelative;
    ListingIsTheLeaves([], pack.entries, link);
    assert link in Listing([], pack.entries);
    var rows := BoundManifest(w, pack, describe).value.entries;
    if link in LedgerOf(rows) {
      LedgerPathHolds(w, pack, describe, link);
    }
  }

  /** The gate in one statement. On a tree whose describe reads as a file, an
      accepted pack's leaves outside the two exempt names are exactly the ledger's
      paths, and every ledger path is a regular file with the recorded digest. */
  lemma AcceptedPackIsItsLedger(w: World, pack: Pack, describe: Describe, path: Path)
    requires WellFormed(pack.entries) && PackHolds(w, pack, describe)
    requires ReadDescribe(w, pack).Some?
    ensures var ledger := LedgerOf(BoundManifest(w, pack, describe).value.entries);
            && (!Exempt(path) ==> (IsLeaf(pack.entries, path) <==> path in ledger))
            && (path in ledger ==>
                  && IsLeaf(pack.entries, path) && At(pack.entries, path).value.File?
                  && w.sha256(At(pack.entries, path).value.content) == ledger[path])
  {
    hide Listing, Nesting, Readable, WellFormed, LedgerOf;
    ListingIsTheLeaves([], pack.entries, path);
    var ledger := LedgerOf(BoundManifest(w, pack, describe).value.entries);
    if path in ledger {
      LedgerPathsArePhysical(w, pack, describe, path);
      NotThroughAReadableDescribe(w, pack, describe, path);
    }
  }

  /** When the describe reads as a file, no ledger path runs through it. */
  lemma NotThroughAReadableDescribe(w: World, pack: Pack, describe: Describe, path: Path)
    requires PackHolds(w, pack, describe) && ReadDescribe(w, pack).Some?
    requires path in LedgerOf(BoundManifest(w, pack, describe).value.entries)
    ensures !ThroughLinkedDescribe(pack, path)
  {
    hide Listing, Nesting, Readable, LedgerOf, PackRelative;
    LedgerPathHolds(w, pack, describe, path);
    assert |path| > 1 && path[..1] == DESCRIBE_PATH ==> path[0] == DESCRIBE_PATH[0];
  }

  predicate IsFileOf(entries: seq<Entry>, path: Path, content: seq<byte>)
    requires path != []
  {
    At(entries, path) == Some(File(content))
  }

  /** On a pack that stays as it was accepted, the recheck of the component's digest
      never fires: it loads exactly when the ledger lists the chosen file and the
      file compiles, and what runs is the content of that file. */
  lemma UnchangedPackLoadsExactlyWhen(
      w: World, pack: Pack, describe: Describe, ledger: Ledger, dir: Path, path: Path)
    requires WellFormed(pack.entries) && PackHolds(w, pack, describe) && ReadDescribe(w, pack).Some?
    requires ledger == LedgerOf(BoundManifest(w, pack, describe).value.entries)
    requires path != [] && WasmComponentPath(describe, pack) == Some(path)
    ensures var loaded := FromVerified(w, describe, ledger, dir, pack, pack);
            && loaded != Err(ChangedAfterVerification)
            && (loaded.Ok? <==>
                  path in ledger && exists content :: IsFileOf(pack.entries, path, content) && w.compiles(content))
            && (loaded.Ok? ==>
                  && IsFileOf(pack.entries, path, loaded.value.component)
                  && loaded.value.describe == describe && loaded.value.sourceDir == dir)
    ensures IsLeaf(pack.entries, path) && !Exempt(path) ==> path in ledger
  {
    AcceptedPackIsItsLedger(w, pack, describe, path);
    if path in ledger {
      LedgerPathHolds(w, pack, describe, path);
      LstatIsThere(pack, pack.entries, path);
    }
    hide Listing, Nesting, Readable, WellFormed, LedgerOf, BoundManifest, ReadDescribe, WasmComponentPath, PackRelative, PackHolds, At, Lstat;
    if path in ledger {
      var content := At(pack.entries, path).value.content;
      assert IsFileOf(pack.entries, path, content);
    }
  }

  /** Where something is physically there, following links on the way finds the same. */
  lemma {:induction false} LstatIsThere(p: Pack, entries: seq<Entry>, path: Path)
    requires path != [] && At(entries, path).Some?
    ensures Lstat(p, entries, path) == At(entries, path)
    decreases |path|
  {
    if |path| > 1 {
      LstatIsThere(p, Lookup(entries, path[0]).value.entries, path[1..]);
    }
  }

  /** A pack whose `describe.json` has become a link to a directory holding `x`. */
  function LinkedPack(raw: seq<byte>, bytes: seq<byte>): Pack {
    Pack([Entry("manifest.json", File(raw)), Entry("describe.json", Symlink("elsewhere"))],
         target => Some(Dir([Entry("x", File(bytes))])))
  }

  const LINKED_PATH: Path := ["describe.json", "x"]

  lemma NormalOfTwo(a: string, b: string)
    requires a != "" && a != "." && b != "" && b != "."
    ensures Normal([a, b]) == [a, b]
  {
    assert [a, b][1..] == [b] && [b][1..] == [];
    assert Normal([b]) == [b];
  }

  lemma LinkedPathReads()
    ensures PackRelative("describe.json/x") == Some(LINKED_PATH) && EndsInAName("describe.json/x")
  {
    hide Split, Normal;
    assert "describe.json/x" == "describe.json" + ['/'] + "x";
    SplitAppend("describe.json", "x", '/');
    SplitPlain("describe.json", '/');
    SplitPlain("x", '/');
    NormalOfTwo("describe.json", "x");
    assert Split("describe.json/x", '/') == ["describe.json", "x"];
  }

  lemma LinkedPackLookups(raw: seq<byte>, bytes: seq<byte>)
    ensures var pack := LinkedPack(raw, bytes);
            && ReadFile(pack, MANIFEST_PATH) == Some(raw)
            && Lstat(pack, pack.entries, LINKED_PATH) == Some(File(bytes))
            && At(pack.entries, LINKED_PATH).None?
  {
    var pack := LinkedPack(raw, bytes);
    assert pack.entries[1..] == [Entry("describe.json", Symlink("elsewhere"))];
    assert Lookup(pack.entries, "describe.json") == Some(Symlink("elsewhere"));
    assert LINKED_PATH[1..] == ["x"];
    assert Lstat(pack, [Entry("x", File(bytes))], ["x"]) == Some(File(bytes));
  }

  lemma LinkedPackListing(raw: seq<byte>, bytes: seq<byte>)
    ensures var entries := LinkedPack(raw, bytes).entries;
            && WellFormed(entries) && Nesting(entries) == 0 && Readable(entries)
            && Listing([], entries) == [MANIFEST_PATH, DESCRIBE_PATH]
  {
    var entries := LinkedPack(raw, bytes).entries;
    var last := [entries[1]];
    assert entries[1..] == last && last[1..] == [];
    assert [] + ["manifest.json"] == MANIFEST_PATH && [] + ["describe.json"] == DESCRIBE_PATH;
    assert Listing([], last) == [[] + ["describe.json"]] + Listing([], last[1..]);
    assert Listing([], entries) == [[] + ["manifest.json"]] + Listing([], last);
    assert Nesting(last) == 0 && Readable(last);
  }

  /** The exception is real: where `describe.json` has become a link to a directory
      by the time the tree is checked, a row below it is accepted and yet names
      nothing in the pack. */
  lemma LinkedDescribeIsAccepted(w: World, describe: Describe, raw: seq<byte>, bytes: seq<byte>)
    requires w.parseManifest(raw) == Some(Manifest(w.manifestSchema, [("describe.json/x", w.sha256(bytes))]))
    requires describe.manifestSha256 == Some(w.sha256(raw))
    ensures var pack := LinkedPack(raw, bytes);
            && WellFormed(pack.entries) && PackHolds(w, pack, describe)
            && LINKED_PATH in LedgerOf(BoundManifest(w, pack, describe).value.entries)
            && At(pack.entries, LINKED_PATH).None?
  {
    LinkedPathReads();
    LinkedPackLookups(raw, bytes);
    LinkedPackListing(raw, bytes);
    hide PackRelative, EndsInAName, Lstat, At, ReadFile, Listing, Nesting, Readable, WellFormed, LinkedPack;
    var row := ("describe.json/x", w.sha256(bytes));
    assert RowHolds(w, LinkedPack(raw, bytes), row);
    LedgerHasRow([row], 0);
  }
}
