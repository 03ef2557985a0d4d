/** What the directory gate accepts, said of the tree and the rows alone: how a row's
    text names a path, and which packs pass. */
module HonestPacks {
  import opened Wrappers
  import opened Text
  import opened Extensions
  import opened PackTree
  import opened LoadGate

  /** A name a path can be made of. */
  predicate IsPlainName(name: string) {
    name != "" && name != "." && name != ".." && '/' !in name
  }

  predicate IsBlank(piece: string) {
    piece == "" || piece == "."
  }

  lemma {:induction false} NormalKeeps(parts: seq<string>)
    requires forall i :: 0 <= i < |parts| ==> !IsBlank(parts[i])
    ensures Normal(parts) == parts
  {
    if parts != [] {
      NormalKeeps(parts[1..]);
      assert parts == [parts[0]] + parts[1..];
    }
  }

  lemma {:induction false} NormalConcat(a: seq<string>, b: seq<string>)
    ensures Normal(a + b) == Normal(a) + Normal(b)
  {
    if a == [] {
      assert a + b == b;
    } else {
      assert (a + b)[1..] == a[1..] + b;
      NormalConcat(a[1..], b);
    }
  }

  /** A path written as its names with slashes between names exactly those, in order. */
  lemma PlainPathReads(names: seq<string>)
    requires names != [] && forall i :: 0 <= i < |names| ==> IsPlainName(names[i])
    ensures PackRelative(Join(names, '/')) == Some(names) && EndsInAName(Join(names, '/'))
  {
    hide Split, Join, Normal;
    SplitJoin(names, '/');
    NormalKeeps(names);
  }

  /** A doubled slash, or a `.` between slashes, changes nothing. */
  lemma BlankPieceVanishes(before: seq<string>, blank: string, after: seq<string>)
    requires before != [] && IsBlank(blank)
    requires forall i :: 0 <= i < |before| ==> '/' !in before[i]
    requires forall i :: 0 <= i < |after| ==> '/' !in after[i]
    ensures PackRelative(Join(before + [blank] + after, '/')) == PackRelative(Join(before + after, '/'))
  {
    hide Join, Normal;
    OfPieces(before + [blank] + after);
    OfPieces(before + after);
    NormalWithout(before, blank, after);
    NoClimbFromBlank(before, blank, after);
  }

  lemma OfPieces(parts: seq<string>)
    requires parts != [] && forall i :: 0 <= i < |parts| ==> '/' !in parts[i]
    ensures PackRelative(Join(parts, '/')) == if IsBlank(parts[0]) || ".." in parts then None else Some(Normal(parts))
  {
    hide Split, Join, Normal;
    SplitJoin(parts, '/');
  }

  lemma NoClimbFromBlank(before: seq<string>, blank: string, after: seq<string>)
    requires IsBlank(blank)
    ensures ".." in before + [blank] + after <==> ".." in before + after
  {
  }

  lemma NormalWithout(before: seq<string>, blank: string, after: seq<string>)
    requires IsBlank(blank)
    ensures Normal(before + [blank] + after) == Normal(before + after)
  {
    hide Normal;
    NormalConcat(before + [blank], after);
    NormalConcat(before, [blank]);
    NormalConcat(before, after);
    NormalOfBlank(blank);
    assert Normal(before) + [] == Normal(before);
  }

  lemma NormalOfBlank(blank: string)
    requires IsBlank(blank)
    ensures Normal([blank]) == []
  {
    assert [blank][1..] == [];
  }

  /** A text ends in a name unless its last piece is empty or a dot: `a/` and `a/.` can
      reach a directory only. */
  lemma EndsInANameExactly(pieces: seq<string>)
    requires pieces != [] && forall i :: 0 <= i < |pieces| ==> '/' !in pieces[i]
    ensures EndsInAName(Join(pieces, '/')) <==> !IsBlank(pieces[|pieces| - 1])
  {
    hide Split, Join, EndsInAName, IsBlank;
    SplitJoin(pieces, '/');
    EndsByLastPiece(Join(pieces, '/'), pieces);
  }

  lemma EndsByLastPiece(rel: string, pieces: seq<string>)
    requires pieces != [] && Split(rel, '/') == pieces
    ensures EndsInAName(rel) <==> !IsBlank(pieces[|pieces| - 1])
  {
    hide Split;
  }

  /** Row `i` names `path`. */
  predicate Names(rows: seq<(string, Digest)>, i: int, path: Path) {
    0 <= i < |rows| && PackRelative(rows[i].0) == Some(path)
  }

  /** The ledger records for a path what the last row that names it says. */
  lemma {:induction false} LastRowStands(rows: seq<(string, Digest)>, path: Path)
    requires AllRelative(rows)
    ensures path in LedgerOf(rows) <==> exists i :: Names(rows, i, path)
    ensures forall i :: Names(rows, i, path) && (forall j :: i < j < |rows| ==> !Names(rows, j, path)) ==>
              path in LedgerOf(rows) && LedgerOf(rows)[path] == rows[i].1
  {
    hide PackRelative;
    if rows != [] {
      var n := |rows| - 1;
      LastRowStands(rows[..n], path);
      assert forall i :: i != n ==> (Names(rows, i, path) <==> Names(rows[..n], i, path));
      if !Names(rows, n, path) {
        assert (exists i :: Names(rows, i, path)) <==> exists i :: Names(rows[..n], i, path);
      }
    }
  }

  /** The row's path is that of a regular file in the pack with the recorded digest. */
  predicate RowIsTrue(w: World, entries: seq<Entry>, row: (string, Digest)) {
    && PackRelative(row.0).Some? && EndsInAName(row.0)
    && var found := At(entries, PackRelative(row.0).value);
       found.Some? && found.value.File? && w.sha256(found.value.content) == row.1
  }

  /** The raw manifest in the pack is the one the describe commits to, and `rows` is
      what it lists. */
  predicate Lists(w: World, pack: Pack, describe: Describe, raw: seq<byte>, rows: seq<(string, Digest)>) {
    && ReadFile(pack, ["manifest.json"]) == Some(raw)
    && describe.manifestSha256 == Some(w.sha256(raw))
    && w.parseManifest(raw) == Some(Manifest(w.manifestSchema, rows))
  }

  /** Every file but the two that no manifest can list is in some row. */
  ghost predicate AllNamed(entries: seq<Entry>, rows: seq<(string, Digest)>) {
    forall path :: IsLeaf(entries, path) && path != ["manifest.json"] && path != ["describe.json"] ==>
      exists i :: Names(rows, i, path)
  }

  predicate DirAt(entries: seq<Entry>, path: Path) {
    path != [] && At(entries, path).Some? && At(entries, path).value.Dir?
  }

  predicate SealedAt(entries: seq<Entry>, path: Path) {
    path != [] && At(entries, path) == Some(Sealed)
  }

  ghost predicate AtMost32Deep(entries: seq<Entry>) {
    forall path :: DirAt(entries, path) ==> |path| <= 32
  }

  ghost predicate NothingSealed(entries: seq<Entry>) {
    forall path :: !SealedAt(entries, path)
  }

  /** Every row is true, every file is named, and the tree is no deeper than 32 and can
      be read throughout. */
  ghost predicate IsHonest(w: World, pack: Pack, rows: seq<(string, Digest)>) {
    && (forall i :: 0 <= i < |rows| ==> RowIsTrue(w, pack.entries, rows[i]))
    && AllNamed(pack.entries, rows) && AtMost32Deep(pack.entries) && NothingSealed(pack.entries)
  }

  lemma BoundIsListed(w: World, pack: Pack, describe: Describe)
    ensures BoundManifest(w, pack, describe).Some? <==> exists raw, rows :: Lists(w, pack, describe, raw, rows)
    ensures forall raw, rows :: Lists(w, pack, describe, raw, rows) ==>
              BoundManifest(w, pack, describe) == Some(Manifest(w.manifestSchema, rows))
  {
    hide ReadFile;
    if BoundManifest(w, pack, describe).Some? {
      var raw := ReadFile(pack, MANIFEST_PATH).value;
      assert Lists(w, pack, describe, raw, BoundManifest(w, pack, describe).value.entries);
    }
  }

  lemma TrueRowHolds(w: World, pack: Pack, row: (string, Digest))
    requires RowIsTrue(w, pack.entries, row)
    ensures RowHolds(w, pack, row)
  {
    hide PackRelative, EndsInAName;
    LstatIsThere(pack, pack.entries, PackRelative(row.0).value);
  }

  lemma ShallowAndReadable(entries: seq<Entry>)
    requires WellFormed(entries)
    ensures Nesting(entries) <= MAX_PACK_DEPTH <==> AtMost32Deep(entries)
    ensures Readable(entries) <==> NothingSealed(entries)
  {
    hide At, Nesting, Readable, WellFormed;
    if Nesting(entries) <= 32 {
      forall path | DirAt(entries, path) ensures |path| <= 32 {
        NestingCovers(entries, path);
      }
    } else {
      var path := DeepDirectory(entries, 32);
      assert DirAt(entries, path);
    }
    if Readable(entries) {
      forall path | path != [] && At(entries, path).Some? ensures !SealedAt(entries, path) {
        NothingSealedAt(entries, path);
      }
    } else {
      var path := SealedSomewhere(entries);
      assert SealedAt(entries, path);
    }
  }

  lemma CoveredExactlyWhen(entries: seq<Entry>, rows: seq<(string, Digest)>)
    requires WellFormed(entries) && AllRelative(rows)
    ensures Covered(Listing([], entries), LedgerOf(rows)) <==> AllNamed(entries, rows)
  {
    hide Listing, LedgerOf, IsLeaf, Names, WellFormed;
    var paths := Listing([], entries);
    forall path
      ensures path in paths <==> path != [] && IsLeaf(entries, path)
      ensures path in LedgerOf(rows) <==> exists i :: Names(rows, i, path)
    {
      ListingIsTheLeaves([], entries, path);
      assert path[..0] == [] && path[0..] == path;
      LastRowStands(rows, path);
    }
    LeavesHavePaths(entries);
    if Covered(paths, LedgerOf(rows)) {
      forall path | IsLeaf(entries, path) && path != ["manifest.json"] && path != ["describe.json"]
        ensures exists i :: Names(rows, i, path)
      {
        var k :| 0 <= k < |paths| && paths[k] == path;
        assert Exempt(paths[k]) || paths[k] in LedgerOf(rows);
      }
    }
  }

  lemma LeavesHavePaths(entries: seq<Entry>)
    ensures forall path :: IsLeaf(entries, path) ==> path != []
  {
  }

  /** The gate accepts exactly the honest packs. (Where `describe.json` is no link: the
      one name through which a row can lead out of the pack.) */
  lemma AcceptedExactlyWhenHonest(w: World, pack: Pack, describe: Describe)
    requires WellFormed(pack.entries)
    requires Lookup(pack.entries, "describe.json") != None ==> !Lookup(pack.entries, "describe.json").value.Symlink?
    ensures PackHolds(w, pack, describe) <==>
            exists raw, rows :: Lists(w, pack, describe, raw, rows) && IsHonest(w, pack, rows)
  {
    hide WellFormed, Listing, LedgerOf, Lists, IsHonest, BoundManifest, Nesting, Readable, Covered, RowHolds;
    BoundIsListed(w, pack, describe);
    if raw, rows :| Lists(w, pack, describe, raw, rows) && IsHonest(w, pack, rows) {
      HonestHolds(w, pack, rows);
    }
    if PackHolds(w, pack, describe) {
      var raw, rows :| Lists(w, pack, describe, raw, rows);
      HoldsIsHonest(w, pack, describe, rows);
    }
  }

  lemma HonestHolds(w: World, pack: Pack, rows: seq<(string, Digest)>)
    requires WellFormed(pack.entries) && IsHonest(w, pack, rows)
    ensures AllRelative(rows) && forall i :: 0 <= i < |rows| ==> RowHolds(w, pack, rows[i])
    ensures Nesting(pack.entries) <= MAX_PACK_DEPTH && Readable(pack.entries)
    ensures Covered(Listing([], pack.entries), LedgerOf(rows))
  {
    hide WellFormed, Listing, LedgerOf, Nesting, Readable, Covered, RowHolds, PackRelative, EndsInAName, AllNamed, AtMost32Deep, NothingSealed;
    forall i | 0 <= i < |rows| ensures RowHolds(w, pack, rows[i]) {
      TrueRowHolds(w, pack, rows[i]);
    }
    ShallowAndReadable(pack.entries);
    CoveredExactlyWhen(pack.entries, rows);
  }

  lemma HoldsIsHonest(w: World, pack: Pack, describe: Describe, rows: seq<(string, Digest)>)
    requires WellFormed(pack.entries) && PackHolds(w, pack, describe)
    requires BoundManifest(w, pack, describe) == Some(Manifest(w.manifestSchema, rows))
    requires Lookup(pack.entries, "describe.json") != None ==> !Lookup(pack.entries, "describe.json").value.Symlink?
    ensures IsHonest(w, pack, rows)
  {
    hide WellFormed, Listing, LedgerOf, Nesting, Readable, Covered, PackRelative, EndsInAName, BoundManifest;
    forall i | 0 <= i < |rows|
      ensures RowIsTrue(w, pack.entries, rows[i])
    {
      HeldRowIsTrue(w, pack, describe, rows, i);
    }
    assert Covered(Listing([], pack.entries), LedgerOf(rows));
    hide RowIsTrue, AllNamed, AtMost32Deep, NothingSealed, PackHolds;
    ShallowAndReadable(pack.entries);
    CoveredExactlyWhen(pack.entries, rows);
  }

  lemma HeldRowIsTrue(w: World, pack: Pack, describe: Describe, rows: seq<(string, Digest)>, i: nat)
    requires WellFormed(pack.entries) && PackHolds(w, pack, describe) && i < |rows|
    requires BoundManifest(w, pack, describe) == Some(Manifest(w.manifestSchema, rows))
    requires Lookup(pack.entries, "describe.json") != None ==> !Lookup(pack.entries, "describe.json").value.Symlink?
    ensures RowIsTrue(w, pack.entries, rows[i])
  {
    hide WellFormed, Listing, LedgerOf, Nesting, Readable, Covered, PackRelative, EndsInAName, BoundManifest;
    assert RowHolds(w, pack, rows[i]);
    var path := PackRelative(rows[i].0).value;
    LedgerHasRow(rows, i);
    LedgerPathsArePhysical(w, pack, describe, path);
    assert !ThroughLinkedDescribe(pack, path);
    LstatIsThere(pack, pack.entries, path);
  }

  /** Steps 1 to 3 in one statement, of what is read and pinned. */
  lemma GatePassesExactlyWhen(w: World, pins: Pins, atDescribe: Pack, atManifest: Pack, usable: bool)
    ensures GatePasses(w, pins, atDescribe, atManifest, usable) <==>
            exists raw, d, key :: Vouches(w, atDescribe, raw, d, key) && PackHolds(w, atManifest, d)
                                  && usable && (d.id !in pins || pins[d.id] == key)
    ensures forall raw, d, key :: Vouches(w, atDescribe, raw, d, key) && GatePasses(w, pins, atDescribe, atManifest, usable) ==>
              && Passed(w, atDescribe, atManifest).0 == d
              && PinsAfterGate(w, pins, atDescribe, atManifest, usable) == pins[d.id := key]
  {
    hide PackHolds, ReadFile, LedgerOf, BoundManifest;
    if GatePasses(w, pins, atDescribe, atManifest, usable) {
      var raw, d := ReadFile(atDescribe, DESCRIBE_PATH).value, ReadDescribe(w, atDescribe).value;
      assert Vouches(w, atDescribe, raw, d, d.publicKey.value);
    }
  }

  /** The describe read is unmodified since it was signed, with `key`. */
  predicate Vouches(w: World, pack: Pack, raw: seq<byte>, d: Describe, key: Key) {
    && ReadFile(pack, ["describe.json"]) == Some(raw)
    && w.parseDescribe(raw) == Some(d)
    && w.selfConsistent(d) && d.publicKey == Some(key)
  }

  /** Which file is picked: a root `extension.wasm` if anything is there, else the one
      file of the one component declared. */
  lemma PickedExactly(describe: Describe, atPick: Pack, names: seq<string>)
    requires names != [] && forall i :: 0 <= i < |names| ==> IsPlainName(names[i])
    ensures Stat(atPick, ["extension.wasm"]).Some? ==>
              WasmComponentPath(describe, atPick) == Some(["extension.wasm"])
    ensures Stat(atPick, ["extension.wasm"]).None? && |describe.components| == 1
            && describe.components[0].1 == Some(Join(names, '/')) ==>
              WasmComponentPath(describe, atPick) == Some(names)
    ensures Stat(atPick, ["extension.wasm"]).None?
            && (|describe.components| != 1 || describe.components[0].1.None?) ==>
              WasmComponentPath(describe, atPick) == None
  {
    hide Stat, Join, PackRelative, EndsInAName;
    PlainPathReads(names);
  }

  /** What an instance is made of. */
  lemma InstanceIsWhatWasRead(
      w: World, describe: Describe, ledger: Ledger, dir: Path, atPick: Pack, atRead: Pack, path: Path, bytes: seq<byte>)
    requires path != [] && WasmComponentPath(describe, atPick) == Some(path)
    requires ReadFile(atRead, path) == Some(bytes) && path in ledger && ledger[path] == w.sha256(bytes) && w.compiles(bytes)
    ensures FromVerified(w, describe, ledger, dir, atPick, atRead) == Ok(LoadedExtension(describe, dir, bytes))
  {
    hide WasmComponentPath, ReadFile;
  }
}
