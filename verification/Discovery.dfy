/** Two answers to "what is an extension directory": the boot-time scan of a kind
    directory, and the watcher's walk up from a changed path. */
module Discovery {
  import opened Wrappers
  import opened Semver
  import opened Extensions
  import opened PackTree

  const DESCRIBE_NAME := "describe.json"

  /** The filesystem from its root; every directory in it, and every directory a
      link leads to, names each entry once. */
  ghost predicate Sound(fs: Pack) {
    && WellFormed(fs.entries)
    && forall target :: fs.follow(target).Some? && fs.follow(target).value.Dir? ==>
         WellFormed(fs.follow(target).value.entries)
  }

  predicate Exists(fs: Pack, path: Path)
    requires path != []
  {
    Stat(fs, path).Some?
  }

  /** What the scan of `kindDir` lists: its real subdirectories with a describe. */
  predicate IsScanned(fs: Pack, kindDir: Path, dir: Path) {
    && |dir| == |kindDir| + 1 && dir[..|kindDir|] == kindDir
    && Lstat(fs, fs.entries, dir).Some? && Lstat(fs, fs.entries, dir).value.Dir?
    && Exists(fs, dir + [DESCRIBE_NAME])
  }

  /** `dir` is `<root>/<kind>/<name>` for a configured root and a known kind. */
  predicate IsExtensionDir(roots: seq<Path>, kinds: set<string>, dir: Path) {
    && |dir| >= 2
    && dir[..|dir| - 2] in roots
    && dir[|dir| - 2] in kinds
  }

  /** The watcher's test of one directory. */
  predicate IsWatched(fs: Pack, roots: seq<Path>, kinds: set<string>, dir: Path) {
    Exists(fs, dir + [DESCRIBE_NAME]) && IsExtensionDir(roots, kinds, dir)
  }

  /** Some scan of a kind directory under some root lists `dir`. */
  ghost predicate IsDiscovered(fs: Pack, roots: seq<Path>, kinds: set<string>, dir: Path) {
    exists root, kind :: root in roots && kind in kinds && IsScanned(fs, root + [kind], dir)
  }

  /** The directory that opening `n` reaches, if it reaches one. */
  function Opened(fs: Pack, n: Node): Option<seq<Entry>> {
    match n
    case Dir(inner) => Some(inner)
    case File(_) => None
    case Special => None
    case Sealed => None
    case Symlink(target) =>
      match fs.follow(target)
      case Some(Dir(inner)) => Some(inner)
      case _ => None
  }

  /** What lies below a path are the entries of the directory opening it reaches,
      and nothing lies below anything else. */
  lemma {:induction false} LstatBelow(fs: Pack, entries: seq<Entry>, path: Path, name: string)
    requires path != []
    ensures var here := Lstat(fs, entries, path);
            Lstat(fs, entries, path + [name]) ==
              if here.Some? && Opened(fs, here.value).Some? then Lookup(Opened(fs, here.value).value, name)
              else None
    decreases |path|
  {
    var longer := path + [name];
    assert longer[0] == path[0] && longer[1..] == path[1..] + [name];
    match Lookup(entries, path[0]) {
      case None =>
      case Some(n) =>
        if |path| == 1 {
          assert longer[1..] == [name];
        } else if Opened(fs, n).Some? {
          LstatBelow(fs, Opened(fs, n).value, path[1..], name);
        }
    }
  }

  /** The two agree on every directory of the right shape that is not itself a
      link. A linked one the watcher takes and the scan passes over. */
  lemma WatchedIsDiscoveredExactlyWhen(fs: Pack, roots: seq<Path>, kinds: set<string>, dir: Path)
    ensures IsDiscovered(fs, roots, kinds, dir) <==>
            && IsWatched(fs, roots, kinds, dir)
            && !(Lstat(fs, fs.entries, dir).Some? && Lstat(fs, fs.entries, dir).value.Symlink?)
  {
    hide Lstat;
    if dir != [] {
      LstatBelow(fs, fs.entries, dir, DESCRIBE_NAME);
    }
    if IsDiscovered(fs, roots, kinds, dir) {
      var root, kind :| root in roots && kind in kinds && IsScanned(fs, root + [kind], dir);
      assert dir[..|root| + 1][..|root|] == dir[..|root|] == root;
      assert dir[..|root| + 1][|root|] == kind;
    }
    if IsWatched(fs, roots, kinds, dir) {
      var root, kind := dir[..|dir| - 2], dir[|dir| - 2];
      assert dir[..|dir| - 1] == root + [kind];
      assert |dir| == |root + [kind]| + 1;
      if !(Lstat(fs, fs.entries, dir).Some? && Lstat(fs, fs.entries, dir).value.Symlink?) {
        assert IsScanned(fs, root + [kind], dir);
      }
    }
  }

  /** A path of the right shape, spelled out. */
  lemma ExtensionDirExactlyWhen(roots: seq<Path>, kinds: set<string>, dir: Path)
    ensures IsExtensionDir(roots, kinds, dir) <==>
            exists root, kind, name :: root in roots && kind in kinds && dir == root + [kind] + [name]
  {
    if IsExtensionDir(roots, kinds, dir) {
      var root, kind, name := dir[..|dir| - 2], dir[|dir| - 2], dir[|dir| - 1];
      assert dir == root + [kind] + [name];
    }
    if root, kind, name :| root in roots && kind in kinds && dir == root + [kind] + [name] {
      assert dir[..|dir| - 2] == root && dir[|dir| - 2] == kind;
    }
  }

  /** A scanned directory is a real one directly in the kind directory, and opening the
      entry `describe.json` in it reaches something. */
  lemma ScannedExactlyWhen(fs: Pack, kindDir: Path, dir: Path)
    ensures IsScanned(fs, kindDir, dir) <==>
            && (exists name :: dir == kindDir + [name])
            && Lstat(fs, fs.entries, dir).Some? && Lstat(fs, fs.entries, dir).value.Dir?
            && match Lookup(Lstat(fs, fs.entries, dir).value.entries, "describe.json")
               case None => false
               case Some(Symlink(target)) => fs.follow(target).Some? && !fs.follow(target).value.Symlink?
               case Some(_) => true
  {
    hide Lstat, Lookup;
    if |dir| > 0 {
      LstatBelow(fs, fs.entries, dir, DESCRIBE_NAME);
      assert |dir| == |kindDir| + 1 && dir[..|kindDir|] == kindDir ==> dir == kindDir + [dir[|kindDir|]];
    }
    if name :| dir == kindDir + [name] {
      assert dir[..|kindDir|] == kindDir;
    }
  }

  const LINKED_DIR: Path := ["r", "design", "x"]

  /** A root with one kind directory in which `x` is a link to an extension. */
  function LinkedExtension(): Pack {
    Pack([Entry("r", Dir([Entry("design", Dir([Entry("x", Symlink("elsewhere"))]))]))],
         target => Some(Dir([Entry(DESCRIBE_NAME, File([]))])))
  }

  /** The disagreement is real: the watcher takes the linked directory, the scan does not. */
  lemma LinkedExtensionIsWatchedOnly()
    ensures var fs := LinkedExtension();
            && Sound(fs)
            && IsWatched(fs, [["r"]], {"design"}, LINKED_DIR)
            && !IsDiscovered(fs, [["r"]], {"design"}, LINKED_DIR)
  {
    var fs := LinkedExtension();
    var kind := [Entry("x", Symlink("elsewhere"))];
    var root := [Entry("design", Dir(kind))];
    assert WellFormed(kind) && WellFormed(root);
    assert LINKED_DIR[1..] == ["design", "x"] && ["design", "x"][1..] == ["x"];
    assert Lstat(fs, kind, ["x"]) == Some(Symlink("elsewhere"));
    assert Lstat(fs, root, ["design", "x"]) == Some(Symlink("elsewhere"));
    assert Lstat(fs, fs.entries, LINKED_DIR) == Some(Symlink("elsewhere"));
    LstatBelow(fs, fs.entries, LINKED_DIR, DESCRIBE_NAME);
    assert LINKED_DIR[..1] == ["r"];
    WatchedIsDiscoveredExactlyWhen(fs, [["r"]], {"design"}, LINKED_DIR);
  }

  /** No prefix of `path` is a link. */
  ghost predicate NoLinksAlong(fs: Pack, path: Path) {
    forall k :: 0 < k <= |path| ==> !LinkAt(fs, path[..k])
  }

  predicate LinkAt(fs: Pack, path: Path)
    requires path != []
  {
    Lstat(fs, fs.entries, path).Some? && Lstat(fs, fs.entries, path).value.Symlink?
  }

  /** Walk up from a changed path to the extension directory that owns it: the
      nearest one the watcher's test takes. Where no link lies on the way, that is
      the nearest one the scan would list. */
  method FindExtensionDir(fs: Pack, roots: seq<Path>, kinds: set<string>, p: Path) returns (found: Option<Path>)
    ensures found.Some? ==> found.value <= p && IsWatched(fs, roots, kinds, found.value)
    ensures found.Some? ==> forall k :: |found.value| < k <= |p| ==> !IsWatched(fs, roots, kinds, p[..k])
    ensures found.None? ==> forall k :: 0 <= k <= |p| ==> !IsWatched(fs, roots, kinds, p[..k])
    ensures NoLinksAlong(fs, p) ==>
              match found
              case Some(dir) =>
                && IsDiscovered(fs, roots, kinds, dir)
                && forall k :: |dir| < k <= |p| ==> !IsDiscovered(fs, roots, kinds, p[..k])
              case None => forall k :: 0 <= k <= |p| ==> !IsDiscovered(fs, roots, kinds, p[..k])
  {
    forall k | 0 <= k <= |p|
      ensures IsDiscovered(fs, roots, kinds, p[..k]) ==> IsWatched(fs, roots, kinds, p[..k])
      ensures NoLinksAlong(fs, p) && IsWatched(fs, roots, kinds, p[..k]) ==> IsDiscovered(fs, roots, kinds, p[..k])
    {
      WatchedIsDiscoveredExactlyWhen(fs, roots, kinds, p[..k]);
      assert k > 0 && NoLinksAlong(fs, p) ==> !LinkAt(fs, p[..k]);
    }
    hide IsWatched, IsDiscovered, NoLinksAlong;
    var cur := p;
    while true
      invariant cur <= p
      invariant forall k :: |cur| < k <= |p| ==> !IsWatched(fs, roots, kinds, p[..k])
      decreases |cur|
    {
      assert cur == p[..|cur|];
      if Exists(fs, cur + [DESCRIBE_NAME]) && IsExtensionDir(roots, kinds, cur) {
        assert IsWatched(fs, roots, kinds, cur);
        return Some(cur);
      }
      if cur == [] {
        return None;
      }
      cur := cur[..|cur| - 1];
    }
  }

  lemma {:induction false} LstatIsWellFormed(fs: Pack, entries: seq<Entry>, path: Path)
    requires Sound(fs) && WellFormed(entries) && path != []
    ensures Lstat(fs, entries, path).Some? && Lstat(fs, entries, path).value.Dir? ==>
              WellFormed(Lstat(fs, entries, path).value.entries)
    decreases |path|
  {
    match Lookup(entries, path[0]) {
      case None =>
      case Some(n) =>
        if |path| > 1 && n.Dir? {
          LstatIsWellFormed(fs, n.entries, path[1..]);
        } else if |path| > 1 && n.Symlink? && fs.follow(n.target).Some? && fs.follow(n.target).value.Dir? {
          LstatIsWellFormed(fs, fs.follow(n.target).value.entries, path[1..]);
        }
    }
  }

  /** The scan's test of one entry is the test of the path it names. */
  lemma ScannedEntry(fs: Pack, kindDir: Path, entries: seq<Entry>, i: nat)
    requires kindDir != [] && Stat(fs, kindDir) == Some(Dir(entries)) && WellFormed(entries) && i < |entries|
    ensures var dir := kindDir + [entries[i].name];
            IsScanned(fs, kindDir, dir) <==> entries[i].node.Dir? && Exists(fs, dir + [DESCRIBE_NAME])
  {
    hide WellFormed;
    LstatBelow(fs, fs.entries, kindDir, entries[i].name);
    LookupFinds(entries, i);
  }

  /** Only entries of the directory itself are ever scanned. */
  lemma ScannedIsAnEntry(fs: Pack, kindDir: Path, dir: Path) returns (i: nat)
    requires kindDir != [] && IsScanned(fs, kindDir, dir)
    ensures Stat(fs, kindDir).Some? && Stat(fs, kindDir).value.Dir?
    ensures var entries := Stat(fs, kindDir).value.entries;
            i < |entries| && dir == kindDir + [entries[i].name]
  {
    var name := dir[|kindDir|];
    assert dir == kindDir + [name];
    LstatBelow(fs, fs.entries, kindDir, name);
    var entries := Stat(fs, kindDir).value.entries;
    i :| i < |entries| && entries[i] == Entry(name, Lookup(entries, name).value);
  }

  lemma SiblingsDiffer(kindDir: Path, entries: seq<Entry>, i: nat, j: nat)
    requires WellFormed(entries) && i < |entries| && j < |entries| && i != j
    ensures kindDir + [entries[i].name] != kindDir + [entries[j].name]
  {
    assert (kindDir + [entries[i].name])[|kindDir|] == entries[i].name;
    assert (kindDir + [entries[j].name])[|kindDir|] == entries[j].name;
  }

  /** `dir` is one of the first `n` entries and passes the scan. */
  ghost predicate ScannedAmong(fs: Pack, kindDir: Path, entries: seq<Entry>, n: nat, dir: Path) {
    exists i :: 0 <= i < n <= |entries| && dir == kindDir + [entries[i].name] && IsScanned(fs, kindDir, dir)
  }

  /** The order paths are sorted in: component by component. */
  function ComparePaths(a: Path, b: Path): Ordering {
    if a == [] then (if b == [] then Equal else Less)
    else if b == [] then Greater
    else CompareText(a[0], b[0]).Then(ComparePaths(a[1..], b[1..]))
  }

  lemma {:induction false} PathOrder(a: Path, b: Path)
    ensures ComparePaths(b, a) == ComparePaths(a, b).Flip()
    ensures ComparePaths(a, b).Equal? <==> a == b
  {
    if a != [] && b != [] {
      TextOrder(a[0], b[0]);
      PathOrder(a[1..], b[1..]);
      assert a == [a[0]] + a[1..] && b == [b[0]] + b[1..];
    }
  }

  lemma {:induction false} PathTransitive(a: Path, b: Path, c: Path)
    requires !ComparePaths(a, b).Greater? && !ComparePaths(b, c).Greater?
    ensures !ComparePaths(a, c).Greater?
  {
    if a != [] && b != [] && c != [] {
      TextTransitive(a[0], b[0], c[0]);
      TextOrder(a[0], b[0]);
      TextOrder(b[0], c[0]);
      TextOrder(a[0], c[0]);
      if a[0] == b[0] == c[0] {
        PathTransitive(a[1..], b[1..], c[1..]);
      }
    }
  }

  /** Paths in one directory are in the order of their names, character by character. */
  lemma {:induction false} SiblingsByName(dir: Path, a: string, b: string)
    ensures ComparePaths(dir + [a], dir + [b]).Less? <==> TextBelow(a, b)
  {
    hide TextBelow, CompareText;
    var p, q := dir + [a], dir + [b];
    if dir == [] {
      assert p[1..] == [] && q[1..] == [];
      TextBelowExactly(a, b);
    } else {
      assert p[1..] == dir[1..] + [a] && q[1..] == dir[1..] + [b] && p[0] == q[0];
      SiblingsByName(dir[1..], a, b);
      TextOrder(p[0], q[0]);
    }
  }

  /** Strictly increasing, and so without repeats. */
  ghost predicate Increasing(paths: seq<Path>) {
    forall i, j :: 0 <= i < j < |paths| ==> ComparePaths(paths[i], paths[j]).Less?
  }

  lemma IncreasingHasNoRepeats(paths: seq<Path>)
    requires Increasing(paths)
    ensures NoRepeats(paths)
  {
    forall i, j | 0 <= i < j < |paths|
      ensures paths[i] != paths[j]
    {
      PathOrder(paths[i], paths[j]);
    }
  }

  function Inserted(path: Path, paths: seq<Path>): seq<Path> {
    if paths == [] then [path]
    else if ComparePaths(path, paths[0]).Less? then [path] + paths
    else [paths[0]] + Inserted(path, paths[1..])
  }

  function Sorted(paths: seq<Path>): seq<Path> {
    if paths == [] then [] else Inserted(paths[0], Sorted(paths[1..]))
  }

  lemma {:induction false} InsertedIncreases(path: Path, paths: seq<Path>)
    requires Increasing(paths) && path !in paths
    ensures Increasing(Inserted(path, paths))
    ensures forall p :: p in Inserted(path, paths) <==> p == path || p in paths
  {
    hide ComparePaths;
    if paths != [] {
      var first, rest := paths[0], paths[1..];
      assert paths == [first] + rest;
      PathOrder(path, first);
      if ComparePaths(path, first).Less? {
        forall j | 0 <= j < |paths|
          ensures ComparePaths(path, paths[j]).Less?
        {
          PathOrder(first, paths[j]);
          PathTransitive(path, first, paths[j]);
          PathOrder(path, paths[j]);
        }
      } else {
        InsertedIncreases(path, rest);
        var tail := Inserted(path, rest);
        forall j | 0 <= j < |tail|
          ensures ComparePaths(first, tail[j]).Less?
        {
          assert tail[j] == path || tail[j] in rest;
        }
      }
    }
  }

  lemma {:induction false} SortedIncreases(paths: seq<Path>)
    requires NoRepeats(paths)
    ensures Increasing(Sorted(paths))
    ensures forall p :: p in Sorted(paths) <==> p in paths
  {
    if paths != [] {
      assert paths == [paths[0]] + paths[1..];
      SortedIncreases(paths[1..]);
      InsertedIncreases(paths[0], Sorted(paths[1..]));
    }
  }

  /** Scan one kind directory: each extension subdirectory once, in order, and
      nothing at all when the directory is missing. */
  method ScanKindDir(fs: Pack, kindDir: Path) returns (r: Result<seq<Path>, string>)
    requires Sound(fs) && kindDir != []
    ensures r.Err? <==> Exists(fs, kindDir) && !Stat(fs, kindDir).value.Dir?
    ensures r.Ok? ==> Increasing(r.value)
    ensures r.Ok? ==> NoRepeats(r.value) && forall dir :: dir in r.value <==> IsScanned(fs, kindDir, dir)
  {
    ghost var missing := !Exists(fs, kindDir) || !Stat(fs, kindDir).value.Dir?;
    forall dir | missing
      ensures !IsScanned(fs, kindDir, dir)
    {
      if IsScanned(fs, kindDir, dir) {
        var i := ScannedIsAnEntry(fs, kindDir, dir);
      }
    }
    if !Exists(fs, kindDir) {
      return Ok([]);
    }
    if !Stat(fs, kindDir).value.Dir? {
      return Err("not a directory");
    }
    var entries := Stat(fs, kindDir).value.entries;
    LstatIsWellFormed(fs, fs.entries, kindDir);
    assert WellFormed(entries);
    hide IsScanned, Stat, WellFormed, Sound, Sorted, Increasing, ComparePaths;
    var out: seq<Path> := [];
    for i := 0 to |entries|
      invariant NoRepeats(out)
      invariant forall dir :: dir in out <==> ScannedAmong(fs, kindDir, entries, i, dir)
    {
      ScannedEntry(fs, kindDir, entries, i);
      var path := kindDir + [entries[i].name];
      ScannedAmongGrows(fs, kindDir, entries, i);
      if entries[i].node.Dir? && Exists(fs, path + [DESCRIBE_NAME]) {
        out := out + [path];
      }
    }
    forall dir | IsScanned(fs, kindDir, dir)
      ensures ScannedAmong(fs, kindDir, entries, |entries|, dir)
    {
      var i := ScannedIsAnEntry(fs, kindDir, dir);
    }
    SortedIncreases(out);
    IncreasingHasNoRepeats(Sorted(out));
    r := Ok(Sorted(out));
  }

  lemma ScannedAmongGrows(fs: Pack, kindDir: Path, entries: seq<Entry>, n: nat)
    requires WellFormed(entries) && n < |entries|
    ensures forall dir :: ScannedAmong(fs, kindDir, entries, n + 1, dir) <==>
              || ScannedAmong(fs, kindDir, entries, n, dir)
              || (dir == kindDir + [entries[n].name] && IsScanned(fs, kindDir, dir))
    ensures !ScannedAmong(fs, kindDir, entries, n, kindDir + [entries[n].name])
  {
    hide IsScanned, WellFormed;
    forall i | 0 <= i < n
      ensures kindDir + [entries[i].name] != kindDir + [entries[n].name]
    {
      SiblingsDiffer(kindDir, entries, i, n);
    }
  }
}
