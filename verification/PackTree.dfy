/** An unpacked extension directory as the loader sees it: files, directories and
    symlinks, and the depth-capped walk that lists it. */
module PackTree {
  import opened Wrappers
  import opened Extensions

  /** A directory keeps its entries in the order `read_dir` happens to give them; a
      sealed one is a directory whose entries cannot be listed or cannot be inspected.
      `Special` is a pipe, a socket or a device. */
  datatype Node =
    | File(content: seq<byte>)
    | Special
    | Sealed
    | Symlink(target: string)
    | Dir(entries: seq<Entry>)

  datatype Entry = Entry(name: string, node: Node)

  /** The pack's own tree, and whatever the rest of the filesystem holds at the
      places its symlinks point to, with links resolved to the end. */
  datatype Pack = Pack(entries: seq<Entry>, follow: string -> Option<Node>)

  /** No directory has two entries of one name. */
  ghost predicate WellFormed(entries: seq<Entry>) {
    && (forall i, j :: 0 <= i < j < |entries| ==> entries[i].name != entries[j].name)
    && (forall i :: 0 <= i < |entries| && entries[i].node.Dir? ==> WellFormed(entries[i].node.entries))
  }

  function Lookup(entries: seq<Entry>, name: string): (r: Option<Node>)
    ensures r.Some? ==> exists i :: 0 <= i < |entries| && entries[i] == Entry(name, r.value)
  {
    if entries == [] then None
    else if entries[0].name == name then
      assert entries[0] == Entry(name, entries[0].node);
      Some(entries[0].node)
    else
      var r := Lookup(entries[1..], name);
      assert r.Some? ==> exists i :: 0 <= i < |entries[1..]| && entries[1..][i] == Entry(name, r.value);
      assert forall i :: 0 <= i < |entries[1..]| ==> entries[1..][i] == entries[i + 1];
      r
  }

  lemma {:induction false} LookupFinds(entries: seq<Entry>, i: nat)
    requires WellFormed(entries) && i < |entries|
    ensures Lookup(entries, entries[i].name) == Some(entries[i].node)
  {
    if i > 0 {
      assert forall k :: 0 <= k < |entries[1..]| ==> entries[1..][k] == entries[k + 1];
      LookupFinds(entries[1..], i - 1);
    }
  }

  /** What is physically at `path`, going through directories only. */
  function At(entries: seq<Entry>, path: Path): Option<Node>
    requires path != []
    decreases |path|
  {
    match Lookup(entries, path[0])
    case None => None
    case Some(n) =>
      if |path| == 1 then Some(n)
      else if n.Dir? then At(n.entries, path[1..])
      else None
  }

  /** What the system finds at `path` without following its last component, but
      following any symlinked directory on the way (`symlink_metadata`). */
  function Lstat(p: Pack, entries: seq<Entry>, path: Path): Option<Node>
    requires path != []
    decreases |path|
  {
    match Lookup(entries, path[0])
    case None => None
    case Some(n) =>
      if |path| == 1 then Some(n)
      else
        match n
        case Dir(inner) => Lstat(p, inner, path[1..])
        case File(_) => None
        case Special => None
        case Sealed => None
        case Symlink(target) =>
          match p.follow(target)
          case Some(Dir(inner)) => Lstat(p, inner, path[1..])
          case _ => None
  }

  /** What opening `path` reaches: the last component is followed too. */
  function Stat(p: Pack, path: Path): Option<Node>
    requires path != []
  {
    match Lstat(p, p.entries, path)
    case Some(Symlink(target)) => if p.follow(target).Some? && p.follow(target).value.Symlink? then None
                                  else p.follow(target)
    case found => found
  }

  function ReadFile(p: Pack, path: Path): Option<seq<byte>>
    requires path != []
  {
    match Stat(p, path)
    case Some(File(content)) => Some(content)
    case _ => None
  }

  /** What a walk of the directory at `at` lists: everything below that is not a
      directory, in the order the entries come. */
  function Listing(at: Path, entries: seq<Entry>): seq<Path>
    decreases entries
  {
    if entries == [] then []
    else
      var path := at + [entries[0].name];
      (match entries[0].node
       case Dir(inner) => Listing(path, inner)
       case Sealed => []
       case _ => [path])
      + Listing(at, entries[1..])
  }

  function Max(a: nat, b: nat): nat {
    if a < b then b else a
  }

  /** How many directories lie on the deepest chain below. */
  function Nesting(entries: seq<Entry>): nat {
    if entries == [] then 0
    else
      Max(if entries[0].node.Dir? then 1 + Nesting(entries[0].node.entries) else 0,
          Nesting(entries[1..]))
  }

  /** `path` names something below that is not a directory. */
  predicate IsLeaf(entries: seq<Entry>, path: Path) {
    && path != [] && At(entries, path).Some?
    && !At(entries, path).value.Dir? && !At(entries, path).value.Sealed?
  }

  /** Every directory below can be read. */
  predicate Readable(entries: seq<Entry>) {
    entries != [] ==>
      && !entries[0].node.Sealed?
      && (entries[0].node.Dir? ==> Readable(entries[0].node.entries))
      && Readable(entries[1..])
  }

  /** That is, no path leads to a sealed one. */
  lemma {:induction false} ReadableExactlyWhen(entries: seq<Entry>)
    requires WellFormed(entries)
    ensures Readable(entries) <==>
            forall path :: path != [] && At(entries, path).Some? ==> !At(entries, path).value.Sealed?
  {
    if Readable(entries) {
      forall path | path != [] && At(entries, path).Some?
        ensures !At(entries, path).value.Sealed?
      {
        NothingSealedAt(entries, path);
      }
    } else {
      var path := SealedSomewhere(entries);
    }
  }

  lemma {:induction false} ReadableEntry(entries: seq<Entry>, i: nat)
    requires Readable(entries) && i < |entries|
    ensures !entries[i].node.Sealed? && (entries[i].node.Dir? ==> Readable(entries[i].node.entries))
  {
    if i > 0 {
      ReadableEntry(entries[1..], i - 1);
    }
  }

  lemma {:induction false} NothingSealedAt(entries: seq<Entry>, path: Path)
    requires Readable(entries) && path != [] && At(entries, path).Some?
    ensures !At(entries, path).value.Sealed?
    decreases |path|
  {
    var n := Lookup(entries, path[0]).value;
    var i :| 0 <= i < |entries| && entries[i] == Entry(path[0], n);
    ReadableEntry(entries, i);
    if |path| > 1 {
      NothingSealedAt(n.entries, path[1..]);
    }
  }

  lemma {:induction false} SealedSomewhere(entries: seq<Entry>) returns (path: Path)
    requires WellFormed(entries) && !Readable(entries)
    ensures path != [] && At(entries, path) == Some(Sealed)
  {
    var first, rest := entries[0], entries[1..];
    assert forall k :: 0 <= k < |rest| ==> rest[k] == entries[k + 1];
    if first.node.Sealed? {
      path := [first.name];
    } else if first.node.Dir? && !Readable(first.node.entries) {
      var below := SealedSomewhere(first.node.entries);
      path := [first.name] + below;
      assert path[1..] == below;
    } else {
      path := SealedSomewhere(rest);
      var found := Lookup(rest, path[0]).value;
      var i :| 0 <= i < |rest| && rest[i] == Entry(path[0], found);
      assert entries[i + 1].name == path[0] && first.name != path[0];
    }
  }

  /** `path` is a leaf below the directory at `at`. */
  predicate LeafUnder(at: Path, entries: seq<Entry>, path: Path) {
    |path| > |at| && path[..|at|] == at && IsLeaf(entries, path[|at|..])
  }

  /** Below one entry: the entry itself, or what lies under it. */
  predicate LeafOf(at: Path, e: Entry, path: Path) {
    match e.node
    case Dir(inner) => LeafUnder(at + [e.name], inner, path)
    case Sealed => false
    case _ => path == at + [e.name]
  }

  /** A leaf lies below the first entry or below one of the others, by its next name. */
  lemma LeafUnderFirst(at: Path, entries: seq<Entry>, path: Path)
    requires WellFormed(entries) && entries != []
    ensures LeafUnder(at, entries, path) <==> LeafOf(at, entries[0], path) || LeafUnder(at, entries[1..], path)
  {
    if |path| > |at| && path[..|at|] == at {
      NextName(at, entries[0].name, path);
      LeafByFirstName(entries, path[|at|..]);
    } else {
      NotUnder(at, entries[0], path);
    }
  }

  lemma NextName(at: Path, name: string, path: Path)
    requires |path| > |at| && path[..|at|] == at
    ensures path == at + path[|at|..]
    ensures |path| > |at| + 1 ==> path[|at + [name]|..] == path[|at|..][1..]
    ensures path[..|at| + 1] == at + [path[|at|]]
    ensures at + [name] == path[..|at| + 1] <==> name == path[|at|]
  {
    assert (at + [name])[|at|] == name;
  }

  lemma NotUnder(at: Path, e: Entry, path: Path)
    requires !(|path| > |at| && path[..|at|] == at)
    ensures !LeafOf(at, e, path)
  {
    hide IsLeaf;
    var here := at + [e.name];
    assert |path| > |at| ==> path[..|here|][..|at|] == path[..|at|];
    assert here[..|at|] == at;
  }

  lemma LeafByFirstName(entries: seq<Entry>, below: Path)
    requires WellFormed(entries) && entries != [] && below != []
    ensures IsLeaf(entries, below) <==>
            if below[0] == entries[0].name then
              if |below| == 1 then !entries[0].node.Dir? && !entries[0].node.Sealed?
              else entries[0].node.Dir? && IsLeaf(entries[0].node.entries, below[1..])
            else IsLeaf(entries[1..], below)
    ensures below[0] == entries[0].name ==> !IsLeaf(entries[1..], below)
  {
    var rest := entries[1..];
    assert forall k :: 0 <= k < |rest| ==> rest[k] == entries[k + 1];
    if below[0] == entries[0].name {
      assert Lookup(rest, below[0]).None?;
    }
  }

  /** The walk lists exactly the non-directories. */
  lemma {:induction false} ListingIsTheLeaves(at: Path, entries: seq<Entry>, path: Path)
    requires WellFormed(entries)
    ensures path in Listing(at, entries) <==>
            |path| > |at| && path[..|at|] == at && IsLeaf(entries, path[|at|..])
    decreases entries
  {
    if entries != [] {
      var first, rest := entries[0], entries[1..];
      assert forall k :: 0 <= k < |rest| ==> rest[k] == entries[k + 1];
      ListingIsTheLeaves(at, rest, path);
      if first.node.Dir? {
        ListingIsTheLeaves(at + [first.name], first.node.entries, path);
      }
      LeafUnderFirst(at, entries, path);
      hide IsLeaf;
      assert path in Listing(at, entries) <==> LeafOf(at, first, path) || LeafUnder(at, rest, path);
    }
  }

  ghost predicate NoRepeats(paths: seq<Path>) {
    forall i, j :: 0 <= i < j < |paths| ==> paths[i] != paths[j]
  }

  lemma DisjointParts(a: seq<Path>, b: seq<Path>)
    requires NoRepeats(a) && NoRepeats(b)
    requires forall path :: path in a ==> path !in b
    ensures NoRepeats(a + b)
  {
    forall i, j | 0 <= i < j < |a + b|
      ensures (a + b)[i] != (a + b)[j]
    {
      if i < |a| <= j {
        assert a[i] in a && b[j - |a|] in b;
      }
    }
  }

  /** And it lists each of them once. */
  lemma {:induction false} ListedOnce(at: Path, entries: seq<Entry>)
    requires WellFormed(entries)
    ensures NoRepeats(Listing(at, entries))
    decreases entries
  {
    if entries != [] {
      var first, rest := entries[0], entries[1..];
      assert forall k :: 0 <= k < |rest| ==> rest[k] == entries[k + 1];
      ListedOnce(at, rest);
      var here := at + [first.name];
      var head := if first.node.Dir? then Listing(here, first.node.entries) else if first.node.Sealed? then [] else [here];
      if first.node.Dir? {
        ListedOnce(here, first.node.entries);
      }
      forall path | path in head
        ensures path !in Listing(at, rest)
      {
        if first.node.Dir? {
          ListingIsTheLeaves(here, first.node.entries, path);
          assert path[|at|] == path[..|here|][|at|];
        }
        ListingIsTheLeaves(at, rest, path);
        assert path[|at|..][0] == first.name;
        assert Lookup(rest, first.name).None?;
      }
      DisjointParts(head, Listing(at, rest));
    }
  }

  /** A chain of directories deeper than `n` is a directory at a path that long. */
  lemma {:induction false} NestingIsDeepestDirectory(entries: seq<Entry>, n: nat)
    requires WellFormed(entries)
    ensures Nesting(entries) > n <==>
            exists path :: |path| > n && path != [] && At(entries, path).Some? && At(entries, path).value.Dir?
  {
    if Nesting(entries) > n {
      var path := DeepDirectory(entries, n);
    }
    forall path | path != [] && At(entries, path).Some? && At(entries, path).value.Dir?
      ensures Nesting(entries) >= |path|
    {
      NestingCovers(entries, path);
    }
  }

  lemma {:induction false} NestingOfEntry(entries: seq<Entry>, i: nat)
    requires i < |entries| && entries[i].node.Dir?
    ensures Nesting(entries) > Nesting(entries[i].node.entries)
  {
    if i > 0 {
      NestingOfEntry(entries[1..], i - 1);
    }
  }

  lemma {:induction false} NestingCovers(entries: seq<Entry>, path: Path)
    requires path != [] && At(entries, path).Some? && At(entries, path).value.Dir?
    ensures Nesting(entries) >= |path|
    decreases |path|
  {
    var n := Lookup(entries, path[0]).value;
    var i :| 0 <= i < |entries| && entries[i] == Entry(path[0], n);
    NestingOfEntry(entries, i);
    if |path| > 1 {
      NestingCovers(n.entries, path[1..]);
    }
  }

  lemma {:induction false} DeepDirectory(entries: seq<Entry>, n: nat) returns (path: Path)
    requires WellFormed(entries) && Nesting(entries) > n
    ensures |path| > n && path != [] && At(entries, path).Some? && At(entries, path).value.Dir?
  {
    var first, rest := entries[0], entries[1..];
    assert forall k :: 0 <= k < |rest| ==> rest[k] == entries[k + 1];
    if first.node.Dir? && 1 + Nesting(first.node.entries) > n {
      if n == 0 {
        path := [first.name];
      } else {
        var below := DeepDirectory(first.node.entries, n - 1);
        path := [first.name] + below;
        assert path[1..] == below;
      }
    } else {
      path := DeepDirectory(rest, n);
      var found := Lookup(rest, path[0]).value;
      var i :| 0 <= i < |rest| && rest[i] == Entry(path[0], found);
      assert entries[i + 1].name == path[0];
      assert first.name != path[0];
    }
  }

  const MAX_PACK_DEPTH: nat := 32

  /** The list the walk pushes into. */
  class Found {
    var paths: seq<Path>

    constructor ()
      ensures paths == []
    {
      paths := [];
    }
  }

  /** A walk of these entries with `room` levels to go comes to the end. */
  predicate Walkable(entries: seq<Entry>, room: int) {
    Nesting(entries) <= room && Readable(entries)
  }

  predicate EntryWalkable(e: Entry, room: int) {
    match e.node
    case Dir(inner) => Walkable(inner, room - 1) && room >= 1
    case Sealed => false
    case _ => true
  }

  /** The part of a listing that one entry contributes. */
  function ListedOf(at: Path, e: Entry): seq<Path> {
    match e.node
    case Dir(inner) => Listing(at + [e.name], inner)
    case Sealed => []
    case _ => [at + [e.name]]
  }

  /** One entry on: the loop step of the walk. */
  lemma WalkStep(at: Path, entries: seq<Entry>, i: nat, room: int)
    requires i < |entries| && room >= 0
    ensures Listing(at, entries[i..]) == ListedOf(at, entries[i]) + Listing(at, entries[i + 1..])
    ensures Walkable(entries[i..], room) <==> EntryWalkable(entries[i], room) && Walkable(entries[i + 1..], room)
  {
    assert entries[i..][0] == entries[i] && entries[i..][1..] == entries[i + 1..];
  }

  lemma Regroup(a: seq<Path>, b: seq<Path>, c: seq<Path>)
    ensures a + b + c == a + (b + c)
  {
  }

  lemma WalkEnds(at: Path, room: int)
    requires room >= 0
    ensures Listing(at, []) == [] && Walkable([], room)
  {
  }

  /** The recursive walk of the directory at `at`, `depth` levels down. It refuses
      exactly the trees that nest deeper than the cap or hold a directory it cannot
      read, and otherwise appends every leaf below; a symlink is a leaf and is never
      followed. */
  method CollectInto(entries: seq<Entry>, at: Path, depth: nat, out: Found) returns (ok: bool)
    modifies out
    ensures ok <==> Walkable(entries, MAX_PACK_DEPTH - depth)
    ensures ok ==> out.paths == old(out.paths) + Listing(at, entries)
    decreases entries
  {
    if depth > MAX_PACK_DEPTH {
      return false;
    }
    ghost var room := MAX_PACK_DEPTH - depth;
    WalkEnds(at, room);
    hide Listing, Walkable;
    assert entries[0..] == entries;
    for i := 0 to |entries|
      invariant out.paths + Listing(at, entries[i..]) == old(out.paths) + Listing(at, entries)
      invariant Walkable(entries, room) <==> Walkable(entries[i..], room)
    {
      WalkStep(at, entries, i, room);
      ghost var before, rest := out.paths, Listing(at, entries[i + 1..]);
      Regroup(before, ListedOf(at, entries[i]), rest);
      var path := at + [entries[i].name];
      match entries[i].node {
        case Dir(inner) =>
          var deeper := CollectInto(inner, path, depth + 1, out);
          if !deeper {
            return false;
          }
        case Sealed =>
          return false;
        case _ =>
          out.paths := out.paths + [path];
      }
      assert out.paths == before + ListedOf(at, entries[i]);
    }
    assert entries[|entries|..] == [];
    ok := true;
  }
}
