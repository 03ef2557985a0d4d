/** The watcher decides which extensions are gone from a map it read without the lock,
    and evicts them by id afterwards. */
module EvictionRaces {
  import opened Semver
  import opened Capability
  import opened Extensions
  import opened Publication
  import opened PublicationResults

  /** Commit `m` put its own extension in place under `id`. */
  predicate PutsAt(commits: seq<Commit>, m: int, id: ExtensionId) {
    0 <= m < |commits| && About(commits[m].out, id) && !commits[m].out.Removed?
  }

  /** Commit `m` is the last one about `id` in `a..n`, and puts an extension there. */
  ghost predicate LastPut(commits: seq<Commit>, a: int, n: int, m: int, id: ExtensionId) {
    && 0 <= a <= m < n <= |commits| && PutsAt(commits, m, id)
    && forall q :: m < q < n ==> !About(commits[q].out, id)
  }

  lemma PutIsLoaded(d: Dialect, commits: seq<Commit>, history: seq<LoadedMap>, m: int, id: ExtensionId)
    requires IsHistory(d, commits, history) && PutsAt(commits, m, id)
    ensures var edit := commits[m].job.edit;
            (edit.Register? || edit.Reload?) && id in history[m + 1] && history[m + 1][id] == edit.ext
  {
    hide IsDowngrade;
    assert EditLinks(d, commits, history, m);
  }

  /** An entry is what it was, unless a commit was about its id. */
  lemma UntouchedStays(d: Dialect, commits: seq<Commit>, history: seq<LoadedMap>, m: nat, id: ExtensionId)
    requires IsHistory(d, commits, history) && m < |commits| && !About(commits[m].out, id)
    ensures id in history[m + 1] <==> id in history[m]
    ensures id in history[m] ==> history[m + 1][id] == history[m][id]
  {
    hide IsDowngrade;
    assert EditLinks(d, commits, history, m);
  }

  lemma RemovedIsGone(d: Dialect, commits: seq<Commit>, history: seq<LoadedMap>, m: nat, id: ExtensionId)
    requires IsHistory(d, commits, history) && m < |commits| && commits[m].out == Removed(id)
    ensures id !in history[m + 1]
  {
    hide IsDowngrade;
    assert EditLinks(d, commits, history, m);
  }

  /** What is loaded at `n` was there at `a` and untouched since, or is what the last
      commit about the id put there. */
  lemma {:induction false} LoadedSince(
      d: Dialect, commits: seq<Commit>, history: seq<LoadedMap>, a: nat, n: nat, id: ExtensionId) returns (m: int)
    requires IsHistory(d, commits, history) && a <= n < |history|
    ensures m < a ==> forall q :: a <= q < n ==> !LastPut(commits, a, n, q, id)
    ensures m < a && id in history[n] ==> id in history[a] && history[n][id] == history[a][id]
    ensures m >= a ==> LastPut(commits, a, n, m, id) && id in history[n]
                       && (commits[m].job.edit.Register? || commits[m].job.edit.Reload?)
                       && history[n][id] == commits[m].job.edit.ext
    decreases n
  {
    assert |history| == |commits| + 1;
    hide IsHistory;
    m := -1;
    if a < n {
      if About(commits[n - 1].out, id) {
        if commits[n - 1].out.Removed? {
          RemovedIsGone(d, commits, history, n - 1, id);
        } else {
          m := n - 1;
          PutIsLoaded(d, commits, history, m, id);
        }
      } else {
        m := LoadedSince(d, commits, history, a, n - 1, id);
        UntouchedStays(d, commits, history, n - 1, id);
        assert forall q :: LastPut(commits, a, n, q, id) ==> LastPut(commits, a, n - 1, q, id);
      }
    }
  }

  /** The watcher sees at `a` that the directory of `id` is gone and evicts the id when
      the map has become `history[n]`. It takes away an extension whose directory is
      there exactly when one was loaded from such a directory in the meantime, and
      nothing about that id was committed after it. */
  lemma EvictsALiveEntryExactlyWhen(
      d: Dialect, commits: seq<Commit>, history: seq<LoadedMap>, stat: Path -> Presence, a: nat, n: nat, id: ExtensionId)
    requires IsHistory(d, commits, history) && a <= n < |history|
    requires id in history[a] && HasVanished(stat, history[a][id].sourceDir)
    ensures id in history[n] && !HasVanished(stat, history[n][id].sourceDir) <==>
            exists m :: LastPut(commits, a, n, m, id) && PutsPresent(stat, commits, m)
  {
    hide IsHistory, HasVanished;
    var m := LoadedSince(d, commits, history, a, n, id);
    assert forall q :: LastPut(commits, a, n, q, id) && m >= a ==> q == m;
  }

  /** Commit `m` loads from a directory that is there. */
  predicate PutsPresent(stat: Path -> Presence, commits: seq<Commit>, m: int) {
    && 0 <= m < |commits|
    && (commits[m].job.edit.Register? || commits[m].job.edit.Reload?)
    && !HasVanished(stat, commits[m].job.edit.ext.sourceDir)
  }

  /** Such a run: between the watcher's look at the map and its eviction, the extension
      is reloaded from where it has been moved to. */
  lemma MovedExtensionIsEvicted(d: Dialect, stat: Path -> Presence, gone: LoadedExtension, moved: LoadedExtension)
      returns (run: seq<State>, seen: nat)
    requires gone.describe == moved.describe && Parses(d, gone)
    requires HasVanished(stat, gone.sourceDir) && !HasVanished(stat, moved.sourceDir)
    ensures var id := gone.describe.id;
            && IsRun(d, run) && seen < |run|
            && run[seen].loaded == map[id := gone]
            && Last(run).history == [map[], map[id := gone], map[id := moved], map[]]
            && |Last(run).commits| == 3 && Last(run).commits[2].job.edit == Evict(id)
  {
    var id := gone.describe.id;
    var m1, m2 := map[id := gone], map[id := moved];
    assert m1[id := moved] == m2 && m2 - {id} == map[];
    SameIsNoDowngrade(d, gone.describe.version);
    OneLoadable(d, gone);
    OneLoadable(d, moved);
    StartIsQuiet(d);
    hide IsPaced, IsRun, AllParse, KeyedById, HasVanished, IsDowngrade, Parses;
    var first := RunCompletes(d, [START], Reload(gone), m1, Installed(id));
    seen := |first| - 1;
    run := RunCompletes(d, first, Reload(moved), m2, Updated(id, gone.describe.version));
    NothingLoadable(d);
    run := RunCompletes(d, run, Evict(id), map[], Removed(id));
    PacedIsRun(d, run, -1);
  }

  lemma NothingLoadable(d: Dialect)
    ensures KeyedById(map[]) && AllParse(d, map[])
  {
  }

  lemma SameIsNoDowngrade(d: Dialect, version: string)
    ensures !IsDowngrade(d, version, version)
  {
    if d.parseVersion(version).Some? {
      CompareIsTotalOrder(d.parseVersion(version).value, d.parseVersion(version).value);
    }
  }
}
