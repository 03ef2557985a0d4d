/** When a loaded version is lower than it was: the downgrade gate compares with what
    is loaded at the moment, so it is blind once an edit has got past it. */
module VersionFalls {
  import opened Wrappers
  import opened Semver
  import opened Capability
  import opened Extensions
  import opened Publication
  import opened PublicationResults

  predicate LoadsId(edit: Edit, id: ExtensionId) {
    (edit.Register? || edit.Reload?) && edit.ext.describe.id == id
  }

  /** `edit` loads `id` over `m` with nothing to compare: by explicit registration, or
      where `id` is not loaded, or over a version that cannot be read. */
  predicate Ungated(d: Dialect, edit: Edit, m: LoadedMap, id: ExtensionId) {
    LoadsId(edit, id) && (edit.Register? || id !in m || !VersionReads(d, m, id))
  }

  ghost predicate UngatedAt(d: Dialect, commits: seq<Commit>, history: seq<LoadedMap>, k: int, id: ExtensionId)
    requires |history| == |commits| + 1
  {
    0 <= k < |commits| && Ungated(d, commits[k].job.edit, history[k], id)
  }

  ghost predicate LastUngated(
      d: Dialect, commits: seq<Commit>, history: seq<LoadedMap>, i: int, j: int, k: int, id: ExtensionId)
    requires |history| == |commits| + 1
  {
    && i <= k < j && UngatedAt(d, commits, history, k, id)
    && forall m :: k < m < j ==> !UngatedAt(d, commits, history, m, id)
  }

  /** Every release of `id` presented from commit `k` up to `j` is older than `mark`. */
  ghost predicate AllOlder(d: Dialect, commits: seq<Commit>, k: int, j: int, id: ExtensionId, mark: string) {
    forall m :: 0 <= m < |commits| && k <= m < j && LoadsId(commits[m].job.edit, id) ==>
      IsDowngrade(d, mark, commits[m].job.edit.ext.describe.version)
  }

  lemma BelowAfter(a: Version, b: Version, c: Version)
    requires AtMost(a, b) && Below(b, c)
    ensures Below(a, c)
  {
    hide Compare;
    CompareIsTotalOrder(a, c);
    CompareIsTotalOrder(b, c);
    if AtMost(c, a) {
      CompareTransitive(c, a, b);
    }
  }

  /** Past the gate a release replaces what was there, whatever it is. */
  lemma UngatedReplaces(d: Dialect, edit: Edit, m: LoadedMap, after: LoadedMap, out: Outcome, id: ExtensionId)
    requires Edits(d, edit, m, after, out) && Ungated(d, edit, m, id)
    ensures id in after && after[id] == edit.ext
  {
    hide Below;
  }

  /** A gated edit that leaves `id` loaded and readable found it so, did not lower it,
      and keeps it the newest of what was presented. */
  lemma GatedKeepsNewest(
      d: Dialect, edit: Edit, m: LoadedMap, after: LoadedMap, out: Outcome, id: ExtensionId, mark: string)
    requires Edits(d, edit, m, after, out) && !Ungated(d, edit, m, id)
    requires id in after && VersionReads(d, after, id) && d.parseVersion(mark).Some?
    ensures id in m && VersionReads(d, m, id)
    ensures AtMost(VersionIn(d, m, id), VersionIn(d, after, id))
    ensures IsDowngrade(d, mark, after[id].describe.version) <==>
            && IsDowngrade(d, mark, m[id].describe.version)
            && (LoadsId(edit, id) ==> IsDowngrade(d, mark, edit.ext.describe.version))
  {
    hide AtMost, Below;
    EditKeepsVersion(d, edit, m, after, out, id);
    var was, now, w := VersionIn(d, m, id), VersionIn(d, after, id), d.parseVersion(mark).value;
    if Below(now, w) {
      BelowAfter(was, now, w);
    }
    if LoadsId(edit, id) && out.Refused? && Below(was, w) {
      var offered := d.parseVersion(edit.ext.describe.version).value;
      CompareIsTotalOrder(offered, was);
      CompareIsTotalOrder(was, offered);
      BelowAfter(offered, was, w);
    }
  }

  /** With no ungated load from `k` up to `j`, what is loaded and readable at `j` was
      so all the way, and never went down. */
  lemma {:induction false} GatedAllTheWay(
      d: Dialect, commits: seq<Commit>, history: seq<LoadedMap>, k: nat, j: nat, id: ExtensionId)
    requires IsHistory(d, commits, history) && k <= j < |history|
    requires id in history[j] && VersionReads(d, history[j], id)
    requires forall m :: k <= m < j ==> !UngatedAt(d, commits, history, m, id)
    ensures id in history[k] && VersionReads(d, history[k], id)
    ensures AtMost(VersionIn(d, history[k], id), VersionIn(d, history[j], id))
    decreases j - k
  {
    hide AtMost, Below, Ungated, Edits;
    if k == j {
      CompareIsTotalOrder(VersionIn(d, history[j], id), VersionIn(d, history[j], id));
    } else {
      GatedAllTheWay(d, commits, history, k + 1, j, id);
      assert EditLinks(d, commits, history, k) && !UngatedAt(d, commits, history, k, id);
      GatedKeepsNewest(d, commits[k].job.edit, history[k], history[k + 1], commits[k].out, id,
                       history[j][id].describe.version);
      CompareTransitive(VersionIn(d, history[k], id), VersionIn(d, history[k + 1], id), VersionIn(d, history[j], id));
    }
  }

  /** After an ungated load, and as long as none follows, the loaded release is the
      newest of those presented since. */
  lemma {:induction false} NewestSince(
      d: Dialect, commits: seq<Commit>, history: seq<LoadedMap>, k: nat, j: nat, id: ExtensionId, mark: string)
    requires IsHistory(d, commits, history) && k < j < |history|
    requires id in history[j] && VersionReads(d, history[j], id) && d.parseVersion(mark).Some?
    requires LastUngated(d, commits, history, k, j, k, id)
    ensures IsDowngrade(d, mark, history[j][id].describe.version) <==> AllOlder(d, commits, k, j, id, mark)
    decreases j
  {
    hide Edits, VersionReads, IsDowngrade, AtMost;
    var n := j - 1;
    var edit := commits[n].job.edit;
    assert EditLinks(d, commits, history, n);
    if n == k {
      UngatedReplaces(d, edit, history[n], history[j], commits[n].out, id);
    } else {
      assert !UngatedAt(d, commits, history, n, id);
      hide Ungated;
      GatedKeepsNewest(d, edit, history[n], history[j], commits[n].out, id, mark);
      NewestSince(d, commits, history, k, n, id, mark);
      assert AllOlder(d, commits, k, j, id, mark) <==>
             && AllOlder(d, commits, k, n, id, mark)
             && (LoadsId(edit, id) ==> IsDowngrade(d, mark, edit.ext.describe.version));
    }
  }

  lemma {:induction false} SomeLastUngated(
      d: Dialect, commits: seq<Commit>, history: seq<LoadedMap>, i: nat, j: nat, id: ExtensionId) returns (k: int)
    requires |history| == |commits| + 1 && i <= j <= |commits|
    ensures if i <= k then LastUngated(d, commits, history, i, j, k, id)
            else forall m :: i <= m < j ==> !UngatedAt(d, commits, history, m, id)
    decreases j
  {
    hide UngatedAt;
    if i == j {
      k := -1;
    } else if UngatedAt(d, commits, history, j - 1, id) {
      k := j - 1;
    } else {
      k := SomeLastUngated(d, commits, history, i, j - 1, id);
    }
  }

  /** Between two points at which `id` is loaded with a readable version, whatever is
      evicted, registered or unreadable in between, the version has gone down exactly
      when some load got past the gate and all that was presented from the last such
      load on is older than the first point. */
  lemma VersionFallsExactlyWhen(
      d: Dialect, commits: seq<Commit>, history: seq<LoadedMap>, i: nat, j: nat, id: ExtensionId)
    requires IsHistory(d, commits, history) && i <= j < |history|
    requires id in history[i] && VersionReads(d, history[i], id)
    requires id in history[j] && VersionReads(d, history[j], id)
    ensures Below(VersionIn(d, history[j], id), VersionIn(d, history[i], id)) <==>
            exists k :: LastUngated(d, commits, history, i, j, k, id)
                        && AllOlder(d, commits, k, j, id, history[i][id].describe.version)
  {
    assert |history| == |commits| + 1;
    hide AllOlder, UngatedAt, Below, AtMost, IsHistory;
    var mark := history[i][id].describe.version;
    var k := SomeLastUngated(d, commits, history, i, j, id);
    if i <= k {
      NewestSince(d, commits, history, k, j, id, mark);
      assert forall n :: LastUngated(d, commits, history, i, j, n, id) ==> n == k;
    } else {
      GatedAllTheWay(d, commits, history, i, j, id);
      CompareIsTotalOrder(VersionIn(d, history[j], id), VersionIn(d, history[i], id));
    }
  }

  /** So in every run. */
  lemma RunVersionFallsExactlyWhen(d: Dialect, run: seq<State>, at: nat, i: nat, j: nat, id: ExtensionId)
    requires IsRun(d, run) && at < |run| && |run[at].history| == |run[at].commits| + 1
    requires i <= j < |run[at].history|
    requires id in run[at].history[i] && VersionReads(d, run[at].history[i], id)
    requires id in run[at].history[j] && VersionReads(d, run[at].history[j], id)
    ensures var s := run[at];
            Below(VersionIn(d, s.history[j], id), VersionIn(d, s.history[i], id)) <==>
            exists k :: LastUngated(d, s.commits, s.history, i, j, k, id)
                        && AllOlder(d, s.commits, k, j, id, s.history[i][id].describe.version)
  {
    ExclusionHolds(d, run, at);
    hide IsRun, IsHistory, VersionReads, VersionIn, Below, LastUngated, AllOlder;
    VersionFallsExactlyWhen(d, run[at].commits, run[at].history, i, j, id);
  }

  // ----- laundering -----

  ghost predicate LastUnreadable(d: Dialect, history: seq<LoadedMap>, i: int, j: int, k: int, id: ExtensionId) {
    && 0 <= i <= k < j < |history| && !VersionReads(d, history[k], id)
    && forall m :: k < m <= j ==> VersionReads(d, history[m], id)
  }

  lemma {:induction false} StaysLoaded(
      d: Dialect, commits: seq<Commit>, history: seq<LoadedMap>, i: nat, j: nat, id: ExtensionId)
    requires IsHistory(d, commits, history) && i <= j < |history| && id in history[i]
    requires forall m :: i <= m < j ==> LeavesAlone(commits[m], id)
    ensures id in history[j]
    decreases j
  {
    hide IsDowngrade;
    if i < j {
      StaysLoaded(d, commits, history, i, j - 1, id);
      assert EditLinks(d, commits, history, j - 1) && LeavesAlone(commits[j - 1], id);
    }
  }

  /** Nobody evicts or registers: then the last load past the gate is the one over the
      last unreadable version. */
  lemma UngatedIsOverUnreadable(
      d: Dialect, commits: seq<Commit>, history: seq<LoadedMap>, i: nat, j: nat, k: int, id: ExtensionId)
    requires IsHistory(d, commits, history) && i <= j < |history| && id in history[i]
    requires VersionReads(d, history[j], id)
    requires forall m :: i <= m < j ==> LeavesAlone(commits[m], id)
    ensures LastUngated(d, commits, history, i, j, k, id) <==> LastUnreadable(d, history, i, j, k, id)
  {
    assert |history| == |commits| + 1;
    hide IsHistory, VersionReads, Edits;
    forall m | i <= m <= j
      ensures id in history[m]
      ensures m < j ==> (UngatedAt(d, commits, history, m, id) ==> !VersionReads(d, history[m], id))
    {
      StaysLoaded(d, commits, history, i, m, id);
      assert m < j ==> LeavesAlone(commits[m], id);
    }
    if LastUngated(d, commits, history, i, j, k, id) {
      forall m | k < m <= j
        ensures VersionReads(d, history[m], id)
      {
        GatedAllTheWay(d, commits, history, m, j, id);
      }
    }
    if LastUnreadable(d, history, i, j, k, id) {
      LoadedOverUnreadable(d, commits, history, k, id);
    }
  }

  lemma LoadedOverUnreadable(d: Dialect, commits: seq<Commit>, history: seq<LoadedMap>, k: nat, id: ExtensionId)
    requires IsHistory(d, commits, history) && k < |commits|
    requires !VersionReads(d, history[k], id) && id in history[k + 1] && VersionReads(d, history[k + 1], id)
    ensures UngatedAt(d, commits, history, k, id)
  {
    hide IsDowngrade;
    assert EditLinks(d, commits, history, k);
  }

  /** Without evictions and registrations the version goes down exactly by laundering:
      it became unreadable, and every release presented over the last unreadable one
      and later is older than the one first loaded. */
  lemma LaunderedExactlyWhen(
      d: Dialect, commits: seq<Commit>, history: seq<LoadedMap>, i: nat, j: nat, id: ExtensionId)
    requires IsHistory(d, commits, history) && i <= j < |history|
    requires id in history[i] && VersionReads(d, history[i], id) && VersionReads(d, history[j], id)
    requires forall m :: i <= m < j ==> LeavesAlone(commits[m], id)
    ensures id in history[j]
    ensures Below(VersionIn(d, history[j], id), VersionIn(d, history[i], id)) <==>
            exists k :: LastUnreadable(d, history, i, j, k, id)
                        && AllOlder(d, commits, k, j, id, history[i][id].describe.version)
  {
    StaysLoaded(d, commits, history, i, j, id);
    hide AllOlder, LastUngated, LastUnreadable, IsHistory, VersionReads, Below, VersionIn;
    VersionFallsExactlyWhen(d, commits, history, i, j, id);
    forall k ensures LastUngated(d, commits, history, i, j, k, id) <==> LastUnreadable(d, history, i, j, k, id) {
      UngatedIsOverUnreadable(d, commits, history, i, j, k, id);
    }
  }
}
