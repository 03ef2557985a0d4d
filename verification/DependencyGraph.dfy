/** The graph cycle detection walks: an extension depends on every extension
    that offers something matching one of its requirements. */
module DependencyGraph {
  import opened Semver
  import opened Capability

  type Listing = seq<(ExtensionId, seq<CapabilityRef>)>

  datatype Graph = Graph(
    dialect: Dialect,
    table: Offerings,
    requirements: map<ExtensionId, seq<CapabilityRef>>)

  /** One of the listed `a`'s requirements parses and is matched by an offering of
      `b`. An unlisted `a` and an unparseable requirement have no edges. */
  ghost predicate Edge(g: Graph, a: ExtensionId, b: ExtensionId) {
    && a in g.requirements
    && exists req, o ::
         && req in g.requirements[a] && o in OffersOf(g.table, req.id)
         && Satisfies(g.dialect, req, o) && o.extensionId == b
  }

  type Walk = seq<ExtensionId>

  ghost predicate IsWalk(g: Graph, w: Walk) {
    && |w| > 0
    && forall i :: 0 <= i < |w| - 1 ==> Edge(g, w[i], w[i + 1])
  }

  /** `w` ends on an extension it has already passed, or on one of `path`. */
  ghost predicate Closes(g: Graph, path: set<ExtensionId>, w: Walk) {
    && IsWalk(g, w)
    && (w[|w| - 1] in path || w[|w| - 1] in w[..|w| - 1])
  }

  ghost predicate CanClose(g: Graph, path: set<ExtensionId>, from: ExtensionId) {
    exists w :: Closes(g, path, w) && w[0] == from
  }

  ghost predicate Reaches(g: Graph, from: ExtensionId, to: ExtensionId) {
    exists w :: IsWalk(g, w) && w[0] == from && w[|w| - 1] == to
  }

  ghost predicate OnCycle(g: Graph, e: ExtensionId) {
    exists w :: IsWalk(g, w) && |w| > 1 && w[0] == e && w[|w| - 1] == e
  }

  /** The contract of cycle detection: reaches a cycle, not is on one. */
  ghost predicate ReachesCycle(g: Graph, e: ExtensionId) {
    exists c :: Reaches(g, e, c) && OnCycle(g, c)
  }

  lemma WalkStep(g: Graph, e: ExtensionId, w: Walk)
    requires IsWalk(g, w) && Edge(g, e, w[0])
    ensures IsWalk(g, [e] + w)
  {
    hide Edge;
    var v := [e] + w;
    forall i | 0 <= i < |v| - 1
      ensures Edge(g, v[i], v[i + 1])
    {
      if i > 0 {
        assert Edge(g, w[i - 1], w[i - 1 + 1]);
      }
    }
  }

  lemma WalkSlice(g: Graph, w: Walk, i: nat, j: nat)
    requires IsWalk(g, w) && i < j <= |w|
    ensures IsWalk(g, w[i..j])
  {
    hide Edge;
    forall k | 0 <= k < j - i - 1
      ensures Edge(g, w[i..j][k], w[i..j][k + 1])
    {
      assert Edge(g, w[i + k], w[i + k + 1]);
    }
  }

  lemma WalkJoin(g: Graph, p: Walk, q: Walk)
    requires IsWalk(g, p) && IsWalk(g, q) && p[|p| - 1] == q[0]
    ensures IsWalk(g, p + q[1..])
  {
    hide Edge;
    var w := p + q[1..];
    forall i | 0 <= i < |w| - 1
      ensures Edge(g, w[i], w[i + 1])
    {
      if i >= |p| - 1 {
        var k := i - (|p| - 1);
        assert w[i] == q[k] && w[i + 1] == q[k + 1];
      }
    }
  }

  /** The recursion of the search: either the path is hit at once, or some
      dependency closes on the path extended by this extension. */
  lemma CanCloseUnfolds(g: Graph, path: set<ExtensionId>, e: ExtensionId)
    ensures CanClose(g, path, e) <==>
            e in path || exists d :: Edge(g, e, d) && CanClose(g, path + {e}, d)
  {
    hide Edge;
    if e in path {
      assert Closes(g, path, [e]);
    }
    if d :| Edge(g, e, d) && CanClose(g, path + {e}, d) {
      var w :| Closes(g, path + {e}, w) && w[0] == d;
      WalkStep(g, e, w);
      var v := [e] + w;
      assert v[0] == e && v[..|v| - 1] == [e] + w[..|w| - 1];
      assert Closes(g, path, v);
    }
    if CanClose(g, path, e) && e !in path {
      var w :| Closes(g, path, w) && w[0] == e;
      WalkSlice(g, w, 1, |w|);
      var v := w[1..];
      assert v == w[1..|w|];
      assert w[..|w| - 1] == [e] + v[..|v| - 1];
      assert Edge(g, w[0], w[0 + 1]);
      assert Closes(g, path + {e}, v);
    }
  }

  lemma ClosingReachesCycle(g: Graph, e: ExtensionId)
    requires CanClose(g, {}, e)
    ensures ReachesCycle(g, e)
  {
    hide Edge;
    var w :| Closes(g, {}, w) && w[0] == e;
    var last := |w| - 1;
    var i :| 0 <= i < last && w[i] == w[last];
    WalkSlice(g, w, 0, i + 1);
    WalkSlice(g, w, i, last + 1);
    var approach, cycle := w[0..i + 1], w[i..last + 1];
    assert approach[0] == e && approach[|approach| - 1] == w[i];
    assert Reaches(g, e, w[i]);
    assert cycle[0] == w[i] && cycle[|cycle| - 1] == w[i];
    assert OnCycle(g, w[i]);
  }

  lemma ReachedCycleCloses(g: Graph, e: ExtensionId)
    requires ReachesCycle(g, e)
    ensures CanClose(g, {}, e)
  {
    hide Edge;
    var c :| Reaches(g, e, c) && OnCycle(g, c);
    var p :| IsWalk(g, p) && p[0] == e && p[|p| - 1] == c;
    var q :| IsWalk(g, q) && |q| > 1 && q[0] == c && q[|q| - 1] == c;
    WalkJoin(g, p, q);
    var w := p + q[1..];
    assert w[|w| - 1] == c && w[..|w| - 1][|p| - 1] == c;
    assert Closes(g, {}, w) && w[0] == e;
  }

  /** Starting from an empty path, closing a walk is reaching a cycle. */
  lemma CanCloseIsReachesCycle(g: Graph, e: ExtensionId)
    ensures CanClose(g, {}, e) <==> ReachesCycle(g, e)
  {
    hide CanClose, ReachesCycle;
    if CanClose(g, {}, e) {
      ClosingReachesCycle(g, e);
    }
    if ReachesCycle(g, e) {
      ReachedCycleCloses(g, e);
    }
  }

  /** What an extension that reaches no cycle depends on reaches none either. */
  lemma AcyclicIsClosedUnderDependency(g: Graph, a: ExtensionId, b: ExtensionId)
    requires Edge(g, a, b)
    ensures !ReachesCycle(g, a) ==> !ReachesCycle(g, b)
  {
    hide Edge;
    if ReachesCycle(g, b) {
      var c :| Reaches(g, b, c) && OnCycle(g, c);
      var w :| IsWalk(g, w) && w[0] == b && w[|w| - 1] == c;
      WalkStep(g, a, w);
      var v := [a] + w;
      assert v[0] == a && v[|v| - 1] == c;
      assert Reaches(g, a, c);
    }
  }

  /** A walk that never repeats an extension is no longer than the listing, plus
      one for an unlisted extension at its end. */
  lemma WalksAreBounded(g: Graph, w: Walk)
    requires IsWalk(g, w) && !ReachesCycle(g, w[0])
    ensures |w| <= |g.requirements| + 1
  {
    hide ReachesCycle;
    if |w| > |g.requirements| + 1 {
      var body := w[..|w| - 1];
      forall i | 0 <= i < |body|
        ensures body[i] in g.requirements.Keys
      {
        assert Edge(g, w[i], w[i + 1]);
      }
      var i, j := Pigeonhole(body, g.requirements.Keys);
      WalkSlice(g, w, 0, j + 1);
      var v := w[0..j + 1];
      assert v[|v| - 1] == v[..|v| - 1][i];
      assert Closes(g, {}, v) && v[0] == w[0];
      CanCloseIsReachesCycle(g, w[0]);
    }
  }

  lemma Pigeonhole<T>(s: seq<T>, holes: set<T>) returns (i: nat, j: nat)
    requires forall k :: 0 <= k < |s| ==> s[k] in holes
    requires |s| > |holes|
    ensures i < j < |s| && s[i] == s[j]
  {
    var last := |s| - 1;
    var front := s[..last];
    if k :| 0 <= k < last && s[k] == s[last] {
      i, j := k, last;
    } else {
      i, j := Pigeonhole(front, holes - {s[last]});
    }
  }

  ghost predicate HasWalk(g: Graph, e: ExtensionId, n: nat) {
    exists w :: IsWalk(g, w) && w[0] == e && |w| == n
  }

  /** The longest walk out of `e` that is no longer than `bound`. */
  ghost function LongestWalk(g: Graph, e: ExtensionId, bound: nat): (n: nat)
    ensures n <= bound
    ensures n > 0 ==> HasWalk(g, e, n)
    ensures forall k: nat :: n < k <= bound ==> !HasWalk(g, e, k)
  {
    if bound == 0 then 0
    else if HasWalk(g, e, bound) then bound
    else LongestWalk(g, e, bound - 1)
  }

  /** How deep the dependencies of `e` go. */
  ghost function Rank(g: Graph, e: ExtensionId): nat {
    LongestWalk(g, e, |g.requirements| + 1)
  }

  /** Every dependency of an extension that reaches no cycle ranks strictly below it. */
  lemma RankDecreases(g: Graph, a: ExtensionId, b: ExtensionId)
    requires !ReachesCycle(g, a) && Edge(g, a, b)
    ensures Rank(g, b) < Rank(g, a)
  {
    hide Edge, ReachesCycle;
    var n := Rank(g, b);
    var w := [b];
    if n > 0 {
      w :| IsWalk(g, w) && w[0] == b && |w| == n;
    }
    WalkStep(g, a, w);
    var v := [a] + w;
    assert v[0] == a && |v| == |w| + 1;
    WalksAreBounded(g, v);
    assert HasWalk(g, a, |v|);
  }

  /** `order` starts nothing before what it depends on. */
  ghost predicate RespectsDependencies(g: Graph, order: seq<ExtensionId>) {
    forall i, j :: 0 <= i < |order| && 0 <= j < |order| && Edge(g, order[i], order[j]) ==> j < i
  }

  lemma HighestRank(g: Graph, ids: set<ExtensionId>) returns (top: ExtensionId)
    requires ids != {}
    ensures top in ids && forall x :: x in ids ==> Rank(g, x) <= Rank(g, top)
  {
    hide LongestWalk;
    top :| top in ids;
    if ids != {top} {
      var next := HighestRank(g, ids - {top});
      if Rank(g, top) < Rank(g, next) {
        top := next;
      }
    }
  }

  /** Whatever reaches no cycle can be activated in dependency order. */
  lemma {:induction false} ActivationOrderExists(g: Graph, ids: set<ExtensionId>)
      returns (order: seq<ExtensionId>)
    requires forall x :: x in ids ==> !ReachesCycle(g, x)
    ensures forall x :: x in order <==> x in ids
    ensures forall i, j :: 0 <= i < j < |order| ==> order[i] != order[j]
    ensures RespectsDependencies(g, order)
  {
    hide Edge, ReachesCycle;
    if ids == {} {
      order := [];
    } else {
      var top := HighestRank(g, ids);
      var front := ActivationOrderExists(g, ids - {top});
      order := front + [top];
      forall i, j | 0 <= i < |order| && 0 <= j < |order| && Edge(g, order[i], order[j])
        ensures j < i
      {
        assert order[i] in ids && order[j] in ids;
        RankDecreases(g, order[i], order[j]);
      }
    }
  }
}
