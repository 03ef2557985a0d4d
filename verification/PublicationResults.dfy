/** What the publication protocol guarantees in every state of every run, and
    what its histories say about events and versions. */
module PublicationResults {
  import opened Wrappers
  import opened Semver
  import opened Capability
  import opened Extensions
  import opened Publication

  /** No edit is lost: the published map is the fold, in the order the lock was
      held, of the committed edits; and every call ever made is still running,
      or is committed exactly once, or could not be indexed. */
  lemma NoEditLost(d: Dialect, run: seq<State>, i: nat)
    requires IsRun(d, run) && i < |run|
    ensures var s := run[i];
            && IsHistory(d, s.commits, s.history) && s.loaded == s.history[|s.history| - 1]
            && Accounted(d, s) && TicketsOnce(s.commits, s.nextTicket)
  {
    RunKeeps(d, run, i);
    hide Accounted, TicketsOnce, IsHistory;
  }

  /** The two cells are only ever (old, old), (new, old) or (new, new): the index
      belongs to the published map, or to the one just before it, and the latter
      only while the mutator that holds the lock is between its two stores. */
  lemma CellsOnlyEverStepForward(d: Dialect, run: seq<State>, i: nat)
    requires IsRun(d, run) && i < |run|
    ensures var s := run[i];
            || Indexes(d, s.index, s.loaded)
            || (&& s.lock.Some? && s.lock.value in s.threads && s.threads[s.lock.value].MapStored?
                && |s.history| >= 2 && Indexes(d, s.index, s.history[|s.history| - 2]))
    ensures run[i].lock.None? ==> Indexes(d, run[i].index, run[i].loaded)
  {
    RunKeeps(d, run, i);
    hide Indexes, HistoryRecorded, CallsInStep, NothingForgotten, Accounted;
    var s := run[i];
    if !Indexes(d, s.index, s.loaded) {
      var t :| t in s.threads && s.threads[t].MapStored?;
      assert HolderInStep(d, s, s.threads[t]);
    }
  }

  /** An eviction is never given up. */
  lemma EvictionNeverFails(d: Dialect, run: seq<State>, i: nat, job: Job)
    requires IsRun(d, run) && i < |run|
    requires job.edit.Evict? || job.edit.RemoveAt?
    ensures job !in run[i].abandoned
    ensures forall t :: t in run[i].threads && run[i].threads[t].RebuildFailed? ==> run[i].threads[t].job != job
  {
    RunKeeps(d, run, i);
    hide HistoryRecorded, CallsInStep, NothingForgotten, CellsAgree, MutualExclusion;
    forall t | t in run[i].threads && run[i].threads[t].RebuildFailed?
      ensures run[i].threads[t].job != job
    {
      assert HolderInStep(d, run[i], run[i].threads[t]);
    }
  }

  lemma {:induction false} HistoryOnlyGrows(d: Dialect, run: seq<State>, i: nat, j: nat)
    requires IsRun(d, run) && i <= j < |run|
    ensures run[i].history <= run[j].history
  {
    hide Init, Edits, Indexes, AllParse;
    if i < j {
      HistoryOnlyGrows(d, run, i, j - 1);
      assert Next(d, run[j - 1], run[j - 1 + 1]);
    }
  }

  /** A reader takes no lock. If it loads the index first and the map later, the
      index it holds is of the map it holds or of an earlier one: everything it
      was told is offered was declared by a map at least as old. */
  lemma IndexReadFirstIsNeverNewer(d: Dialect, run: seq<State>, i: nat, j: nat) returns (k: nat)
    requires IsRun(d, run) && i <= j < |run|
    ensures k < |run[j].history| && Indexes(d, run[i].index, run[j].history[k])
    ensures run[j].loaded == run[j].history[|run[j].history| - 1]
  {
    CellsOnlyEverStepForward(d, run, i);
    NoEditLost(d, run, i);
    NoEditLost(d, run, j);
    HistoryOnlyGrows(d, run, i, j);
    hide Indexes, IsHistory, Accounted, TicketsOnce, IsRun;
    k := |run[i].history| - 1;
    if !Indexes(d, run[i].index, run[i].loaded) {
      k := k - 1;
    }
  }

  /** Read the other way round, the index is of the map the reader holds, of a later
      one, or of the one just before it. */
  lemma MapReadFirstIsAtMostOneNewer(d: Dialect, run: seq<State>, i: nat, j: nat) returns (k: nat)
    requires IsRun(d, run) && i <= j < |run|
    ensures 0 < |run[i].history| <= |run[j].history|
    ensures run[i].loaded == run[j].history[|run[i].history| - 1]
    ensures |run[i].history| - 2 <= k < |run[j].history| && Indexes(d, run[j].index, run[j].history[k])
  {
    CellsOnlyEverStepForward(d, run, j);
    NoEditLost(d, run, i);
    NoEditLost(d, run, j);
    HistoryOnlyGrows(d, run, i, j);
    hide Indexes, IsHistory, Accounted, TicketsOnce, IsRun;
    k := |run[j].history| - 1;
    if !Indexes(d, run[j].index, run[j].loaded) {
      k := k - 1;
    }
  }

  // ----- events -----

  function EventsOf(log: seq<Commit>): seq<RuntimeEvent> {
    if log == [] then [] else EventsOf(log[..|log| - 1]) + Announced(log[|log| - 1].out)
  }

  /** A subscriber told of the commits in lock order sees exactly the loaded ids. */
  lemma {:induction false} ReplayInLockOrder(d: Dialect, commits: seq<Commit>, history: seq<LoadedMap>, n: nat)
    requires IsHistory(d, commits, history) && n <= |commits|
    ensures Replay(EventsOf(commits[..n])) == history[n].Keys
  {
    hide Edits;
    if n > 0 {
      ReplayInLockOrder(d, commits, history, n - 1);
      assert commits[..n][..n - 1] == commits[..n - 1];
      assert EditLinks(d, commits, history, n - 1);
      AnnouncedKeepsReplay(d, commits[n - 1].job.edit, history[n - 1], history[n], commits[n - 1].out,
                           EventsOf(commits[..n - 1]));
    }
  }

  predicate About(out: Outcome, id: ExtensionId) {
    && (out.Installed? || out.Updated? || out.Removed?)
    && out.id == id
  }

  /** The last thing `log` says about `id` is that it is there. */
  predicate LastSaysLoaded(log: seq<Commit>, id: ExtensionId) {
    if log == [] then false
    else
      var out := log[|log| - 1].out;
      if About(out, id) then !out.Removed? else LastSaysLoaded(log[..|log| - 1], id)
  }

  lemma ReplayAnnounced(events: seq<RuntimeEvent>, out: Outcome, id: ExtensionId)
    ensures id in Replay(events + Announced(out)) <==>
            if About(out, id) then !out.Removed? else id in Replay(events)
  {
    var last := Announced(out);
    if last == [] {
      assert events + last == events;
    } else {
      assert (events + last)[..|events + last| - 1] == events;
    }
  }

  lemma {:induction false} ReplayIsLastWord(log: seq<Commit>, id: ExtensionId)
    ensures id in Replay(EventsOf(log)) <==> LastSaysLoaded(log, id)
  {
    hide About;
    if log != [] {
      var n := |log| - 1;
      ReplayIsLastWord(log[..n], id);
      ReplayAnnounced(EventsOf(log[..n]), log[n].out, id);
    }
  }

  predicate AgreeOn(log: seq<Commit>, other: seq<Commit>, id: ExtensionId) {
    LastSaysLoaded(log, id) <==> LastSaysLoaded(other, id)
  }

  lemma SameLastWords(log: seq<Commit>, other: seq<Commit>)
    ensures Replay(EventsOf(log)) == Replay(EventsOf(other)) <==>
            forall id :: AgreeOn(log, other, id)
  {
    var a, b := Replay(EventsOf(log)), Replay(EventsOf(other));
    forall id: ExtensionId
      ensures AgreeOn(log, other, id) <==> (id in a <==> id in b)
    {
      ReplayIsLastWord(log, id);
      ReplayIsLastWord(other, id);
    }
    hide AgreeOn;
    if forall id :: AgreeOn(log, other, id) {
      forall id: ExtensionId
        ensures id in a <==> id in b
      {
        assert AgreeOn(log, other, id);
      }
    }
  }

  /** In whatever order events were sent, a subscriber's picture is right exactly
      when, for every id, the last announcement and the last commit about it agree. */
  lemma ReplayRightByLastWords(d: Dialect, run: seq<State>, i: nat)
    requires IsRun(d, run) && i < |run|
    ensures Replay(EventsOf(run[i].announced)) == run[i].loaded.Keys <==>
            forall id :: AgreeOn(run[i].announced, run[i].commits, id)
  {
    hide AgreeOn, IsRun, Indexes, EditLinks;
    var s := run[i];
    NoEditLost(d, run, i);
    ReplayInLockOrder(d, s.commits, s.history, |s.commits|);
    assert s.commits[..|s.commits|] == s.commits;
    SameLastWords(s.announced, s.commits);
  }

  /** Once nothing is under way, every commit has been announced, once. */
  lemma QuietMeansAllAnnounced(d: Dialect, run: seq<State>, i: nat)
    requires IsRun(d, run) && i < |run| && run[i].threads == map[]
    ensures forall c :: c in run[i].commits <==> c in run[i].announced
    ensures TicketsOnce(run[i].announced, run[i].nextTicket)
  {
    RunKeeps(d, run, i);
    hide HistoryRecorded, HoldersInStep, CellsAgree, MutualExclusion, Accounted;
  }

  function Last(run: seq<State>): State
    requires |run| > 0
  {
    run[|run| - 1]
  }

  // ----- which schedules keep a subscriber right -----

  /** The edit of `t` is published, and the event it will send is not yet sent. */
  predicate Owes(s: State, t: Thread) {
    t in s.threads && !s.threads[t].Unpublished() && Announced(s.threads[t].out) != []
  }

  ghost predicate EventOwed(s: State) {
    exists t: Thread :: Owes(s, t)
  }

  /** A step that does not take the lock while an event is still to be sent. */
  ghost predicate PacedStep(d: Dialect, s: State, s': State) {
    exists t, step :: Takes(d, s, t, step, s') && (step.Acquire? ==> !EventOwed(s))
  }

  /** A run all of whose steps are paced, except perhaps the one out of state `but`;
      a negative `but` excepts none. */
  ghost predicate IsPaced(d: Dialect, run: seq<State>, but: int) {
    && IsRun(d, run)
    && forall i :: 0 <= i < |run| - 1 && i != but ==> PacedStep(d, run[i], run[i + 1])
  }

  /** At most one event is owed, by the lock holder if there is one, and it is all
      that the events sent are short of the events of the commits. */
  ghost predicate InPace(s: State) {
    && (forall t: Thread :: Owes(s, t) && s.lock.Some? ==> s.lock == Some(t))
    && (forall t: Thread, u: Thread :: Owes(s, t) && Owes(s, u) ==> t == u)
    && (forall t: Thread :: Owes(s, t) ==> EventsOf(s.commits) == EventsOf(s.announced) + Announced(s.threads[t].out))
    && (!EventOwed(s) ==> EventsOf(s.commits) == EventsOf(s.announced))
  }

  lemma EventsOfOneMore(log: seq<Commit>, c: Commit)
    ensures EventsOf(log + [c]) == EventsOf(log) + Announced(c.out)
  {
    assert (log + [c])[..|log|] == log;
  }

  /** Any step but a store of the map and an announcement leaves every debt alone. */
  lemma DebtsKept(d: Dialect, s: State, t: Thread, step: Step, s': State, u: Thread)
    requires Takes(d, s, t, step, s') && !step.StoreMap? && (step.Announce? ==> u != t)
    ensures Owes(s', u) <==> Owes(s, u)
    ensures Owes(s, u) ==> s'.threads[u].out == s.threads[u].out
  {
    hide Edits, Indexes, AllParse, Announced;
  }

  lemma StoreKeepsPace(d: Dialect, s: State, t: Thread, s': State)
    requires MutualExclusion(s) && InPace(s) && Takes(d, s, t, StoreMap, s')
    ensures InPace(s')
  {
    hide EventsOf, Announced;
    var c := Commit(s.threads[t].job, s.threads[t].out);
    assert s.lock == Some(t) && !EventOwed(s);
    EventsOfOneMore(s.commits, c);
    assert EventsOf(s.announced) + [] == EventsOf(s.announced);
    forall u: Thread | u != t
      ensures !Owes(s', u)
    {
      assert Owes(s', u) ==> Owes(s, u);
    }
    assert Owes(s', t) <==> Announced(c.out) != [];
  }

  lemma AnnounceSettles(d: Dialect, s: State, t: Thread, s': State)
    requires Takes(d, s, t, Announce, s')
    ensures t in s.threads && s.threads[t].Announcing? && s'.lock == s.lock && s'.commits == s.commits
    ensures s'.announced == s.announced + [Commit(s.threads[t].job, s.threads[t].out)]
    ensures forall u: Thread :: Owes(s', u) <==> u != t && Owes(s, u)
    ensures forall u: Thread :: Owes(s', u) ==> s'.threads[u] == s.threads[u]
  {
    hide Announced;
  }

  lemma AnnounceKeepsPace(d: Dialect, s: State, t: Thread, s': State)
    requires InPace(s) && Takes(d, s, t, Announce, s')
    ensures InPace(s')
  {
    hide Takes, EventsOf, Announced;
    AnnounceSettles(d, s, t, s');
    var out := s.threads[t].out;
    EventsOfOneMore(s.announced, Commit(s.threads[t].job, out));
    assert EventsOf(s.announced) + [] == EventsOf(s.announced);
    assert Owes(s, t) <==> Announced(out) != [];
    hide Owes;
    assert forall u: Thread :: u != t && Owes(s, u) ==> !Owes(s, t);
  }

  lemma PaceKept(d: Dialect, s: State, t: Thread, step: Step, s': State)
    requires MutualExclusion(s) && InPace(s) && Takes(d, s, t, step, s')
    requires step.Acquire? ==> !EventOwed(s)
    ensures InPace(s')
  {
    if step.StoreMap? {
      hide InPace, MutualExclusion;
      StoreKeepsPace(d, s, t, s');
    } else if step.Announce? {
      hide InPace;
      AnnounceKeepsPace(d, s, t, s');
    } else {
      forall u: Thread
        ensures Owes(s', u) <==> Owes(s, u)
        ensures Owes(s, u) ==> s'.threads[u].out == s.threads[u].out
      {
        DebtsKept(d, s, t, step, s', u);
      }
      OtherStepsKeepTheLogs(d, s, t, step, s');
      hide Takes, Announced, EventsOf, Owes, MutualExclusion;
    }
  }

  lemma OtherStepsKeepTheLogs(d: Dialect, s: State, t: Thread, step: Step, s': State)
    requires Takes(d, s, t, step, s') && !step.StoreMap? && !step.Announce?
    ensures s'.commits == s.commits && s'.announced == s.announced
    ensures s'.lock == s.lock || s'.lock.None? || step.Acquire?
  {
    hide Edits, Indexes, AllParse;
  }

  lemma {:induction false} PacedRunKeepsPace(d: Dialect, run: seq<State>, but: int, i: nat)
    requires IsPaced(d, run, but) && i < |run| && (but < 0 || i <= but)
    ensures InPace(run[i])
  {
    hide InPace, Takes, IsRun;
    if i == 0 {
      NothingInitially(d, run);
    } else {
      PacedRunKeepsPace(d, run, but, i - 1);
      ExclusionHolds(d, run, i - 1);
      assert PacedStep(d, run[i - 1], run[i - 1 + 1]);
      var t, step :| Takes(d, run[i - 1], t, step, run[i]) && (step.Acquire? ==> !EventOwed(run[i - 1]));
      PaceKept(d, run[i - 1], t, step, run[i]);
    }
  }

  lemma NothingInitially(d: Dialect, run: seq<State>)
    requires IsRun(d, run)
    ensures InPace(run[0])
  {
  }

  lemma ExclusionHolds(d: Dialect, run: seq<State>, i: nat)
    requires IsRun(d, run) && i < |run|
    ensures MutualExclusion(run[i]) && HistoryRecorded(d, run[i])
  {
    RunKeeps(d, run, i);
    hide MutualExclusion, HistoryRecorded, IsRun;
  }

  /** A subscriber is right whenever no event is owed, and has been told every event
      in lock order, as long as the lock is only ever taken when no event is owed. */
  lemma PacedReplayIsRight(d: Dialect, run: seq<State>, i: nat)
    requires IsPaced(d, run, -1) && i < |run| && !EventOwed(run[i])
    ensures EventsOf(run[i].announced) == EventsOf(run[i].commits)
    ensures Replay(EventsOf(run[i].announced)) == run[i].loaded.Keys
  {
    PacedRunKeepsPace(d, run, -1, i);
    hide EventsOf, Replay;
    CommitsReplayRight(d, run, i);
  }

  lemma CommitsReplayRight(d: Dialect, run: seq<State>, i: nat)
    requires IsRun(d, run) && i < |run|
    ensures Replay(EventsOf(run[i].commits)) == run[i].loaded.Keys
  {
    ExclusionHolds(d, run, i);
    hide EventsOf, Replay, EditLinks;
    var s := run[i];
    ReplayInLockOrder(d, s.commits, s.history, |s.commits|);
    assert s.commits[..|s.commits|] == s.commits;
  }

  /** `longer` goes on from `run`, paced but for its second step, and comes to owe no
      event with a subscriber that is wrong. */
  ghost predicate Misleads(d: Dialect, run: seq<State>, longer: seq<State>) {
    && |run| > 0 && run <= longer && IsPaced(d, longer, |run|)
    && !EventOwed(Last(longer))
    && Replay(EventsOf(Last(longer).announced)) != Last(longer).loaded.Keys
  }

  /** The pace is exactly what is needed. Whenever the lock is free, one call that is
      let in too early, and nothing else out of pace, can leave a subscriber wrong for
      good if an event is owed, and cannot if none is. */
  lemma TakingTheLockIsSafeExactlyWhen(d: Dialect, run: seq<State>)
    requires IsPaced(d, run, -1) && Last(run).lock.None?
    ensures (exists longer :: Misleads(d, run, longer)) <==> EventOwed(Last(run))
  {
    var s := Last(run);
    hide IsPaced, EventOwed;
    if longer :| Misleads(d, run, longer) {
      NothingOwedMisleadsNobody(d, run, longer);
    }
    if EventOwed(s) {
      var t := Debtor(s);
      var longer := OvertakingMisleads(d, run, t);
      assert Misleads(d, run, longer);
    }
  }

  lemma Debtor(s: State) returns (t: Thread)
    requires EventOwed(s)
    ensures Owes(s, t)
  {
    t :| Owes(s, t);
  }

  lemma NothingOwedMisleadsNobody(d: Dialect, run: seq<State>, longer: seq<State>)
    requires IsPaced(d, run, -1) && Last(run).lock.None?
    requires Misleads(d, run, longer)
    ensures EventOwed(Last(run))
  {
    hide Takes, Replay, EventsOf, IsRun, EventOwed;
    var n := |run|;
    assert longer[n - 1] == Last(run);
    if !EventOwed(Last(run)) && |longer| > n + 1 {
      assert PacedStep(d, longer[n - 1], longer[n - 1 + 1]);
      ExclusionHolds(d, longer, n - 1);
      StillNothingOwed(d, longer[n - 1], longer[n]);
      NextOfRun(d, longer, n);
    }
    if !EventOwed(Last(run)) {
      assert IsPaced(d, longer, -1);
      PacedReplayIsRight(d, longer, |longer| - 1);
    }
  }

  lemma NextOfRun(d: Dialect, run: seq<State>, i: nat)
    requires IsRun(d, run) && i < |run| - 1 && !EventOwed(run[i])
    ensures PacedStep(d, run[i], run[i + 1])
  {
    hide Takes, EventOwed, Init;
    assert Next(d, run[i], run[i + 1]);
    var t, step :| Takes(d, run[i], t, step, run[i + 1]);
  }

  /** With the lock free, a step publishes nothing, so it comes to owe no event. */
  lemma StillNothingOwed(d: Dialect, s: State, s': State)
    requires MutualExclusion(s) && s.lock.None? && PacedStep(d, s, s')
    ensures EventOwed(s') ==> EventOwed(s)
  {
    hide Edits, Indexes, AllParse;
    var t, step :| Takes(d, s, t, step, s') && (step.Acquire? ==> !EventOwed(s));
    if u :| Owes(s', u) {
      assert Owes(s, u);
    }
  }

  lemma RunExtends(d: Dialect, run: seq<State>, but: int, t: Thread, step: Step, s': State)
      returns (longer: seq<State>)
    requires IsPaced(d, run, but) && Takes(d, Last(run), t, step, s')
    requires step.Acquire? && but != |run| - 1 ==> !EventOwed(Last(run))
    ensures longer == run + [s'] && IsPaced(d, longer, but)
  {
    hide Takes, Init, EventOwed;
    longer := run + [s'];
    forall i | 0 <= i < |longer| - 1
      ensures Next(d, longer[i], longer[i + 1])
      ensures i != but ==> PacedStep(d, longer[i], longer[i + 1])
    {
      if i < |run| - 1 {
        assert Next(d, run[i], run[i + 1]);
        assert i != but ==> PacedStep(d, run[i], run[i + 1]);
      }
    }
  }

  /** A call comes in and takes the lock. */
  lemma RunAcquires(d: Dialect, run: seq<State>, but: int, t: Thread, edit: Edit) returns (longer: seq<State>)
    requires IsPaced(d, run, but) && Last(run).lock == None && t !in Last(run).threads
    requires but == |run| || !EventOwed(Last(run))
    ensures run <= longer && IsPaced(d, longer, but)
    ensures var s := Last(run);
            Last(longer) == s.(lock := Some(t), nextTicket := s.nextTicket + 1,
                               threads := s.threads[t := Locked(Job(s.nextTicket, edit))])
  {
    var s, job := Last(run), Job(Last(run).nextTicket, edit);
    hide IsPaced, EventOwed;
    var called := s.(threads := s.threads[t := Waiting(job)], nextTicket := s.nextTicket + 1);
    longer := RunExtends(d, run, but, t, Call(edit), called);
    CallOwesNothing(s, t, called);
    var locked := called.(lock := Some(t), threads := s.threads[t := Locked(job)]);
    longer := RunExtends(d, longer, but, t, Acquire, locked);
  }

  /** Under the lock: copy, edit, rebuild. */
  lemma RunRebuilds(d: Dialect, run: seq<State>, but: int, t: Thread,
                    after: LoadedMap, out: Outcome, index: Offerings)
      returns (longer: seq<State>)
    requires IsPaced(d, run, but) && t in Last(run).threads && Last(run).threads[t].Locked?
    requires Edits(d, Last(run).threads[t].job.edit, Last(run).loaded, after, out) && Indexes(d, index, after)
    ensures run <= longer && IsPaced(d, longer, but)
    ensures var s := Last(run);
            Last(longer) == s.(threads := s.threads[t := Rebuilt(s.threads[t].job, after, out, index)])
  {
    var s, job := Last(run), Last(run).threads[t].job;
    hide Edits, Indexes, IsPaced, EventOwed;
    var copied := s.(threads := s.threads[t := Copied(job, s.loaded)]);
    longer := RunExtends(d, run, but, t, Copy, copied);
    var edited := s.(threads := s.threads[t := Edited(job, after, out)]);
    longer := RunExtends(d, longer, but, t, Apply(after, out), edited);
    var rebuilt := s.(threads := s.threads[t := Rebuilt(job, after, out, index)]);
    longer := RunExtends(d, longer, but, t, Rebuild(index), rebuilt);
  }

  /** Both stores, and the lock is free again. */
  lemma RunStores(d: Dialect, run: seq<State>, but: int, t: Thread) returns (longer: seq<State>)
    requires IsPaced(d, run, but) && t in Last(run).threads && Last(run).threads[t].Rebuilt?
    ensures run <= longer && IsPaced(d, longer, but)
    ensures var s, p := Last(run), Last(run).threads[t];
            Last(longer) == s.(loaded := p.copy, index := p.index, lock := None,
                               threads := s.threads[t := Announcing(p.job, p.out)],
                               commits := s.commits + [Commit(p.job, p.out)], history := s.history + [p.copy])
  {
    var s, p := Last(run), Last(run).threads[t];
    hide Edits, Indexes, IsPaced, EventOwed;
    var stored := s.(
      loaded := p.copy, threads := s.threads[t := MapStored(p.job, p.out, p.index)],
      commits := s.commits + [Commit(p.job, p.out)], history := s.history + [p.copy]);
    longer := RunExtends(d, run, but, t, StoreMap, stored);
    var indexed := stored.(index := p.index, threads := s.threads[t := IndexStored(p.job, p.out)]);
    longer := RunExtends(d, longer, but, t, StoreIndex, indexed);
    var released := indexed.(lock := None, threads := s.threads[t := Announcing(p.job, p.out)]);
    longer := RunExtends(d, longer, but, t, Release, released);
  }

  lemma CallOwesNothing(s: State, t: Thread, called: State)
    requires t !in s.threads && t in called.threads && called.threads[t].Waiting?
    requires called.threads == s.threads[t := called.threads[t]]
    ensures EventOwed(called) ==> EventOwed(s)
  {
    if u :| Owes(called, u) {
      assert Owes(s, u);
    }
  }

  /** One mutator call, from a free lock to just before its event goes out. */
  lemma RunMutates(d: Dialect, run: seq<State>, but: int, t: Thread, edit: Edit,
                   after: LoadedMap, out: Outcome, index: Offerings)
      returns (longer: seq<State>)
    requires IsPaced(d, run, but) && Last(run).lock == None && t !in Last(run).threads
    requires but == |run| || !EventOwed(Last(run))
    requires Edits(d, edit, Last(run).loaded, after, out) && Indexes(d, index, after)
    ensures run <= longer && IsPaced(d, longer, but)
    ensures var s, job := Last(run), Job(Last(run).nextTicket, edit);
            Last(longer) == State(
              after, index, None, s.threads[t := Announcing(job, out)], s.nextTicket + 1,
              s.commits + [Commit(job, out)], s.history + [after], s.announced, s.abandoned)
  {
    var s := Last(run);
    hide Edits, Indexes, IsPaced, EventOwed;
    longer := RunAcquires(d, run, but, t, edit);
    longer := RunRebuilds(d, longer, but, t, after, out, index);
    longer := RunStores(d, longer, but, t);
  }

  /** A whole call with no other thread about: the last state is again quiet. */
  lemma RunCompletes(d: Dialect, run: seq<State>, edit: Edit, after: LoadedMap, out: Outcome)
      returns (longer: seq<State>)
    requires IsPaced(d, run, -1) && Last(run).lock == None && Last(run).threads == map[]
    requires Edits(d, edit, Last(run).loaded, after, out) && KeyedById(after) && AllParse(d, after)
    ensures run <= longer && IsPaced(d, longer, -1) && Last(longer).lock == None && Last(longer).threads == map[]
    ensures Last(longer).loaded == after && Last(longer).history == Last(run).history + [after]
    ensures Last(longer).nextTicket == Last(run).nextTicket + 1
    ensures Last(longer).commits == Last(run).commits + [Commit(Job(Last(run).nextTicket, edit), out)]
  {
    var index := IndexExists(d, after);
    hide Edits, Indexes, IsPaced, AllParse, KeyedById;
    longer := RunMutates(d, run, -1, 0, edit, after, out, index);
    var s := Last(longer);
    var told := s.(threads := s.threads - {0}, announced := s.announced + [Commit(s.threads[0].job, out)]);
    longer := RunExtends(d, longer, -1, 0, Announce, told);
    assert told.threads == map[];
  }

  lemma UnusedThread(threads: set<Thread>) returns (t: Thread)
    ensures forall u :: u in threads ==> u < t
  {
    if threads == {} {
      t := 0;
    } else {
      var u :| u in threads;
      var rest := UnusedThread(threads - {u});
      t := if rest <= u then u + 1 else rest;
      forall v | v in threads ensures v < t {
        assert v == u || v in threads - {u};
      }
    }
  }

  /** An edit that contradicts the event a thread still owes. */
  lemma ContradictingEdit(d: Dialect, m: LoadedMap, out: Outcome)
      returns (edit: Edit, after: LoadedMap, contrary: Outcome)
    requires KeyedById(m) && AllParse(d, m) && Announced(out) != []
    requires out.id in m <==> !out.Removed?
    ensures Edits(d, edit, m, after, contrary) && KeyedById(after) && AllParse(d, after)
    ensures About(contrary, out.id) && (out.id in after <==> out.Removed?)
  {
    var id := out.id;
    if out.Removed? {
      var ext := LoadedExtension(Describe(id, "", "", [], None, None, []), [], []);
      edit, after, contrary := Reload(ext), m[id := ext], Installed(id);
    } else {
      edit, after, contrary := Evict(id), m - {id}, Removed(id);
    }
  }

  /** A thread that still owes an event is overtaken by a call that takes the lock,
      publishes the contrary and announces it first. */
  lemma OvertakingMisleads(d: Dialect, run: seq<State>, t: Thread) returns (longer: seq<State>)
    requires IsPaced(d, run, -1) && Last(run).lock.None? && Owes(Last(run), t)
    ensures Misleads(d, run, longer)
  {
    var s := Last(run);
    OwedIsTheLastWord(d, run, t);
    var out := s.threads[t].out;
    var edit, after, contrary := ContradictingEdit(d, s.loaded, out);
    var index := IndexExists(d, after);
    var u := UnusedThread(s.threads.Keys);
    assert IsPaced(d, run, |run|);
    hide Edits, Indexes, AllParse, KeyedById, EventsOf, Replay, Announced, About, IsPaced, EventOwed;
    longer := RunMutates(d, run, |run|, u, edit, after, contrary, index);
    longer := TwoAnnounce(d, longer, |run|, u, t);
    OnlyOneOwed(s, t, Last(longer), u);
    WrongAboutOne(s.announced, Commit(Job(s.nextTicket, edit), contrary), Commit(s.threads[t].job, out), after);
  }

  lemma OwedIsTheLastWord(d: Dialect, run: seq<State>, t: Thread)
    requires IsPaced(d, run, -1) && Last(run).lock.None? && Owes(Last(run), t)
    ensures var s, out := Last(run), Last(run).threads[t].out;
            && s.threads[t].Announcing? && InPace(s) && KeyedById(s.loaded) && AllParse(d, s.loaded)
            && (out.id in s.loaded <==> !out.Removed?)
  {
    var s, n := Last(run), |run| - 1;
    PacedRunKeepsPace(d, run, -1, n);
    ExclusionHolds(d, run, n);
    CommitsReplayRight(d, run, n);
    var out := s.threads[t].out;
    ReplayAnnounced(EventsOf(s.announced), out, out.id);
    hide EventsOf, Replay, AllParse, KeyedById, IsPaced;
  }

  lemma OnlyOneOwed(s: State, t: Thread, last: State, u: Thread)
    requires InPace(s) && Owes(s, t)
    requires last.threads.Keys == s.threads.Keys - {t, u}
    requires forall v :: v in last.threads ==> last.threads[v] == s.threads[v]
    ensures !EventOwed(last)
  {
    hide EventsOf, Announced;
    forall v: Thread ensures !Owes(last, v) {
      assert Owes(last, v) ==> Owes(s, v);
    }
  }

  lemma TwoAnnounce(d: Dialect, run: seq<State>, but: int, first: Thread, second: Thread)
      returns (longer: seq<State>)
    requires IsPaced(d, run, but) && first != second
    requires first in Last(run).threads && Last(run).threads[first].Announcing?
    requires second in Last(run).threads && Last(run).threads[second].Announcing?
    ensures run <= longer && IsPaced(d, longer, but)
    ensures var s := Last(run);
            var c1 := Commit(s.threads[first].job, s.threads[first].out);
            var c2 := Commit(s.threads[second].job, s.threads[second].out);
            Last(longer) == s.(threads := s.threads - {first, second}, announced := s.announced + [c1, c2])
  {
    var s := Last(run);
    hide IsPaced;
    var c1, c2 := Commit(s.threads[first].job, s.threads[first].out), Commit(s.threads[second].job, s.threads[second].out);
    var s1 := s.(threads := s.threads - {first}, announced := s.announced + [c1]);
    longer := RunExtends(d, run, but, first, Announce, s1);
    var s2 := s.(threads := s.threads - {first, second}, announced := s.announced + [c1, c2]);
    assert s2.threads == s1.threads - {second};
    assert s2.announced == s1.announced + [c2];
    longer := RunExtends(d, longer, but, second, Announce, s2);
  }

  /** The event sent last has the last word, though the map says otherwise. */
  lemma WrongAboutOne(sent: seq<Commit>, contrary: Commit, late: Commit, m: LoadedMap)
    requires Announced(late.out) != [] && About(contrary.out, late.out.id)
    requires late.out.id in m <==> late.out.Removed?
    ensures Replay(EventsOf(sent + [contrary, late])) != m.Keys
  {
    EventsOfOneMore(sent, contrary);
    EventsOfOneMore(sent + [contrary], late);
    assert sent + [contrary, late] == sent + [contrary] + [late];
    ReplayAnnounced(EventsOf(sent + [contrary]), late.out, late.out.id);
    hide EventsOf, Replay;
  }

  lemma PacedIsRun(d: Dialect, run: seq<State>, but: int)
    requires IsPaced(d, run, but)
    ensures IsRun(d, run)
  {
  }

  const START := State(map[], map[], None, map[], 0, [], [map[]], [], [])

  /** The plainest such run: a reload installs an extension, an eviction removes it and
      is announced first. Everything has finished, nothing is loaded, and every
      subscriber believes the extension is there. */
  lemma AnnouncementsCanBeOutOfOrder(d: Dialect, ext: LoadedExtension) returns (run: seq<State>)
    requires ext.describe.offered == []
    ensures IsRun(d, run) && Last(run).threads == map[] && Last(run).loaded == map[]
    ensures forall c :: c in Last(run).commits ==> c.job.edit.Reload? || c.job.edit.Evict?
    ensures Replay(EventsOf(Last(run).announced)) == {ext.describe.id}
  {
    var id := ext.describe.id;
    var with := map[id := ext];
    assert IsPaced(d, [START], -1) && !EventOwed(START);
    assert Edits(d, Reload(ext), map[], with, Installed(id));
    assert Indexes(d, map[], with);
    assert with - {id} == map[];
    assert Edits(d, Evict(id), with, map[], Removed(id));
    assert Indexes(d, map[], map[]);
    hide Edits, Indexes, EventOwed;
    run := RunMutates(d, [START], -1, 0, Reload(ext), with, Installed(id), map[]);
    assert IsPaced(d, run, |run|);
    hide IsPaced;
    var but := |run|;
    run := RunMutates(d, run, but, 1, Evict(id), map[], Removed(id), map[]);
    run := TwoAnnounce(d, run, but, 1, 0);
    PacedIsRun(d, run, but);
    assert Last(run).threads == map[];
    ReplayOfTwo(Commit(Job(1, Evict(id)), Removed(id)), Commit(Job(0, Reload(ext)), Installed(id)));
  }

  lemma ReplayOfTwo(first: Commit, second: Commit)
    requires first.out.Removed? && second.out.Installed?
    ensures Replay(EventsOf([first, second])) == {second.out.id}
  {
    EventsOfOneMore([], first);
    EventsOfOneMore([first], second);
    assert [] + [first] == [first] && [first] + [second] == [first, second];
    forall id
      ensures id in Replay(EventsOf([first, second])) <==> id == second.out.id
    {
      ReplayAnnounced(EventsOf([]), first.out, id);
      ReplayAnnounced(EventsOf([first]), second.out, id);
    }
  }

  // ----- versions -----

  /** The commit neither evicts `id` nor registers it explicitly. */
  predicate LeavesAlone(c: Commit, id: ExtensionId) {
    c.out != Removed(id) && !(c.job.edit.Register? && c.job.edit.ext.describe.id == id)
  }

  predicate VersionReads(d: Dialect, m: LoadedMap, id: ExtensionId) {
    id in m ==> d.parseVersion(m[id].describe.version).Some?
  }

  function VersionIn(d: Dialect, m: LoadedMap, id: ExtensionId): Version
    requires id in m && VersionReads(d, m, id)
  {
    d.parseVersion(m[id].describe.version).value
  }

  /** Whatever packs the watcher presents, and however its reloads interleave with
      other mutators, the loaded version of an id that nobody evicts or explicitly
      registers never goes down, as long as its versions can be read. */
  lemma {:induction false} VersionsNeverDrop(
      d: Dialect, commits: seq<Commit>, history: seq<LoadedMap>, i: nat, j: nat, id: ExtensionId)
    requires IsHistory(d, commits, history) && i <= j < |history|
    requires id in history[i]
    requires forall k :: i <= k < j ==> LeavesAlone(commits[k], id)
    requires forall k :: i <= k <= j ==> VersionReads(d, history[k], id)
    ensures id in history[j]
    ensures AtMost(VersionIn(d, history[i], id), VersionIn(d, history[j], id))
    ensures !Precedence(VersionIn(d, history[i], id), VersionIn(d, history[j], id)).Greater?
  {
    hide AtMost, Below, Precedence;
    CompareIsTotalOrder(VersionIn(d, history[i], id), VersionIn(d, history[i], id));
    if i < j {
      VersionsNeverDrop(d, commits, history, i, j - 1, id);
      assert EditLinks(d, commits, history, j - 1);
      assert LeavesAlone(commits[j - 1], id) && VersionReads(d, history[j], id);
      EditKeepsVersion(d, commits[j - 1].job.edit, history[j - 1], history[j], commits[j - 1].out, id);
      CompareTransitive(VersionIn(d, history[i], id), VersionIn(d, history[j - 1], id), VersionIn(d, history[j], id));
      CompareIsTotalOrder(VersionIn(d, history[i], id), VersionIn(d, history[j], id));
    }
  }

  lemma EditKeepsVersion(d: Dialect, edit: Edit, m: LoadedMap, after: LoadedMap, out: Outcome, id: ExtensionId)
    requires Edits(d, edit, m, after, out) && id in m
    requires out != Removed(id) && !(edit.Register? && edit.ext.describe.id == id)
    requires VersionReads(d, m, id) && VersionReads(d, after, id)
    ensures id in after && AtMost(VersionIn(d, m, id), VersionIn(d, after, id))
  {
    hide AtMost, Below;
    CompareIsTotalOrder(VersionIn(d, m, id), VersionIn(d, m, id));
    if id in after {
      CompareIsTotalOrder(VersionIn(d, after, id), VersionIn(d, m, id));
    }
  }

  /** `edit` registers an older release over the one of `id` that is loaded. */
  predicate RegistersOlder(d: Dialect, edit: Edit, m: LoadedMap, id: ExtensionId) {
    && edit.Register? && edit.ext.describe.id == id && id in m
    && IsDowngrade(d, m[id].describe.version, edit.ext.describe.version)
  }

  /** Between two readable versions of an id that stays loaded, the version goes down
      exactly when an explicit registration brings an older release. */
  lemma EditLowersExactlyWhen(d: Dialect, edit: Edit, m: LoadedMap, after: LoadedMap, out: Outcome, id: ExtensionId)
    requires Edits(d, edit, m, after, out) && id in m && id in after
    requires VersionReads(d, m, id) && VersionReads(d, after, id)
    ensures Below(VersionIn(d, after, id), VersionIn(d, m, id)) <==> RegistersOlder(d, edit, m, id)
  {
    hide AtMost, Below;
    if edit.Register? && edit.ext.describe.id == id {
      assert after[id] == edit.ext;
    } else {
      EditKeepsVersion(d, edit, m, after, out, id);
      CompareIsTotalOrder(VersionIn(d, after, id), VersionIn(d, m, id));
    }
  }

  /** The same over the history of any run: which commits lower a version. */
  lemma VersionDropsExactlyWhen(d: Dialect, run: seq<State>, i: nat, k: nat, id: ExtensionId)
    requires IsRun(d, run) && i < |run| && k < |run[i].commits| && |run[i].history| == |run[i].commits| + 1
    requires id in run[i].history[k] && id in run[i].history[k + 1]
    requires VersionReads(d, run[i].history[k], id) && VersionReads(d, run[i].history[k + 1], id)
    ensures Below(VersionIn(d, run[i].history[k + 1], id), VersionIn(d, run[i].history[k], id)) <==>
            RegistersOlder(d, run[i].commits[k].job.edit, run[i].history[k], id)
  {
    ExclusionHolds(d, run, i);
    hide Below, RegistersOlder, Edits, IsRun;
    var s := run[i];
    assert EditLinks(d, s.commits, s.history, k);
    EditLowersExactlyWhen(d, s.commits[k].job.edit, s.history[k], s.history[k + 1], s.commits[k].out, id);
  }

  lemma OneLoadable(d: Dialect, e: LoadedExtension)
    requires Parses(d, e)
    ensures var m := map[e.describe.id := e]; KeyedById(m) && AllParse(d, m)
  {
  }

  lemma StartIsQuiet(d: Dialect)
    ensures IsPaced(d, [START], -1)
  {
  }

  /** Readable versions are needed: through one reload whose version cannot be
      read, any indexable release is replaced by any older one without a refusal. */
  lemma UnreadableVersionLaundersADowngrade(
      d: Dialect, newer: LoadedExtension, unreadable: LoadedExtension, older: LoadedExtension)
      returns (run: seq<State>)
    requires newer.describe.id == unreadable.describe.id == older.describe.id
    requires Parses(d, newer) && Parses(d, unreadable) && Parses(d, older)
    requires d.parseVersion(unreadable.describe.version).None?
    requires IsDowngrade(d, newer.describe.version, older.describe.version)
    ensures IsRun(d, run) && Last(run).threads == map[]
    ensures forall c :: c in Last(run).commits ==> c.job.edit.Reload? && !c.out.Refused?
    ensures var id := newer.describe.id;
            Last(run).history == [map[], map[id := newer], map[id := unreadable], map[id := older]]
    ensures Last(run).loaded == map[newer.describe.id := older]
  {
    hide IsDowngrade, Parses;
    var id := newer.describe.id;
    var m1, m2, m3 := map[id := newer], map[id := unreadable], map[id := older];
    NotADowngrade(d, newer.describe.version, unreadable.describe.version);
    NotADowngrade(d, unreadable.describe.version, older.describe.version);
    assert m1[id := unreadable] == m2 && m2[id := older] == m3;
    OneLoadable(d, newer);
    OneLoadable(d, unreadable);
    OneLoadable(d, older);
    StartIsQuiet(d);
    hide IsPaced, IsRun, AllParse, KeyedById;
    run := RunCompletes(d, [START], Reload(newer), m1, Installed(id));
    run := RunCompletes(d, run, Reload(unreadable), m2, Updated(id, newer.describe.version));
    run := RunCompletes(d, run, Reload(older), m3, Updated(id, unreadable.describe.version));
    PacedIsRun(d, run, -1);
  }

  lemma NotADowngrade(d: Dialect, current: string, candidate: string)
    ensures d.parseVersion(current).None? || d.parseVersion(candidate).None? ==>
              !IsDowngrade(d, current, candidate)
  {
  }

  /** Explicit registration has no downgrade gate: two registrations in a row lower
      the loaded version, where a reload of the same pack would be refused. */
  lemma RegistrationMayLower(d: Dialect, newer: LoadedExtension, older: LoadedExtension) returns (run: seq<State>)
    requires newer.describe.id == older.describe.id && Parses(d, newer) && Parses(d, older)
    requires IsDowngrade(d, newer.describe.version, older.describe.version)
    ensures IsRun(d, run) && Last(run).threads == map[]
    ensures forall c :: c in Last(run).commits ==> c.job.edit.Register? && c.out.Installed?
    ensures var id := newer.describe.id;
            Last(run).history == [map[], map[id := newer], map[id := older]]
    ensures var id, m := newer.describe.id, map[newer.describe.id := newer];
            forall after, out :: Edits(d, Reload(older), m, after, out) ==>
              after == m && out == Refused(id, newer.describe.version)
  {
    hide IsDowngrade, Parses;
    var id := newer.describe.id;
    var m1, m2 := map[id := newer], map[id := older];
    assert m1[id := older] == m2;
    OneLoadable(d, newer);
    OneLoadable(d, older);
    StartIsQuiet(d);
    hide IsPaced, IsRun, AllParse, KeyedById;
    run := RunCompletes(d, [START], Register(newer), m1, Installed(id));
    run := RunCompletes(d, run, Register(older), m2, Installed(id));
    PacedIsRun(d, run, -1);
  }
}
