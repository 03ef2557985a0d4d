/** Concurrent mutators: acquire the lock, copy the map, edit the copy, rebuild
    the index, store the map, store the index, release, announce. Each of these
    is one step, and steps of different threads interleave freely. Readers load
    either cell at any moment without taking the lock. */
module Publication {
  import opened Wrappers
  import opened Semver
  import opened Capability
  import opened Extensions

  type Thread = nat

  /** One call of the mutator. Tickets tell calls with equal edits apart. */
  datatype Job = Job(ticket: nat, edit: Edit)

  datatype Phase =
    | Waiting(job: Job)
    | Locked(job: Job)
    | Copied(job: Job, copy: LoadedMap)
    | Edited(job: Job, copy: LoadedMap, out: Outcome)
    | Rebuilt(job: Job, copy: LoadedMap, out: Outcome, index: Offerings)
    | MapStored(job: Job, out: Outcome, index: Offerings)
    | IndexStored(job: Job, out: Outcome)
    | RebuildFailed(job: Job)
    | Announcing(job: Job, out: Outcome)
  {
    predicate HoldsLock() {
      !Waiting? && !Announcing?
    }

    /** The edit has not been published, and so may still come to nothing. */
    predicate Unpublished() {
      Waiting? || Locked? || Copied? || Edited? || Rebuilt? || RebuildFailed?
    }
  }

  datatype Commit = Commit(job: Job, out: Outcome)

  /** `loaded` and `index` are the two published cells. `commits` and `history`
      record every store of the map, in order; `announced` every call that got
      as far as its event; `abandoned` every call whose rebuild failed. */
  datatype State = State(
    loaded: LoadedMap,
    index: Offerings,
    lock: Option<Thread>,
    threads: map<Thread, Phase>,
    nextTicket: nat,
    commits: seq<Commit>,
    history: seq<LoadedMap>,
    announced: seq<Commit>,
    abandoned: seq<Job>)

  ghost predicate Init(s: State) {
    s == State(map[], map[], None, map[], 0, [], [map[]], [], [])
  }

  datatype Step =
    | Call(edit: Edit)
    | Acquire
    | Copy
    | Apply(after: LoadedMap, out: Outcome)
    | Rebuild(index: Offerings)
    | FailRebuild
    | StoreMap
    | StoreIndex
    | Release
    | GiveUp
    | Announce

  /** Thread `t` takes `step`. A thread with no phase is not mutating anything. */
  ghost predicate Takes(d: Dialect, s: State, t: Thread, step: Step, s': State) {
    if step.Call? then
      t !in s.threads
      && s' == s.(threads := s.threads[t := Waiting(Job(s.nextTicket, step.edit))], nextTicket := s.nextTicket + 1)
    else
      t in s.threads && TakesIn(d, s, t, s.threads[t], step, s')
  }

  ghost predicate TakesIn(d: Dialect, s: State, t: Thread, p: Phase, step: Step, s': State)
    requires !step.Call?
  {
    match step
    case Acquire =>
      p.Waiting? && s.lock == None
      && s' == s.(lock := Some(t), threads := s.threads[t := Locked(p.job)])
    case Copy =>
      p.Locked? && s' == s.(threads := s.threads[t := Copied(p.job, s.loaded)])
    case Apply(after, out) =>
      p.Copied? && Edits(d, p.job.edit, p.copy, after, out)
      && s' == s.(threads := s.threads[t := Edited(p.job, after, out)])
    case Rebuild(index) =>
      p.Edited? && Indexes(d, index, p.copy)
      && s' == s.(threads := s.threads[t := Rebuilt(p.job, p.copy, p.out, index)])
    case FailRebuild =>
      p.Edited? && !AllParse(d, p.copy)
      && s' == s.(threads := s.threads[t := RebuildFailed(p.job)])
    case StoreMap =>
      p.Rebuilt?
      && s' == s.(loaded := p.copy, threads := s.threads[t := MapStored(p.job, p.out, p.index)],
                  commits := s.commits + [Commit(p.job, p.out)], history := s.history + [p.copy])
    case StoreIndex =>
      p.MapStored?
      && s' == s.(index := p.index, threads := s.threads[t := IndexStored(p.job, p.out)])
    case Release =>
      p.IndexStored?
      && s' == s.(lock := None, threads := s.threads[t := Announcing(p.job, p.out)])
    case GiveUp =>
      p.RebuildFailed?
      && s' == s.(lock := None, threads := s.threads - {t}, abandoned := s.abandoned + [p.job])
    case Announce =>
      p.Announcing?
      && s' == s.(threads := s.threads - {t}, announced := s.announced + [Commit(p.job, p.out)])
  }

  ghost predicate Next(d: Dialect, s: State, s': State) {
    exists t, step :: Takes(d, s, t, step, s')
  }

  ghost predicate IsRun(d: Dialect, run: seq<State>) {
    && |run| > 0 && Init(run[0])
    && forall i :: 0 <= i < |run| - 1 ==> Next(d, run[i], run[i + 1])
  }

  // ----- what every step keeps -----

  /** At most one thread is between acquire and release, and the lock names it. */
  ghost predicate MutualExclusion(s: State) {
    && (s.lock.Some? ==> s.lock.value in s.threads)
    && forall t :: t in s.threads ==> (s.threads[t].HoldsLock() <==> s.lock == Some(t))
  }

  /** The recorded maps are the successive results of the committed edits. */
  ghost predicate IsHistory(d: Dialect, commits: seq<Commit>, history: seq<LoadedMap>) {
    && |history| == |commits| + 1 && history[0] == map[]
    && forall i :: 0 <= i < |commits| ==> EditLinks(d, commits, history, i)
  }

  ghost predicate EditLinks(d: Dialect, commits: seq<Commit>, history: seq<LoadedMap>, i: int)
    requires 0 <= i < |commits| && |history| == |commits| + 1
  {
    Edits(d, commits[i].job.edit, history[i], history[i + 1], commits[i].out)
  }

  ghost predicate HistoryRecorded(d: Dialect, s: State) {
    && IsHistory(d, s.commits, s.history)
    && s.loaded == s.history[|s.history| - 1]
    && KeyedById(s.loaded) && AllParse(d, s.loaded)
  }

  /** What the lock holder is working on matches the published cells. */
  ghost predicate HolderInStep(d: Dialect, s: State, p: Phase) {
    match p
    case Copied(job, copy) => copy == s.loaded
    case Edited(job, copy, out) => Edits(d, job.edit, s.loaded, copy, out)
    case Rebuilt(job, copy, out, index) =>
      Edits(d, job.edit, s.loaded, copy, out) && Indexes(d, index, copy)
    case MapStored(job, out, index) =>
      && Indexes(d, index, s.loaded)
      && |s.history| >= 2 && Indexes(d, s.index, s.history[|s.history| - 2])
    case RebuildFailed(job) => Unindexable(d, job.edit)
    case _ => true
  }

  /** The edit would load an extension with an offered version that does not parse. */
  ghost predicate Unindexable(d: Dialect, edit: Edit) {
    (edit.Register? || edit.Reload?) && !Parses(d, edit.ext)
  }

  ghost predicate HoldersInStep(d: Dialect, s: State) {
    forall t :: t in s.threads ==> HolderInStep(d, s, s.threads[t])
  }

  /** The published index is the published map's, except between the two stores. */
  ghost predicate CellsAgree(d: Dialect, s: State) {
    Indexes(d, s.index, s.loaded) || exists t :: t in s.threads && s.threads[t].MapStored?
  }

  ghost predicate TicketUsed(log: seq<Commit>, ticket: nat) {
    exists i :: 0 <= i < |log| && log[i].job.ticket == ticket
  }

  ghost predicate TicketsOnce(log: seq<Commit>, bound: nat) {
    && (forall i :: 0 <= i < |log| ==> log[i].job.ticket < bound)
    && (forall i, j :: 0 <= i < j < |log| ==> log[i].job.ticket != log[j].job.ticket)
  }

  /** A thread's call is committed, or announced, exactly as far as it has got. */
  ghost predicate CallInStep(s: State, p: Phase) {
    && p.job.ticket < s.nextTicket
    && (p.Unpublished() ==> !TicketUsed(s.commits, p.job.ticket))
    && (!p.Unpublished() ==> Commit(p.job, p.out) in s.commits)
    && !TicketUsed(s.announced, p.job.ticket)
  }

  ghost predicate DistinctCalls(s: State) {
    forall t, u :: t in s.threads && u in s.threads && t != u ==>
      s.threads[t].job.ticket != s.threads[u].job.ticket
  }

  /** Each call is committed at most once, announced at most once, and never
      announced uncommitted. */
  ghost predicate LogsInStep(s: State) {
    && TicketsOnce(s.commits, s.nextTicket)
    && TicketsOnce(s.announced, s.nextTicket)
    && (forall c :: c in s.announced ==> c in s.commits)
  }

  ghost predicate CallsInStep(s: State) {
    && (forall t :: t in s.threads ==> CallInStep(s, s.threads[t]))
    && DistinctCalls(s)
    && LogsInStep(s)
  }

  /** Every committed call was announced or is still on its way to it. */
  ghost predicate NothingForgotten(s: State) {
    forall c :: c in s.commits ==> c in s.announced || Pending(s, c)
  }

  ghost predicate Pending(s: State, c: Commit) {
    exists t :: t in s.threads && !s.threads[t].Unpublished() && Commit(s.threads[t].job, s.threads[t].out) == c
  }

  ghost predicate Active(s: State, ticket: nat) {
    exists t :: t in s.threads && s.threads[t].job.ticket == ticket
  }

  ghost predicate Abandoned(s: State, ticket: nat) {
    exists i :: 0 <= i < |s.abandoned| && s.abandoned[i].ticket == ticket
  }

  /** Every call ever made is under way, committed, or was given up because its
      edit cannot be indexed. */
  ghost predicate Accounted(d: Dialect, s: State) {
    && (forall k: nat :: k < s.nextTicket ==> Active(s, k) || TicketUsed(s.commits, k) || Abandoned(s, k))
    && (forall j :: j in s.abandoned ==> Unindexable(d, j.edit))
  }

  ghost predicate Inv(d: Dialect, s: State) {
    && MutualExclusion(s)
    && HistoryRecorded(d, s)
    && HoldersInStep(d, s)
    && CellsAgree(d, s)
    && CallsInStep(s)
    && NothingForgotten(s)
    && Accounted(d, s)
  }

  lemma InitHolds(d: Dialect, s: State)
    requires Init(s)
    ensures Inv(d, s)
  {
  }

  lemma ExclusionKept(d: Dialect, s: State, t: Thread, step: Step, s': State)
    requires MutualExclusion(s) && Takes(d, s, t, step, s')
    ensures MutualExclusion(s')
  {
    hide Edits, Indexes, AllParse;
  }

  lemma HistoryKept(d: Dialect, s: State, t: Thread, step: Step, s': State)
    requires HistoryRecorded(d, s) && HoldersInStep(d, s) && Takes(d, s, t, step, s')
    ensures HistoryRecorded(d, s')
  {
    hide Edits, KeyedById;
    if step.StoreMap? {
      var p := s.threads[t];
      EditsKeepIds(d, p.job.edit, s.loaded, p.copy, p.out);
      forall i | 0 <= i < |s'.commits|
        ensures EditLinks(d, s'.commits, s'.history, i)
      {
        if i < |s.commits| {
          assert EditLinks(d, s.commits, s.history, i);
        }
      }
    }
  }

  lemma HoldersKept(d: Dialect, s: State, t: Thread, step: Step, s': State)
    requires MutualExclusion(s) && HistoryRecorded(d, s) && HoldersInStep(d, s) && CellsAgree(d, s)
    requires Takes(d, s, t, step, s')
    ensures HoldersInStep(d, s') && CellsAgree(d, s')
  {
    hide Edits, Indexes, AllParse, EditLinks, Parses;
    if step.FailRebuild? {
      UnindexableEdit(d, s.threads[t].job.edit, s.loaded, s.threads[t].copy, s.threads[t].out);
    }
    forall u | u in s'.threads
      ensures HolderInStep(d, s', s'.threads[u])
    {
      if u != t {
        assert u in s.threads && s.threads[u] == s'.threads[u];
      }
    }
    if !Indexes(d, s'.index, s'.loaded) {
      if step.StoreMap? {
        assert s'.threads[t].MapStored?;
      } else {
        var u :| u in s.threads && s.threads[u].MapStored?;
        assert u in s'.threads && s'.threads[u].MapStored?;
      }
    }
  }

  /** Starting from an indexable map, only loading something unindexable can
      make the rebuild fail; taking entries away never does. */
  lemma UnindexableEdit(d: Dialect, edit: Edit, m: LoadedMap, after: LoadedMap, out: Outcome)
    requires AllParse(d, m) && Edits(d, edit, m, after, out) && !AllParse(d, after)
    ensures Unindexable(d, edit)
  {
  }

  lemma CallsKept(d: Dialect, s: State, t: Thread, step: Step, s': State)
    requires CallsInStep(s) && Takes(d, s, t, step, s')
    ensures CallsInStep(s')
  {
    hide Edits, Indexes, AllParse, CallInStep, LogsInStep, DistinctCalls;
    LogsKept(d, s, t, step, s');
    DistinctCallsKept(d, s, t, step, s');
    forall u | u in s'.threads
      ensures CallInStep(s', s'.threads[u])
    {
      if u in s.threads {
        CallKept(d, s, t, step, s', u);
      } else {
        NewCall(s, s', s'.threads[u]);
      }
    }
  }

  lemma LogsKept(d: Dialect, s: State, t: Thread, step: Step, s': State)
    requires CallsInStep(s) && Takes(d, s, t, step, s')
    ensures LogsInStep(s')
  {
    hide Edits, Indexes, AllParse, DistinctCalls;
    if !step.Call? {
      assert CallInStep(s, s.threads[t]);
    }
  }

  lemma DistinctCallsKept(d: Dialect, s: State, t: Thread, step: Step, s': State)
    requires CallsInStep(s) && Takes(d, s, t, step, s')
    ensures DistinctCalls(s')
  {
    hide Edits, Indexes, AllParse, LogsInStep;
    forall u | u in s.threads
      ensures s.threads[u].job.ticket < s.nextTicket
    {
      assert CallInStep(s, s.threads[u]);
    }
  }

  lemma NewCall(s: State, s': State, p: Phase)
    requires CallsInStep(s)
    requires p.Waiting? && p.job.ticket == s.nextTicket && s'.nextTicket == s.nextTicket + 1
    requires s'.commits == s.commits && s'.announced == s.announced
    ensures CallInStep(s', p)
  {
  }

  lemma CallKept(d: Dialect, s: State, t: Thread, step: Step, s': State, u: Thread)
    requires CallsInStep(s) && Takes(d, s, t, step, s')
    requires u in s.threads && u in s'.threads
    ensures CallInStep(s', s'.threads[u])
  {
    hide Edits, Indexes, AllParse;
    assert CallInStep(s, s.threads[u]);
    if !step.Call? {
      assert CallInStep(s, s.threads[t]);
    }
  }

  lemma NothingGetsForgotten(d: Dialect, s: State, t: Thread, step: Step, s': State)
    requires NothingForgotten(s) && Takes(d, s, t, step, s')
    ensures NothingForgotten(s')
  {
    hide Edits, Indexes, AllParse;
    forall c | c in s'.commits
      ensures c in s'.announced || Pending(s', c)
    {
      if c in s.commits {
        if Pending(s, c) {
          var u :| u in s.threads && !s.threads[u].Unpublished()
                   && Commit(s.threads[u].job, s.threads[u].out) == c;
          if u in s'.threads {
            assert !s'.threads[u].Unpublished() && Commit(s'.threads[u].job, s'.threads[u].out) == c;
          }
        }
      } else {
        assert Commit(s'.threads[t].job, s'.threads[t].out) == c;
      }
    }
  }

  lemma CallsStayAccounted(d: Dialect, s: State, t: Thread, step: Step, s': State)
    requires Inv(d, s) && Takes(d, s, t, step, s')
    ensures Accounted(d, s')
  {
    hide Edits, Indexes, AllParse, MutualExclusion, HistoryRecorded, CellsAgree, CallsInStep, Parses;
    forall k: nat | k < s'.nextTicket
      ensures Active(s', k) || TicketUsed(s'.commits, k) || Abandoned(s', k)
    {
      if k == s.nextTicket {
        assert s'.threads[t].job.ticket == k;
      } else if Abandoned(s, k) {
        var i :| 0 <= i < |s.abandoned| && s.abandoned[i].ticket == k;
        assert s'.abandoned[i].ticket == k;
      } else if TicketUsed(s.commits, k) {
        var i :| 0 <= i < |s.commits| && s.commits[i].job.ticket == k;
        assert s'.commits[i].job.ticket == k;
      } else {
        var u :| u in s.threads && s.threads[u].job.ticket == k;
        ActiveCallMoves(d, s, t, step, s', u);
      }
    }
    if step.GiveUp? {
      assert HolderInStep(d, s, s.threads[t]);
    }
  }

  lemma ActiveCallMoves(d: Dialect, s: State, t: Thread, step: Step, s': State, u: Thread)
    requires CallsInStep(s) && Takes(d, s, t, step, s') && u in s.threads
    ensures var k := s.threads[u].job.ticket;
            Active(s', k) || TicketUsed(s'.commits, k) || Abandoned(s', k)
  {
    hide Edits, Indexes, AllParse, LogsInStep, DistinctCalls, Parses;
    assert CallInStep(s, s.threads[u]);
    var k := s.threads[u].job.ticket;
    if u in s'.threads {
      assert s'.threads[u].job.ticket == k;
    } else if step.GiveUp? {
      assert s'.abandoned[|s.abandoned|].ticket == k;
    } else {
      var i :| 0 <= i < |s.commits| && s.commits[i] == Commit(s.threads[u].job, s.threads[u].out);
      assert s'.commits[i].job.ticket == k;
    }
  }

  lemma StepKeeps(d: Dialect, s: State, s': State)
    requires Inv(d, s) && Next(d, s, s')
    ensures Inv(d, s')
  {
    hide MutualExclusion, HistoryRecorded, HoldersInStep, CellsAgree, CallsInStep, NothingForgotten, Takes, Accounted;
    var t, step :| Takes(d, s, t, step, s');
    ExclusionKept(d, s, t, step, s');
    HistoryKept(d, s, t, step, s');
    HoldersKept(d, s, t, step, s');
    CallsKept(d, s, t, step, s');
    NothingGetsForgotten(d, s, t, step, s');
    CallsStayAccounted(d, s, t, step, s');
  }

  lemma {:induction false} RunKeeps(d: Dialect, run: seq<State>, i: nat)
    requires IsRun(d, run) && i < |run|
    ensures Inv(d, run[i])
  {
    hide Next, Init, Inv;
    if i == 0 {
      InitHolds(d, run[0]);
    } else {
      RunKeeps(d, run, i - 1);
      assert Next(d, run[i - 1], run[i - 1 + 1]);
      StepKeeps(d, run[i - 1], run[i]);
    }
  }
}
