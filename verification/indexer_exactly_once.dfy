/** Who holds the work: no commit is ever stuck, and when recovery runs first every outstanding
    commit is held exactly once. */
module IndexerExactlyOnce {
  import opened Common
  import opened Wrappers
  import opened IndexerStore
  import opened IndexerJobs
  import opened IndexerProtocol

  // ------------------------------------------------------- entries are sound

  /** Keys are normalised, a Ready entry has an index path, and a recorded path is one of the
      commit's own files. */
  predicate EntrySound(id: Id, e: CommitEntry) {
    && RepoKey(id.key) == id.key
    && (e.state.Ready? ==> e.indexPath.Some?)
    && (e.indexPath.Some? ==> Owns(id, e.indexPath.value))
  }

  ghost predicate EntriesSound(store: IndexerState) {
    forall id :: Lookup(store, id).Some? ==> EntrySound(id, Lookup(store, id).value)
  }

  lemma {:induction false} EntryStaysSound(s: System, st: Step, id: Id)
    requires Enabled(s, st) && EntriesSound(s.store) && Lookup(Apply(s, st).store, id).Some?
    ensures EntrySound(id, Lookup(Apply(s, st).store, id).value)
  {
    if st.EnqueueStep? {
      JobOwnsItsPath(st.job);
    } else if st.MarkReadyStep? {
      ReadyEntrySound(s, st, id);
    } else {
      UpdatedEntrySound(s, st, id);
    }
  }

  lemma {:induction false} ReadyEntrySound(s: System, st: Step, id: Id)
    requires Enabled(s, st) && EntriesSound(s.store) && st.MarkReadyStep?
    requires Lookup(Apply(s, st).store, id).Some?
    ensures EntrySound(id, Lookup(Apply(s, st).store, id).value)
  {
    JobOwnsItsPath(s.worker.job);
  }

  /** Every other step leaves the path of an entry alone and makes none Ready. */
  lemma {:induction false} UpdatedEntrySound(s: System, st: Step, id: Id)
    requires Enabled(s, st) && EntriesSound(s.store) && !st.EnqueueStep? && !st.MarkReadyStep?
    requires Lookup(Apply(s, st).store, id).Some?
    ensures EntrySound(id, Lookup(Apply(s, st).store, id).value)
  {
    match st {
      case RollBack(_, _) =>
      case StartBuild =>
      case MarkBuildFailed =>
      case TakeRecoverable(order) => DropAllLookup(s.store, Dropped(order, QUEUE_CAP), id);
      case _ =>
    }
  }

  lemma {:induction false} EntriesStaySound(s: System, st: Step)
    requires Enabled(s, st) && EntriesSound(s.store)
    ensures EntriesSound(Apply(s, st).store)
  {
    forall id | Lookup(Apply(s, st).store, id).Some?
      ensures EntrySound(id, Lookup(Apply(s, st).store, id).value)
    {
      EntryStaysSound(s, st, id);
    }
  }

  // -------------------------------------------------- one step, one commit

  /** A commit becomes outstanding only in a step after which somebody holds its job. */
  lemma NewlyOutstanding(s: System, st: Step, id: Id)
    requires Enabled(s, st) && !st.TakeRecoverable?
    requires !Outstanding(s.store, id) && Outstanding(Apply(s, st).store, id)
    ensures (st.EnqueueStep? && Adds(s, st, st.job) && IdOf(st.job) == id)
            || (st.StartBuild? && IdOf(s.worker.job) == id)
  {
  }

  /** A step that ends a job leaves the job's commit in no outstanding state. */
  lemma FinishedIsNotOutstanding(s: System, st: Step, job: Job)
    requires Enabled(s, st) && Finishes(s, st, job)
    ensures !Outstanding(Apply(s, st).store, IdOf(job))
  {
  }

  lemma {:induction false} NoLongerOutstanding(s: System, st: Step, id: Id)
    requires Enabled(s, st) && !st.TakeRecoverable? && !st.Crash?
    requires Outstanding(s.store, id) && !Outstanding(Apply(s, st).store, id)
    ensures exists job :: Finishes(s, st, job) && IdOf(job) == id
  {
    match st {
      case RollBack(job, _) => assert Finishes(s, st, job);
      case MarkReadyStep(_, _, _) =>
        assert Finishes(s, st, s.worker.job);
      case MarkBuildFailed => assert Finishes(s, st, s.worker.job);
      case _ => StaysOutstanding(s, st, id);
    }
  }

  lemma StaysOutstanding(s: System, st: Step, id: Id)
    requires Enabled(s, st) && !st.TakeRecoverable? && !st.Crash?
    requires !st.RollBack? && !st.MarkReadyStep? && !st.MarkBuildFailed?
    requires Outstanding(s.store, id)
    ensures Outstanding(Apply(s, st).store, id)
  {
  }

  lemma TakenHasJob(s: System, order: seq<Id>, id: Id)
    requires Enabled(s, TakeRecoverable(order)) && EntriesSound(s.store)
    requires Outstanding(Apply(s, TakeRecoverable(order)).store, id)
    ensures HasJob(Apply(s, TakeRecoverable(order)), id)
  {
    var s' := Apply(s, TakeRecoverable(order));
    RecoverySplits(s.store, order, QUEUE_CAP);
    var taken := Taken(order, QUEUE_CAP);
    var i :| 0 <= i < |taken| && taken[i] == id;
    var job := RecoveredJobs(taken)[i];
    assert job in s'.recovery.jobs;
    assert RecoveryHolds(s'.recovery, job) > 0;
    assert Held(s', job) > 0 && IdOf(job) == id;
  }

  // ------------------------------------------------------------ backed

  /** Holds in every reachable state, whatever interleaves. Before recovery has run, the
      recovery task itself is what will pick up a commit without a job. */
  ghost predicate NoneStuck(s: System) {
    EntriesSound(s.store) && (s.recovery.Resending? ==> Backed(s))
  }

  /** An outstanding commit that was backed before a step still is, unless that step finished its job. */
  lemma {:induction false} StaysBacked(s: System, st: Step, id: Id)
    requires Enabled(s, st) && !st.TakeRecoverable? && !st.Crash? && HasJob(s, id)
    requires Outstanding(Apply(s, st).store, id)
    ensures HasJob(Apply(s, st), id)
  {
    var job :| Held(s, job) > 0 && IdOf(job) == id;
    if Finishes(s, st, job) {
      FinishedIsNotOutstanding(s, st, job);
    }
    JobsConserved(s, st, job);
    assert Held(Apply(s, st), job) > 0;
  }

  lemma {:induction false} BecomesBacked(s: System, st: Step, id: Id)
    requires Enabled(s, st) && !st.TakeRecoverable?
    requires !Outstanding(s.store, id) && Outstanding(Apply(s, st).store, id)
    ensures HasJob(Apply(s, st), id)
  {
    NewlyOutstanding(s, st, id);
    var job := if st.EnqueueStep? then st.job else s.worker.job;
    JobsConserved(s, st, job);
    assert Held(Apply(s, st), job) > 0;
  }

  lemma {:induction false} NoneStuckStep(s: System, st: Step)
    requires Enabled(s, st) && NoneStuck(s)
    ensures NoneStuck(Apply(s, st))
  {
    EntriesStaySound(s, st);
    if Apply(s, st).recovery.Resending? {
      forall id | Outstanding(Apply(s, st).store, id) ensures HasJob(Apply(s, st), id) {
        if st.TakeRecoverable? {
          TakenHasJob(s, st.order, id);
        } else if Outstanding(s.store, id) {
          StaysBacked(s, st, id);
        } else {
          BecomesBacked(s, st, id);
        }
      }
    }
  }

  /** In every state of every run, an outstanding commit has a job in somebody's hands, and every
      Ready commit has an index path. */
  lemma {:induction false} NeverStuck(s: System, steps: seq<Step>)
    requires NoneStuck(s) && IsRun(s, steps)
    ensures Along(s, steps, NoneStuck)
    decreases |steps|
  {
    if steps != [] {
      NoneStuckStep(s, steps[0]);
      NeverStuck(Apply(s, steps[0]), steps[1..]);
    }
  }

  lemma InitiallyNoneStuck()
    ensures NoneStuck(INITIAL)
  {
  }

  // ------------------------------------------------------- exactly once

  ghost predicate NothingHeld(s: System) {
    forall job :: Held(s, job) == 0
  }

  ghost predicate ExactlyOnce(s: System) {
    && EntriesSound(s.store)
    && (s.recovery.Resending? ==> OneToOne(s))
    && (s.recovery.NotTaken? ==> NothingHeld(s))
  }

  lemma TakeIsOneToOne(s: System, order: seq<Id>)
    requires Enabled(s, TakeRecoverable(order)) && EntriesSound(s.store) && NothingHeld(s)
    ensures OneToOne(Apply(s, TakeRecoverable(order)))
  {
    var st := TakeRecoverable(order);
    var s' := Apply(s, st);
    RecoverySplits(s.store, order, QUEUE_CAP);
    var taken := Taken(order, QUEUE_CAP);
    var jobs := RecoveredJobs(taken);
    forall job ensures Held(s', job) == multiset(jobs)[job] {
      assert Held(s, job) == 0;
    }
    forall id | Outstanding(s'.store, id) ensures HasJob(s', id) {
      TakenHasJob(s, order, id);
    }
    RecoveredOnce(s.store, order);
    forall job | Held(s', job) > 0 ensures Held(s', job) == 1 && Outstanding(s'.store, IdOf(job)) {
      assert job in jobs;
    }
    forall a, b | Held(s', a) > 0 && Held(s', b) > 0 && IdOf(a) == IdOf(b) ensures a == b {
      assert a in jobs && b in jobs;
    }
  }

  lemma {:induction false} OnceInDistinct<T>(xs: seq<T>, x: T)
    requires NoDuplicates(xs)
    ensures multiset(xs)[x] <= 1
  {
    if xs != [] {
      TakeFirst(xs);
      OnceInDistinct(xs[1..], x);
      assert xs[0] !in xs[1..];
    }
  }

  lemma RecoveredOnce(store: IndexerState, order: seq<Id>)
    requires IsRecoveryOrder(store, order) && EntriesSound(store)
    ensures var taken := Taken(order, QUEUE_CAP);
            forall job :: job in RecoveredJobs(taken) ==>
                            && multiset(RecoveredJobs(taken))[job] == 1
                            && IdOf(job) in taken && IdOf(job) == Id(job.root, job.sha)
  {
    var taken := Taken(order, QUEUE_CAP);
    var jobs := RecoveredJobs(taken);
    assert forall i :: 0 <= i < |taken| ==> taken[i] in order;
    assert NoDuplicates(jobs) by {
      forall i, j | 0 <= i < j < |jobs| ensures jobs[i] != jobs[j] {
        assert taken[i] == order[i] && taken[j] == order[j];
      }
    }
    forall job | job in jobs
      ensures multiset(jobs)[job] == 1 && IdOf(job) in taken && IdOf(job) == Id(job.root, job.sha)
    {
      OnceInDistinct(jobs, job);
      var i :| 0 <= i < |jobs| && jobs[i] == job;
      assert Outstanding(store, taken[i]);
      assert RepoKey(taken[i].key) == taken[i].key;
    }
  }

  /** A held job is still held once, for a commit that is still outstanding. */
  lemma {:induction false} HeldOnceStep(s: System, st: Step, job: Job)
    requires Enabled(s, st) && OneToOne(s) && !st.TakeRecoverable? && !st.Crash?
    requires Held(Apply(s, st), job) > 0
    ensures Held(Apply(s, st), job) == 1 && Outstanding(Apply(s, st).store, IdOf(job))
    ensures Held(s, job) > 0 || Adds(s, st, job)
  {
    JobsConserved(s, st, job);
    if Held(s, job) > 0 {
      assert Outstanding(s.store, IdOf(job));
      if !Outstanding(Apply(s, st).store, IdOf(job)) {
        NoLongerOutstanding(s, st, IdOf(job));
      }
    }
  }

  /** Disciplined steps keep the correspondence. */
  lemma {:induction false} OneToOneStep(s: System, st: Step)
    requires Enabled(s, st) && OneToOne(s) && s.recovery.Resending? && !st.Crash? && EntriesSound(s.store)
    ensures OneToOne(Apply(s, st))
  {
    var s' := Apply(s, st);
    NoneStuckStep(s, st);
    forall job | Held(s', job) > 0
      ensures Held(s', job) == 1 && Outstanding(s'.store, IdOf(job))
    {
      HeldOnceStep(s, st, job);
    }
    forall a, b | Held(s', a) > 0 && Held(s', b) > 0 && IdOf(a) == IdOf(b) ensures a == b {
      SameCommitSameJob(s, st, a, b);
    }
  }

  lemma {:induction false} SameCommitSameJob(s: System, st: Step, a: Job, b: Job)
    requires Enabled(s, st) && OneToOne(s) && !st.TakeRecoverable? && !st.Crash?
    requires Held(Apply(s, st), a) > 0 && Held(Apply(s, st), b) > 0 && IdOf(a) == IdOf(b)
    ensures a == b
  {
    HeldOnceStep(s, st, a);
    HeldOnceStep(s, st, b);
    assert Outstanding(s.store, IdOf(a)) ==> !Adds(s, st, a) && !Adds(s, st, b);
  }

  lemma ExactlyOnceStep(s: System, st: Step)
    requires Enabled(s, st) && ExactlyOnce(s) && RecoveryFirst(s, st)
    ensures ExactlyOnce(Apply(s, st))
  {
    EntriesStaySound(s, st);
    var s' := Apply(s, st);
    if st.Crash? {
    } else if st.TakeRecoverable? {
      TakeIsOneToOne(s, st.order);
    } else if s.recovery.Resending? {
      OneToOneStep(s, st);
    } else {
      forall job ensures Held(s', job) == 0 {
        JobsConserved(s, st, job);
      }
    }
  }

  /** If recovery takes first after every start, no run ever holds a commit twice or loses one. */
  lemma {:induction false} RecoveryFirstIsExactlyOnce(s: System, steps: seq<Step>)
    requires ExactlyOnce(s) && IsRun(s, steps) && Obeys(s, steps, RecoveryFirst)
    ensures Along(s, steps, ExactlyOnce)
    decreases |steps|
  {
    if steps != [] {
      ExactlyOnceStep(s, steps[0]);
      RecoveryFirstIsExactlyOnce(Apply(s, steps[0]), steps[1..]);
    }
  }

  // ------------------------------------------ recovery that does not take first

  /** Exactly when the correspondence survives recovery: nobody may hold a job when it takes. */
  lemma TakeIsOneToOneIff(s: System, order: seq<Id>)
    requires Enabled(s, TakeRecoverable(order)) && EntriesSound(s.store)
    ensures OneToOne(Apply(s, TakeRecoverable(order))) <==> NothingHeld(s)
  {
    if NothingHeld(s) {
      TakeIsOneToOne(s, order);
    } else {
      var s' := Apply(s, TakeRecoverable(order));
      var job :| Held(s, job) > 0;
      assert Held(s', job) > 0;
      if Outstanding(s'.store, IdOf(job)) {
        RecoverySplits(s.store, order, QUEUE_CAP);
        RecoveredOnce(s.store, order);
        var taken := Taken(order, QUEUE_CAP);
        var i :| 0 <= i < |taken| && taken[i] == IdOf(job);
        var again := RecoveredJobs(taken)[i];
        assert again in RecoveredJobs(taken);
        assert RecoveryHolds(s'.recovery, again) == 1;
        if again == job {
          assert Held(s', job) >= 2;
        }
      }
    }
  }

  /** A reachable state that holds one commit twice: a client enqueues before the spawned
      recovery task runs, and recovery then takes the commit it just scheduled. */
  lemma EarlyEnqueueIsSentTwice(root: string, sha: string, now: int)
    requires RepoKey(root) == root
    ensures var job := Job(root, sha);
            var steps := [EnqueueStep(job, now), TrySend(job), TakeRecoverable([IdOf(job)])];
            && IsRun(INITIAL, steps)
            && Exec(INITIAL, steps).channel == [job]
            && Exec(INITIAL, steps).recovery == Resending([job])
            && Held(Exec(INITIAL, steps), job) == 2
            && !OneToOne(Exec(INITIAL, steps))
  {
    var job := Job(root, sha);
    var id := IdOf(job);
    var s1 := Apply(INITIAL, EnqueueStep(job, now));
    assert forall x :: Lookup(INITIAL.store, x).None?;
    assert job in s1.sending;
    var s2 := Apply(s1, TrySend(job));
    assert s2.sending == multiset{};
    assert IsRecoveryOrder(s2.store, [id]);
    var take := TakeRecoverable([id]);
    var s3 := Apply(s2, take);
    assert RecoveredJobs([id]) == [job];
    assert IsRun(s3, []);
    assert IsRun(s2, [take]) && Exec(s2, [take]) == s3;
    assert [TrySend(job), take][1..] == [take];
    assert IsRun(s1, [TrySend(job), take]) && Exec(s1, [TrySend(job), take]) == s3;
    assert [EnqueueStep(job, now), TrySend(job), take][1..] == [TrySend(job), take];
    assert Held(s3, job) == 2;
  }
}
