/** When deleting evicted files is safe: over every run the exact condition, a guard that guarantees it,
    and how long a file that a query has resolved can still be read. */
module IndexerFileSafety {
  import opened Wrappers
  import opened IndexerStore
  import opened IndexerJobs
  import opened IndexerProtocol
  import opened IndexerExactlyOnce
  import opened IndexerFiles

  /** No file that is about to be deleted, or is missing, belongs to a Ready commit. */
  ghost predicate Safe(s: System) {
    && (forall p :: ReadyPath(s.store, p) ==> p in s.files)
    && (s.worker.Deleting? ==> forall p :: p in s.worker.ripe ==> !ReadyPath(s.store, p))
  }

  /** mark_ready of a rebuilt commit whose file still waits for deletion from its last eviction. The
      second copy of a job whose commit has lost its entry makes nothing Ready and is none. */
  predicate Reuses(s: System, st: Step) {
    && st.MarkReadyStep? && s.worker.Built?
    && Lookup(s.store, IdOf(s.worker.job)).Some?
    && IndexFilePath(s.worker.job) in s.store.pendingUnlink
    && s.worker.job.sha !in st.victims
  }

  ghost predicate FilesApart(s: System) {
    && Safe(s)
    && (forall p :: p in s.store.pendingUnlink ==> !ReadyPath(s.store, p))
    && (s.worker.Built? ==> IndexFilePath(s.worker.job) in s.files)
  }

  /** The file that a build writes, or that a failing build removes, belongs to no Ready commit. */
  lemma {:induction false} OwnPathNotReady(s: System, keys: iset<string>)
    requires Known(s, keys) && SlugsSeparate(keys) && WorksOnIndex(s.worker)
    ensures !ReadyPath(s.store, IndexFilePath(s.worker.job))
  {
    var job := s.worker.job;
    assert Held(s, job) > 0;
    JobOwnsItsPath(job);
    if ReadyPath(s.store, IndexFilePath(job)) {
      var id :| ReadyAt(s.store, id, IndexFilePath(job));
      OwnerIsUnique(keys, id, IdOf(job), IndexFilePath(job));
    }
  }

  lemma {:induction false} MarkReadyKeepsApart(s: System, st: Step, keys: iset<string>)
    requires Enabled(s, st) && Known(s, keys) && SlugsSeparate(keys) && FilesApart(s)
    requires st.MarkReadyStep? && !Reuses(s, st)
    ensures FilesApart(Apply(s, st))
  {
    var s' := Apply(s, st);
    forall p
      ensures p in s'.store.pendingUnlink ==> !ReadyPath(s'.store, p)
      ensures ReadyPath(s'.store, p) ==> p in s.files && p !in s.store.pendingUnlink
    {
      MarkReadyPaths(s, st, keys, p);
      PendingAfter(s, st, p);
      if p == IndexFilePath(s.worker.job) && s.worker.job.sha in st.victims {
        assert VictimPath(s, s.worker.job.sha) == Some(p);
      }
    }
  }

  /** A step other than mark_ready removes a file only if its build fails or it is being deleted. */
  lemma {:induction false} StaysOnDisk(s: System, st: Step, p: IndexPath)
    requires Enabled(s, st) && !st.MarkReadyStep? && p in s.files
    requires st.BuildFails? ==> p != IndexFilePath(s.worker.job)
    requires st.DeleteNext? ==> p !in s.worker.ripe
    ensures p in Apply(s, st).files
  {
  }

  lemma {:induction false} OwnFileBuilt(s: System, st: Step)
    requires Enabled(s, st) && !st.MarkReadyStep? && Apply(s, st).worker.Built?
    requires s.worker.Built? ==> IndexFilePath(s.worker.job) in s.files
    ensures IndexFilePath(Apply(s, st).worker.job) in Apply(s, st).files
  {
  }

  lemma {:induction false} RipeShrinks(s: System, st: Step, p: IndexPath)
    requires Enabled(s, st) && !st.MarkReadyStep? && Apply(s, st).worker.Deleting? && p in Apply(s, st).worker.ripe
    ensures s.worker.Deleting? && p in s.worker.ripe
  {
  }

  lemma {:induction false} FilesApartStep(s: System, st: Step, keys: iset<string>)
    requires Enabled(s, st) && Known(s, keys) && SlugsSeparate(keys) && FilesApart(s)
    requires !Reuses(s, st)
    ensures FilesApart(Apply(s, st))
  {
    if st.MarkReadyStep? {
      MarkReadyKeepsApart(s, st, keys);
    } else {
      if Apply(s, st).worker.Built? {
        OwnFileBuilt(s, st);
      }
      forall p
        ensures ReadyPath(Apply(s, st).store, p) ==> p in Apply(s, st).files
        ensures p in Apply(s, st).store.pendingUnlink ==> !ReadyPath(Apply(s, st).store, p)
        ensures Apply(s, st).worker.Deleting? && p in Apply(s, st).worker.ripe ==> !ReadyPath(Apply(s, st).store, p)
      {
        PathStaysApart(s, st, keys, p);
      }
    }
  }

  lemma {:induction false} PathStaysApart(s: System, st: Step, keys: iset<string>, p: IndexPath)
    requires Enabled(s, st) && Known(s, keys) && SlugsSeparate(keys) && FilesApart(s) && !st.MarkReadyStep?
    ensures var s' := Apply(s, st);
            ReadyPath(s'.store, p) ==> p in s'.files && p !in s'.store.pendingUnlink &&
                                       (s'.worker.Deleting? ==> p !in s'.worker.ripe)
  {
    ReadyPathsShrink(s, st, p);
    if ReadyPath(Apply(s, st).store, p) {
      if st.BuildFails? {
        OwnPathNotReady(s, keys);
      }
      StaysOnDisk(s, st, p);
      if Apply(s, st).worker.Deleting? && p in Apply(s, st).worker.ripe {
        RipeShrinks(s, st, p);
        assert false;
      }
    }
  }

  /** Reuse is unsafe at once: the rebuilt commit's file is in the list being deleted. */
  lemma ReuseIsUnsafe(s: System, st: Step)
    requires Enabled(s, st) && Reuses(s, st)
    ensures !Safe(Apply(s, st))
  {
    var id0, p0 := IdOf(s.worker.job), IndexFilePath(s.worker.job);
    MarkReadyEntries(s, st, id0);
    assert ReadyAt(Apply(s, st).store, id0, p0);
  }

  ghost predicate NoReuse(s: System, st: Step) {
    !Reuses(s, st)
  }

  /** The exact condition, for every run: no file of a Ready commit is deleted, in any of its states, if
      and only if no commit is made Ready while its path still waits for deletion. */
  lemma {:induction false} SafeIffNoReuse(s: System, steps: seq<Step>, keys: iset<string>)
    requires IsRun(s, steps) && Obeys(s, steps, Within(keys)) && SlugsSeparate(keys)
    requires Known(s, keys) && FilesApart(s)
    ensures Along(s, steps, Safe) <==> Obeys(s, steps, NoReuse)
    decreases |steps|
  {
    if steps != [] {
      var st, s' := steps[0], Apply(s, steps[0]);
      if Reuses(s, st) {
        ReuseIsUnsafe(s, st);
        assert !Along(s', steps[1..], Safe);
      } else {
        KnownStep(s, st, keys);
        FilesApartStep(s, st, keys);
        SafeIffNoReuse(s', steps[1..], keys);
      }
    }
  }

  // --------------------------------------------------- a guard at the enqueue

  /** No commit is enqueued while one of its files waits for deletion. */
  ghost function Guarded(keys: iset<string>): (System, Step) -> bool {
    (s: System, st: Step) =>
      Within(keys)(s, st) &&
      (st.EnqueueStep? ==> forall p :: p in s.store.pendingUnlink ==> !Owns(IdOf(st.job), p))
  }

  /** The commits whose files wait for deletion have lost their entries. */
  ghost predicate StashUnowned(s: System) {
    forall id, p :: p in s.store.pendingUnlink && Owns(id, p) ==> Lookup(s.store, id).None?
  }

  lemma {:induction false} EvictedHasNoEntry(s: System, st: Step, keys: iset<string>, id: Id, p: IndexPath)
    requires Enabled(s, st) && st.MarkReadyStep? && Known(s, keys) && SlugsSeparate(keys)
    requires p in Apply(s, st).store.pendingUnlink && Owns(id, p)
    ensures Lookup(Apply(s, st).store, id).None?
  {
    PendingAfter(s, st, p);
    assert IsVictimPath(s, st, p);
    var sha :| sha in st.victims && VictimPath(s, sha) == Some(p);
    VictimsHavePaths(s, st, sha);
    if Lookup(s.store, id).Some? {
      OwnerIsUnique(keys, id, Id(IdOf(s.worker.job).key, sha), p);
    }
  }

  /** A commit gets an entry only by an enqueue and loses it only by an eviction, and a recorded path
      changes only in mark_ready. */
  lemma {:induction false} EntriesKept(s: System, st: Step, id: Id)
    requires Enabled(s, st) && !st.MarkReadyStep?
    ensures var e, e' := Lookup(s.store, id), Lookup(Apply(s, st).store, id);
            && (e'.Some? <==> e.Some? || (st.EnqueueStep? && id == IdOf(st.job)))
            && (e'.Some? && e'.value.indexPath.Some? ==> e.Some? && e'.value.indexPath == e.value.indexPath)
  {
    match st {
      case EnqueueStep(_, _) =>
      case RollBack(_, _) =>
      case StartBuild =>
      case MarkBuildFailed =>
      case TakeRecoverable(order) => DropAllLookup(s.store, Dropped(order, QUEUE_CAP), id);
      case _ =>
    }
  }

  lemma {:induction false} StashUntouched(s: System, st: Step)
    requires Enabled(s, st) && !st.MarkReadyStep?
    ensures Apply(s, st).store.pendingUnlink == s.store.pendingUnlink
  {
  }

  lemma {:induction false} StashUnownedStep(s: System, st: Step, keys: iset<string>)
    requires Enabled(s, st) && Known(s, keys) && SlugsSeparate(keys) && StashUnowned(s)
    requires Guarded(keys)(s, st)
    ensures StashUnowned(Apply(s, st))
  {
    forall id, p | p in Apply(s, st).store.pendingUnlink && Owns(id, p)
      ensures Lookup(Apply(s, st).store, id).None?
    {
      if st.MarkReadyStep? {
        EvictedHasNoEntry(s, st, keys, id, p);
      } else {
        StashUntouched(s, st);
        EntriesKept(s, st, id);
      }
    }
  }

  lemma GuardNeverReuses(s: System, st: Step)
    requires Enabled(s, st) && StashUnowned(s)
    ensures !Reuses(s, st)
  {
    if st.MarkReadyStep? {
      JobOwnsItsPath(s.worker.job);
    }
  }

  /** What guarded runs keep. */
  ghost predicate Unmixed(s: System, keys: iset<string>) {
    Known(s, keys) && FilesApart(s) && StashUnowned(s)
  }

  lemma {:induction false} UnmixedStep(s: System, st: Step, keys: iset<string>)
    requires Enabled(s, st) && SlugsSeparate(keys) && Unmixed(s, keys) && Guarded(keys)(s, st)
    ensures Unmixed(Apply(s, st), keys)
  {
    GuardNeverReuses(s, st);
    KnownStep(s, st, keys);
    FilesApartStep(s, st, keys);
    StashUnownedStep(s, st, keys);
  }

  /** With the guard, every state of every run is safe. */
  lemma {:induction false} GuardedRunsAreSafe(s: System, steps: seq<Step>, keys: iset<string>)
    requires IsRun(s, steps) && Obeys(s, steps, Guarded(keys)) && SlugsSeparate(keys) && Unmixed(s, keys)
    ensures Along(s, steps, Safe) && Unmixed(Exec(s, steps), keys)
    decreases |steps|
  {
    if steps != [] {
      UnmixedStep(s, steps[0], keys);
      GuardedRunsAreSafe(Apply(s, steps[0]), steps[1..], keys);
    }
  }

  // ------------------------------------------------------- the grace period

  /** A build of `p` fails and leaves no file. */
  predicate FailsOn(s: System, st: Step, p: IndexPath) {
    st.BuildFails? && !st.leavesFile && s.worker.Building? && IndexFilePath(s.worker.job) == p
  }

  ghost function Spares(p: IndexPath): (System, Step) -> bool {
    (s: System, st: Step) => !FailsOn(s, st, p)
  }

  function MarkReadySteps(steps: seq<Step>): nat {
    if steps == [] then 0 else (if steps[0].MarkReadyStep? then 1 else 0) + MarkReadySteps(steps[1..])
  }

  ghost function OnDisk(p: IndexPath): System -> bool {
    (s: System) => p in s.files
  }

  /** `p` is on disk, and not among the files now being deleted. */
  ghost predicate Readable(s: System, p: IndexPath) {
    p in s.files && (s.worker.Deleting? ==> p !in s.worker.ripe)
  }

  lemma {:induction false} ReadyIsReadable(s: System, p: IndexPath)
    requires FilesApart(s) && ReadyPath(s.store, p)
    ensures Readable(s, p) && p !in s.store.pendingUnlink
  {
  }

  lemma {:induction false} StaysReadable(s: System, st: Step, p: IndexPath)
    requires Enabled(s, st) && Readable(s, p) && (st.MarkReadyStep? ==> p !in s.store.pendingUnlink)
    requires !FailsOn(s, st, p)
    ensures Readable(Apply(s, st), p)
  {
  }

  /** The grace period, exactly and for every run: a file that a query resolved while its commit was
      Ready, as ReadyIsReadable says, stays on disk until the second mark_ready after that, and one in the
      stash until the next, if and only if no build of the same path fails in the meantime. */
  lemma {:induction false} GraceIff(s: System, steps: seq<Step>, p: IndexPath)
    requires IsRun(s, steps) && Readable(s, p)
    requires MarkReadySteps(steps) <= if p in s.store.pendingUnlink then 0 else 1
    ensures Along(s, steps, OnDisk(p)) <==> Obeys(s, steps, Spares(p))
    decreases |steps|
  {
    if steps != [] {
      var st, s' := steps[0], Apply(s, steps[0]);
      if FailsOn(s, st, p) {
        assert !Along(s', steps[1..], OnDisk(p));
      } else {
        StaysReadable(s, st, p);
        if !st.MarkReadyStep? {
          StashUntouched(s, st);
        }
        GraceIff(s', steps[1..], p);
      }
    }
  }

  /** Whatever waits for deletion is on disk, and the deletions under way spare it. */
  ghost predicate StashKept(s: System) {
    forall p :: p in s.store.pendingUnlink ==> Readable(s, p)
  }

  /** A failing build removes a file that still waits for deletion. */
  predicate FailsOnStash(s: System, st: Step) {
    st.BuildFails? && s.worker.Building? && FailsOn(s, st, IndexFilePath(s.worker.job)) &&
    IndexFilePath(s.worker.job) in s.store.pendingUnlink
  }

  lemma {:induction false} EvictedIsKept(s: System, st: Step, keys: iset<string>, p: IndexPath)
    requires Enabled(s, st) && st.MarkReadyStep? && SlugsSeparate(keys) && Unmixed(s, keys)
    requires p in Apply(s, st).store.pendingUnlink
    ensures p in s.files && p !in s.store.pendingUnlink
  {
    PendingAfter(s, st, p);
    assert IsVictimPath(s, st, p);
    MarkReadyPaths(s, st, keys, p);
    JobOwnsItsPath(s.worker.job);
  }

  lemma {:induction false} StashKeptStep(s: System, st: Step, keys: iset<string>)
    requires Enabled(s, st) && SlugsSeparate(keys) && Unmixed(s, keys) && StashKept(s) && !FailsOnStash(s, st)
    ensures StashKept(Apply(s, st))
  {
    forall p | p in Apply(s, st).store.pendingUnlink ensures Readable(Apply(s, st), p) {
      if st.MarkReadyStep? {
        EvictedIsKept(s, st, keys, p);
      } else {
        StashUntouched(s, st);
        StaysReadable(s, st, p);
      }
    }
  }

  ghost predicate SparesStash(s: System, st: Step) {
    !FailsOnStash(s, st)
  }

  /** In every state of a guarded run every path that waits for deletion can still be read, if and only if
      no failing build removes one. */
  lemma {:induction false} StashKeptIff(s: System, steps: seq<Step>, keys: iset<string>)
    requires IsRun(s, steps) && Obeys(s, steps, Guarded(keys)) && SlugsSeparate(keys)
    requires Unmixed(s, keys) && StashKept(s)
    ensures Along(s, steps, StashKept) <==> Obeys(s, steps, SparesStash)
    decreases |steps|
  {
    if steps != [] {
      var st, s' := steps[0], Apply(s, steps[0]);
      if FailsOnStash(s, st) {
        assert IndexFilePath(s.worker.job) in s'.store.pendingUnlink && !StashKept(s');
        assert !Along(s', steps[1..], StashKept);
      } else {
        UnmixedStep(s, st, keys);
        StashKeptStep(s, st, keys);
        StashKeptIff(s', steps[1..], keys);
      }
    }
  }

  // ----------------------------------------------- with recovery taking first

  /** Guarded, and recovery takes first. */
  ghost function Careful(keys: iset<string>): (System, Step) -> bool {
    (s: System, st: Step) => Guarded(keys)(s, st) && RecoveryFirst(s, st)
  }

  /** What careful runs keep. */
  ghost predicate Tidy(s: System, keys: iset<string>) {
    Sound(s, keys) && FilesApart(s) && StashUnowned(s) && StashKept(s)
  }

  lemma {:induction false} TidyStep(s: System, st: Step, keys: iset<string>)
    requires Enabled(s, st) && SlugsSeparate(keys) && Tidy(s, keys) && Careful(keys)(s, st)
    ensures Tidy(Apply(s, st), keys)
  {
    SoundIsKnown(s, keys);
    UnmixedStep(s, st, keys);
    SoundStep(s, st, keys);
    if FailsOnStash(s, st) {
      HeldIsOutstanding(s, s.worker.job);
      JobOwnsItsPath(s.worker.job);
    }
    StashKeptStep(s, st, keys);
  }

  /** Then no build removes a file that waits for deletion: all of them can be read in every state. */
  lemma {:induction false} StashStaysKept(s: System, steps: seq<Step>, keys: iset<string>)
    requires IsRun(s, steps) && Obeys(s, steps, Careful(keys)) && SlugsSeparate(keys) && Tidy(s, keys)
    ensures Along(s, steps, StashKept) && Tidy(Exec(s, steps), keys)
    decreases |steps|
  {
    if steps != [] {
      TidyStep(s, steps[0], keys);
      StashStaysKept(Apply(s, steps[0]), steps[1..], keys);
    }
  }

  /** And a file resolved while Ready is readable until the second mark_ready after that, whatever else is
      built, evicted, deleted or restarted; one in the stash is until the next. */
  lemma {:induction false} GraceHolds(s: System, steps: seq<Step>, keys: iset<string>, p: IndexPath)
    requires IsRun(s, steps) && Obeys(s, steps, Careful(keys)) && SlugsSeparate(keys) && Tidy(s, keys)
    requires || (ReadyPath(s.store, p) && MarkReadySteps(steps) <= 1)
             || (p in s.store.pendingUnlink && MarkReadySteps(steps) == 0)
    ensures Along(s, steps, OnDisk(p))
    decreases |steps|
  {
    if steps != [] {
      var st := steps[0];
      TidyStep(s, st, keys);
      if st.MarkReadyStep? {
        MarkReadySplitsPaths(s, st, keys, p);
        PendingAfter(s, st, p);
      } else {
        ReadyPathsUntouched(s, st, p);
      }
      GraceHolds(Apply(s, st), steps[1..], keys, p);
    }
  }

  /** Every path ever made Ready is, for its last use, in exactly one place. */
  ghost predicate InOnePlace(s: System) {
    forall p :: (if ReadyPath(s.store, p) then 1 else 0) + multiset(s.store.pendingUnlink)[p] <= 1
                && s.handed[p] <= s.made[p] <= s.handed[p] + 1
  }

  ghost predicate PendingOnce(s: System) {
    forall p :: multiset(s.store.pendingUnlink)[p] <= 1
  }

  ghost predicate SafeAndInOnePlace(s: System) {
    Safe(s) && InOnePlace(s)
  }

  lemma {:induction false} ConservedInOnePlace(s: System)
    requires FilesApart(s) && Conserved(s) && PendingOnce(s)
    ensures InOnePlace(s)
  {
    forall p
      ensures (if ReadyPath(s.store, p) then 1 else 0) + multiset(s.store.pendingUnlink)[p] <= 1
      ensures s.handed[p] <= s.made[p] <= s.handed[p] + 1
    {
      assert PathConserved(s, p);
      assert p in multiset(s.store.pendingUnlink) <==> p in s.store.pendingUnlink;
    }
  }

  /** Each use of a path is then handed back at most once, too. */
  lemma {:induction false} CarefulRunsAreSafe(s: System, steps: seq<Step>, keys: iset<string>)
    requires IsRun(s, steps) && Obeys(s, steps, Careful(keys)) && SlugsSeparate(keys)
    requires Tidy(s, keys) && Conserved(s) && PendingOnce(s)
    ensures Along(s, steps, SafeAndInOnePlace)
    decreases |steps|
  {
    ConservedInOnePlace(s);
    if steps != [] {
      var st, s' := steps[0], Apply(s, steps[0]);
      TidyStep(s, st, keys);
      ConservedStep(s, st, keys);
      PendingOnceStep(s, st);
      CarefulRunsAreSafe(s', steps[1..], keys);
    }
  }

  lemma PendingOnceStep(s: System, st: Step)
    requires Enabled(s, st) && EntriesSound(s.store) && PendingOnce(s)
    ensures PendingOnce(Apply(s, st))
  {
    forall p ensures multiset(Apply(s, st).store.pendingUnlink)[p] <= 1 {
      if st.MarkReadyStep? {
        PendingAfter(s, st, p);
      } else {
        StashUntouched(s, st);
      }
    }
  }

  /** The first start of the indexer meets every assumption of the theorems above. */
  lemma InitiallySafe(keys: iset<string>)
    ensures Known(INITIAL, keys) && Sound(INITIAL, keys) && FilesApart(INITIAL) && StashUnowned(INITIAL)
    ensures Conserved(INITIAL) && PendingOnce(INITIAL) && StashKept(INITIAL)
  {
    assert forall p :: !ReadyPath(INITIAL.store, p);
  }
}
