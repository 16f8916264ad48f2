/** What happens to index files: conservation of paths, the grace period between eviction and
    deletion, and exactly when a file of a Ready commit is deleted. */
module IndexerFiles {
  import opened Common
  import opened Wrappers
  import opened IndexerStore
  import opened IndexerJobs
  import opened IndexerProtocol
  import opened IndexerExactlyOnce

  ghost predicate ReadyAt(store: IndexerState, id: Id, p: IndexPath) {
    IsReady(store, id) && Lookup(store, id).value.indexPath == Some(p)
  }

  /** Some Ready commit's index file is `p`. */
  ghost predicate ReadyPath(store: IndexerState, p: IndexPath) {
    exists id :: ReadyAt(store, id, p)
  }

  ghost predicate KeysIn(store: IndexerState, keys: iset<string>) {
    forall id :: Lookup(store, id).Some? ==> id.key in keys
  }

  // --------------------------------------------------------- every run

  /** Only these repositories are indexed. */
  ghost function Within(keys: iset<string>): (System, Step) -> bool {
    (s: System, st: Step) => st.EnqueueStep? ==> RepoKey(st.job.root) in keys
  }

  predicate WorksOnIndex(w: Worker) {
    w.Building? || w.Built? || w.BuildFailed?
  }

  /** What holds in every state of every run, whether or not recovery took first: entries are sound, every
      job is of one of these repositories, and the commit being built is not Ready. */
  ghost predicate Known(s: System, keys: iset<string>) {
    && EntriesSound(s.store) && KeysIn(s.store, keys)
    && (forall job :: Held(s, job) > 0 ==> RepoKey(job.root) in keys)
    && (WorksOnIndex(s.worker) ==> !IsReady(s.store, IdOf(s.worker.job)))
  }

  lemma {:induction false} KnownStep(s: System, st: Step, keys: iset<string>)
    requires Enabled(s, st) && Known(s, keys) && Within(keys)(s, st)
    ensures Known(Apply(s, st), keys)
  {
    EntriesStaySound(s, st);
    forall id | Lookup(Apply(s, st).store, id).Some? ensures id.key in keys {
      EntriesStayWithin(s, st, keys, id);
    }
    forall job | Held(Apply(s, st), job) > 0 ensures RepoKey(job.root) in keys {
      JobsStayWithin(s, st, keys, job);
    }
    BuildingIsNotReady(s, st);
  }

  lemma {:induction false} BuildingIsNotReady(s: System, st: Step)
    requires Enabled(s, st) && (WorksOnIndex(s.worker) ==> !IsReady(s.store, IdOf(s.worker.job)))
    ensures WorksOnIndex(Apply(s, st).worker) ==> !IsReady(Apply(s, st).store, IdOf(Apply(s, st).worker.job))
  {
    if st.TakeRecoverable? {
      if WorksOnIndex(s.worker) {
        DropAllLookup(s.store, Dropped(st.order, QUEUE_CAP), IdOf(s.worker.job));
      }
    }
  }

  lemma {:induction false} EntriesStayWithin(s: System, st: Step, keys: iset<string>, id: Id)
    requires Enabled(s, st) && KeysIn(s.store, keys) && Within(keys)(s, st)
    requires Lookup(Apply(s, st).store, id).Some?
    ensures id.key in keys
  {
    if st.TakeRecoverable? {
      DropAllLookup(s.store, Dropped(st.order, QUEUE_CAP), id);
    }
  }

  lemma {:induction false} JobsStayWithin(s: System, st: Step, keys: iset<string>, job: Job)
    requires Enabled(s, st) && Known(s, keys) && Within(keys)(s, st) && Held(Apply(s, st), job) > 0
    ensures RepoKey(job.root) in keys
  {
    if st.TakeRecoverable? {
      if Held(s, job) == 0 {
        RecoveredIsOutstanding(s.store, st.order, job);
      }
    } else if !st.Crash? {
      JobsConserved(s, st, job);
    }
  }

  lemma {:induction false} RecoveredIsOutstanding(store: IndexerState, order: seq<Id>, job: Job)
    requires EntriesSound(store) && IsRecoveryOrder(store, order)
    requires job in RecoveredJobs(Taken(order, QUEUE_CAP))
    ensures Outstanding(store, IdOf(job)) && RepoKey(job.root) == job.root
  {
    var taken := Taken(order, QUEUE_CAP);
    var i :| 0 <= i < |taken| && RecoveredJobs(taken)[i] == job;
    assert taken[i] == order[i] && order[i] in order;
    assert Outstanding(store, taken[i]);
  }

  /** What holds in disciplined runs holds in particular. */
  lemma {:induction false} SoundIsKnown(s: System, keys: iset<string>)
    requires Sound(s, keys)
    ensures Known(s, keys)
  {
    forall job | Held(s, job) > 0 ensures RepoKey(job.root) in keys {
      HeldIsOutstanding(s, job);
    }
    if WorksOnIndex(s.worker) {
      HeldIsOutstanding(s, s.worker.job);
    }
  }

  // ------------------------------------------------ when recovery takes first

  /** Recovery takes first, and only these repositories are indexed. */
  ghost function Disciplined(keys: iset<string>): (System, Step) -> bool {
    (s: System, st: Step) =>
      RecoveryFirst(s, st) && (st.EnqueueStep? ==> RepoKey(st.job.root) in keys)
  }

  /** The invariant of disciplined runs on which the file properties rest. */
  ghost predicate Sound(s: System, keys: iset<string>) {
    ExactlyOnce(s) && KeysIn(s.store, keys)
  }

  lemma {:induction false} SoundStep(s: System, st: Step, keys: iset<string>)
    requires Enabled(s, st) && Sound(s, keys) && Disciplined(keys)(s, st)
    ensures Sound(Apply(s, st), keys)
  {
    ExactlyOnceStep(s, st);
    if st.TakeRecoverable? {
      var dropped := Dropped(st.order, QUEUE_CAP);
      forall id ensures Lookup(DropAll(s.store, dropped), id).Some? <==> Lookup(s.store, id).Some? {
        DropAllLookup(s.store, dropped, id);
      }
    }
  }

  // -------------------------------------- which steps touch a Ready commit

  lemma HeldIsOutstanding(s: System, job: Job)
    requires ExactlyOnce(s) && Held(s, job) > 0
    ensures Outstanding(s.store, IdOf(job))
  {
  }

  /** Only mark_ready makes a commit Ready or takes that state away. */
  lemma {:induction false} ReadyUntouched(s: System, st: Step, id: Id)
    requires Enabled(s, st) && ExactlyOnce(s) && !st.MarkReadyStep?
    ensures IsReady(Apply(s, st).store, id) <==> IsReady(s.store, id)
    ensures IsReady(s.store, id) ==> Lookup(Apply(s, st).store, id) == Lookup(s.store, id)
  {
    if st.TakeRecoverable? {
      RecoverySplits(s.store, st.order, QUEUE_CAP);
    } else if st.RollBack? || st.StartBuild? || st.MarkBuildFailed? {
      UpdatesSpareReady(s, st, id);
    }
  }

  lemma {:induction false} UpdatesSpareReady(s: System, st: Step, id: Id)
    requires Enabled(s, st) && ExactlyOnce(s) && (st.RollBack? || st.StartBuild? || st.MarkBuildFailed?)
    ensures IsReady(Apply(s, st).store, id) <==> IsReady(s.store, id)
    ensures IsReady(s.store, id) ==> Lookup(Apply(s, st).store, id) == Lookup(s.store, id)
  {
    var job := if st.RollBack? then st.job else s.worker.job;
    HeldIsOutstanding(s, job);
  }

  lemma ReadyPathsUntouched(s: System, st: Step, p: IndexPath)
    requires Enabled(s, st) && ExactlyOnce(s) && !st.MarkReadyStep?
    ensures ReadyPath(Apply(s, st).store, p) <==> ReadyPath(s.store, p)
    ensures Apply(s, st).store.pendingUnlink == s.store.pendingUnlink
  {
    var s' := Apply(s, st);
    if ReadyPath(s.store, p) {
      var id :| ReadyAt(s.store, id, p);
      ReadyUntouched(s, st, id);
      assert ReadyAt(s'.store, id, p);
    }
    if ReadyPath(s'.store, p) {
      var id :| ReadyAt(s'.store, id, p);
      ReadyUntouched(s, st, id);
      assert ReadyAt(s.store, id, p);
    }
  }

  // ------------------------------------------------------ mark_ready, per path

  /** The entry of `id` after its build is recorded and before anything is evicted. */
  lemma MarkReadyEntries(s: System, st: Step, id: Id)
    requires Enabled(s, st) && st.MarkReadyStep?
    ensures var id0, p0 := IdOf(s.worker.job), IndexFilePath(s.worker.job);
            var s' := Apply(s, st);
            && (IsReady(s'.store, id) <==>
                  (IsReady(s.store, id) || (id == id0 && Lookup(s.store, id0).Some?)) &&
                  !(id.key == id0.key && id.sha in st.victims))
            && (IsReady(s'.store, id) ==>
                  Lookup(s'.store, id).value.indexPath ==
                  if id == id0 then Some(p0) else Lookup(s.store, id).value.indexPath)
  {
  }

  /** The path a victim of this step was evicted with. */
  function VictimPath(s: System, sha: string): Option<IndexPath>
    requires s.worker.Built?
  {
    var id0 := IdOf(s.worker.job);
    if sha == id0.sha then Some(IndexFilePath(s.worker.job))
    else if Lookup(s.store, Id(id0.key, sha)).Some? then Lookup(s.store, Id(id0.key, sha)).value.indexPath
    else None
  }

  lemma VictimsHavePaths(s: System, st: Step, sha: string)
    requires Enabled(s, st) && st.MarkReadyStep? && EntriesSound(s.store) && sha in st.victims
    ensures var id0, p0 := IdOf(s.worker.job), IndexFilePath(s.worker.job);
            var commits := WithReady(s.store, id0, p0, st.now);
            && sha in commits && commits[sha].indexPath == VictimPath(s, sha)
            && VictimPath(s, sha).Some? && Owns(Id(id0.key, sha), VictimPath(s, sha).value)
            && Lookup(s.store, Id(id0.key, sha)).Some?
            && (sha != id0.sha ==> ReadyAt(s.store, Id(id0.key, sha), VictimPath(s, sha).value))
  {
    JobOwnsItsPath(s.worker.job);
    assert sha in ReadyShas(WithReady(s.store, IdOf(s.worker.job), IndexFilePath(s.worker.job), st.now));
    assert Lookup(s.store, Id(IdOf(s.worker.job).key, sha)).Some?;
  }

  lemma {:induction false} EvictedPathsOnce(commits: map<string, CommitEntry>, victims: seq<string>, p: IndexPath)
    requires NoDuplicates(victims)
    requires forall v :: v in victims ==>
                           v in commits && commits[v].indexPath.Some? && commits[v].indexPath.value.sha == v
    ensures multiset(EvictedPaths(commits, victims))[p] ==
            if exists v :: v in victims && commits[v].indexPath == Some(p) then 1 else 0
  {
    if victims != [] {
      var rest := victims[1..];
      EvictedPathsOnce(commits, rest, p);
      assert victims == [victims[0]] + rest && victims[0] !in rest;
      var head := commits[victims[0]].indexPath.value;
      assert EvictedPaths(commits, victims) == [head] + EvictedPaths(commits, rest);
      if p == head {
        assert forall v :: v in rest ==> commits[v].indexPath != Some(p);
        assert victims[0] in victims && commits[victims[0]].indexPath == Some(p);
      }
    }
  }

  ghost predicate IsVictimPath(s: System, st: Step, p: IndexPath)
    requires st.MarkReadyStep? && s.worker.Built?
  {
    exists sha :: sha in st.victims && VictimPath(s, sha) == Some(p)
  }

  lemma PendingAfter(s: System, st: Step, p: IndexPath)
    requires Enabled(s, st) && st.MarkReadyStep? && EntriesSound(s.store)
    ensures multiset(Apply(s, st).store.pendingUnlink)[p] == if IsVictimPath(s, st, p) then 1 else 0
  {
    var id0, p0 := IdOf(s.worker.job), IndexFilePath(s.worker.job);
    var commits := WithReady(s.store, id0, p0, st.now);
    forall v | v in st.victims
      ensures v in commits && commits[v].indexPath == VictimPath(s, v)
      ensures commits[v].indexPath.Some? && commits[v].indexPath.value.sha == v
    {
      VictimsHavePaths(s, st, v);
    }
    EvictedPathsOnce(commits, st.victims, p);
  }

  /** A step other than mark_ready makes no path Ready and stashes none. */
  lemma {:induction false} ReadyPathsShrink(s: System, st: Step, p: IndexPath)
    requires Enabled(s, st) && !st.MarkReadyStep?
    ensures ReadyPath(Apply(s, st).store, p) ==> ReadyPath(s.store, p)
    ensures Apply(s, st).store.pendingUnlink == s.store.pendingUnlink
  {
    if ReadyPath(Apply(s, st).store, p) {
      var id :| ReadyAt(Apply(s, st).store, id, p);
      ReadyBefore(s, st, id, p);
    }
  }

  lemma {:induction false} ReadyBefore(s: System, st: Step, id: Id, p: IndexPath)
    requires Enabled(s, st) && !st.MarkReadyStep? && ReadyAt(Apply(s, st).store, id, p)
    ensures ReadyAt(s.store, id, p)
  {
    if st.TakeRecoverable? {
      DropAllLookup(s.store, Dropped(st.order, QUEUE_CAP), id);
    }
  }

  /** mark_ready in any run: what it leaves Ready and what it stashes are different paths, and both were
      Ready before, or are the one just built, if its commit still has an entry. */
  lemma {:induction false} MarkReadyPaths(s: System, st: Step, keys: iset<string>, p: IndexPath)
    requires Enabled(s, st) && st.MarkReadyStep? && Known(s, keys) && SlugsSeparate(keys)
    ensures var s' := Apply(s, st);
            && !(ReadyPath(s'.store, p) && IsVictimPath(s, st, p))
            && (ReadyPath(s'.store, p) || IsVictimPath(s, st, p) ==>
                  || ReadyPath(s.store, p)
                  || (p == IndexFilePath(s.worker.job) && Lookup(s.store, IdOf(s.worker.job)).Some?))
  {
    var id0, s' := IdOf(s.worker.job), Apply(s, st);
    EntriesStaySound(s, st);
    assert id0.key in keys by {
      assert Held(s, s.worker.job) > 0;
    }
    if IsVictimPath(s, st, p) {
      var sha :| sha in st.victims && VictimPath(s, sha) == Some(p);
      VictimsHavePaths(s, st, sha);
      if ReadyPath(s'.store, p) {
        var id :| ReadyAt(s'.store, id, p);
        MarkReadyEntries(s, st, id);
        assert Lookup(s.store, id).Some?;
        OwnerIsUnique(keys, id, Id(id0.key, sha), p);
      }
    }
    if ReadyPath(s'.store, p) {
      var id :| ReadyAt(s'.store, id, p);
      MarkReadyEntries(s, st, id);
      assert id == id0 || ReadyAt(s.store, id, p);
    }
  }

  /** mark_ready splits the Ready paths, its own included, into those that stay and those that
      it stashes for deletion. */
  lemma MarkReadySplitsPaths(s: System, st: Step, keys: iset<string>, p: IndexPath)
    requires Enabled(s, st) && st.MarkReadyStep? && Sound(s, keys) && SlugsSeparate(keys)
    ensures var p0 := IndexFilePath(s.worker.job);
            var s' := Apply(s, st);
            && !(ReadyPath(s.store, p) && p == p0)
            && !(ReadyPath(s'.store, p) && IsVictimPath(s, st, p))
            && (ReadyPath(s.store, p) || p == p0 <==> ReadyPath(s'.store, p) || IsVictimPath(s, st, p))
  {
    var id0, p0 := IdOf(s.worker.job), IndexFilePath(s.worker.job);
    var s' := Apply(s, st);
    HeldIsOutstanding(s, s.worker.job);
    JobOwnsItsPath(s.worker.job);
    SoundIsKnown(s, keys);
    MarkReadyPaths(s, st, keys, p);
    if ReadyPath(s.store, p) {
      var id :| ReadyAt(s.store, id, p);
      MarkReadyEntries(s, st, id);
      if p == p0 {
        OwnerIsUnique(keys, id, id0, p);
      }
      if id.key == id0.key && id.sha in st.victims {
        assert VictimPath(s, id.sha) == Some(p);
      } else {
        assert ReadyAt(s'.store, id, p);
      }
    }
    if p == p0 {
      MarkReadyEntries(s, st, id0);
      if id0.sha in st.victims {
        assert VictimPath(s, id0.sha) == Some(p);
      } else {
        assert ReadyAt(s'.store, id0, p);
      }
    }
  }

  // ---------------------------------------------------------- conservation

  /** Each time `p` was made Ready it is Ready now, waits for deletion, or was handed back. */
  ghost predicate PathConserved(s: System, p: IndexPath) {
    s.made[p] == (if ReadyPath(s.store, p) then 1 else 0) + multiset(s.store.pendingUnlink)[p] + s.handed[p]
  }

  ghost predicate Conserved(s: System) {
    forall p :: PathConserved(s, p)
  }

  lemma MarkReadyConserves(s: System, st: Step, keys: iset<string>, p: IndexPath)
    requires Enabled(s, st) && st.MarkReadyStep? && Sound(s, keys) && SlugsSeparate(keys) && PathConserved(s, p)
    ensures PathConserved(Apply(s, st), p)
  {
    var p0 := IndexFilePath(s.worker.job);
    var s' := Apply(s, st);
    HeldIsOutstanding(s, s.worker.job);
    MarkReadySplitsPaths(s, st, keys, p);
    PendingAfter(s, st, p);
    assert s'.made[p] == s.made[p] + if p == p0 then 1 else 0;
    assert s'.handed[p] == s.handed[p] + multiset(s.store.pendingUnlink)[p];
  }

  lemma ConservedStep(s: System, st: Step, keys: iset<string>)
    requires Enabled(s, st) && Sound(s, keys) && SlugsSeparate(keys) && Conserved(s)
    ensures Conserved(Apply(s, st))
  {
    forall p ensures PathConserved(Apply(s, st), p) {
      assert PathConserved(s, p);
      if st.MarkReadyStep? {
        MarkReadyConserves(s, st, keys, p);
      } else {
        ReadyPathsUntouched(s, st, p);
      }
    }
  }

  /** Conservation of index files over every disciplined run, crashes included. */
  lemma {:induction false} FilesConserved(s: System, steps: seq<Step>, keys: iset<string>)
    requires IsRun(s, steps) && Obeys(s, steps, Disciplined(keys)) && SlugsSeparate(keys)
    requires Sound(s, keys) && Conserved(s)
    ensures Along(s, steps, Conserved)
    decreases |steps|
  {
    if steps != [] {
      SoundStep(s, steps[0], keys);
      ConservedStep(s, steps[0], keys);
      FilesConserved(Apply(s, steps[0]), steps[1..], keys);
    }
  }

  /** The grace period: what one mark_ready evicts is exactly what the next one hands back, no
      matter what happens in between, a crash and restart included. */
  lemma {:induction false} GracePeriod(s: System, between: seq<Step>)
    requires IsRun(s, between) && forall st :: st in between ==> !st.MarkReadyStep?
    ensures Exec(s, between).store.pendingUnlink == s.store.pendingUnlink
    decreases |between|
  {
    if between != [] {
      assert between == [between[0]] + between[1..];
      GracePeriod(Apply(s, between[0]), between[1..]);
    }
  }
}
