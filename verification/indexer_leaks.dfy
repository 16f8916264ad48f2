/** Files that stay on disk although nothing will ever delete them: exactly which steps cause that, a
    discipline under which nothing leaks, and the two runs in which a file does. */
module IndexerLeaks {
  import opened Wrappers
  import opened IndexerStore
  import opened IndexerJobs
  import opened IndexerProtocol
  import opened IndexerExactlyOnce
  import opened IndexerFiles
  import opened IndexerFileSafety
  import opened IndexerTraces

  /** `p` is on disk but in no list from which it could still be deleted. */
  ghost predicate Leaked(s: System, p: IndexPath) {
    && p in s.files && p !in s.store.pendingUnlink
    && (s.worker.Deleting? ==> p !in s.worker.ripe)
    && (forall id :: Owns(id, p) ==> Lookup(s.store, id).None?)
  }

  /** Nobody holds a job of a commit that `p` belongs to. */
  ghost predicate NoJobFor(s: System, p: IndexPath) {
    forall job :: Held(s, job) > 0 ==> !Owns(IdOf(job), p)
  }

  /** A leaked file that no job at hand is for stays for ever, unless its commit is enqueued again. */
  lemma {:induction false} LeakedForever(s: System, steps: seq<Step>, p: IndexPath)
    requires EntriesSound(s.store) && Leaked(s, p) && NoJobFor(s, p) && IsRun(s, steps)
    requires forall st :: st in steps && st.EnqueueStep? ==> !Owns(IdOf(st.job), p)
    ensures Leaked(Exec(s, steps), p)
    decreases |steps|
  {
    if steps != [] {
      var st := steps[0];
      assert st in steps;
      LeakedStep(s, st, p);
      NoJobStep(s, st, p);
      EntriesStaySound(s, st);
      assert steps == [st] + steps[1..];
      LeakedForever(Apply(s, st), steps[1..], p);
    }
  }

  lemma {:induction false} LeakedStep(s: System, st: Step, p: IndexPath)
    requires Enabled(s, st) && EntriesSound(s.store) && Leaked(s, p) && NoJobFor(s, p)
    requires st.EnqueueStep? ==> !Owns(IdOf(st.job), p)
    ensures Leaked(Apply(s, st), p)
  {
    if st.MarkReadyStep? {
      LeakedSurvivesMarkReady(s, st, p);
    } else {
      forall id ensures Owns(id, p) ==> Lookup(Apply(s, st).store, id).None? {
        EntriesKept(s, st, id);
      }
      if st.BuildFails? {
        assert Held(s, s.worker.job) > 0;
        JobOwnsItsPath(s.worker.job);
      }
      StashUntouched(s, st);
    }
  }

  lemma {:induction false} NoJobStep(s: System, st: Step, p: IndexPath)
    requires Enabled(s, st) && EntriesSound(s.store) && Leaked(s, p) && NoJobFor(s, p)
    requires st.EnqueueStep? ==> !Owns(IdOf(st.job), p)
    ensures NoJobFor(Apply(s, st), p)
  {
    forall job | Held(Apply(s, st), job) > 0 ensures !Owns(IdOf(job), p) {
      if st.TakeRecoverable? {
        if Held(s, job) == 0 {
          RecoveredIsOutstanding(s.store, st.order, job);
        }
      } else if !st.Crash? {
        JobsConserved(s, st, job);
      }
    }
  }

  lemma {:induction false} LeakedSurvivesMarkReady(s: System, st: Step, p: IndexPath)
    requires Enabled(s, st) && EntriesSound(s.store) && Leaked(s, p) && st.MarkReadyStep?
    ensures Leaked(Apply(s, st), p)
  {
    PendingAfter(s, st, p);
    forall sha | sha in st.victims ensures VictimPath(s, sha) != Some(p) {
      VictimsHavePaths(s, st, sha);
    }
  }

  // ------------------------------------------------------ what causes a leak

  /** A crash loses the list of a deletion under way with `p` in it. */
  ghost predicate LostInCrash(s: System, st: Step, p: IndexPath) {
    && st.Crash? && s.worker.Deleting? && p in s.worker.ripe
    && forall id :: Owns(id, p) ==> Lookup(s.store, id).None?
  }

  /** The commit that `p` belongs to is evicted with its file under the other spelling of the root. */
  ghost predicate EvictedElsewhere(s: System, st: Step, p: IndexPath) {
    && st.MarkReadyStep? && s.worker.Built?
    && exists sha :: sha in st.victims && Owns(Id(IdOf(s.worker.job).key, sha), p) && VictimPath(s, sha) != Some(p)
  }

  /** A build writes `p` although its commit has no entry any more, which is what happens to the second
      copy of a job if the first has been built and evicted. */
  ghost predicate BuiltForNobody(s: System, st: Step, p: IndexPath) {
    && (st.BuildSucceeds? || (st.BuildFails? && st.leavesFile)) && s.worker.Building?
    && p == IndexFilePath(s.worker.job) && Lookup(s.store, IdOf(s.worker.job)).None?
  }

  ghost predicate LeakCause(s: System, st: Step, p: IndexPath) {
    p !in s.store.pendingUnlink &&
    (BuiltForNobody(s, st, p) || (p in s.files && (LostInCrash(s, st, p) || EvictedElsewhere(s, st, p))))
  }

  lemma {:induction false} LeaksInStepIff(s: System, st: Step, keys: iset<string>, p: IndexPath)
    requires Enabled(s, st) && Known(s, keys) && SlugsSeparate(keys) && !Leaked(s, p)
    ensures Leaked(Apply(s, st), p) <==> LeakCause(s, st, p)
  {
    if st.MarkReadyStep? {
      LeaksInMarkReadyIff(s, st, keys, p);
    } else if st.BuildSucceeds? || st.BuildFails? {
      LeaksInBuildIff(s, st, keys, p);
    } else if st.Crash? {
      LeaksInCrashIff(s, p);
    } else {
      OthersDoNotLeak(s, st, p);
    }
  }

  lemma {:induction false} LeaksInCrashIff(s: System, p: IndexPath)
    requires !Leaked(s, p)
    ensures Leaked(Apply(s, Crash), p) <==> LeakCause(s, Crash, p)
  {
  }

  lemma {:induction false} LeaksInBuildIff(s: System, st: Step, keys: iset<string>, p: IndexPath)
    requires Enabled(s, st) && (st.BuildSucceeds? || st.BuildFails?)
    requires Known(s, keys) && SlugsSeparate(keys) && !Leaked(s, p)
    ensures Leaked(Apply(s, st), p) <==> LeakCause(s, st, p)
  {
    var job := s.worker.job;
    assert Held(s, job) > 0;
    JobOwnsItsPath(job);
    if p == IndexFilePath(job) && Lookup(s.store, IdOf(job)).None? {
      forall id | Owns(id, p) ensures Lookup(s.store, id).None? {
        if Lookup(s.store, id).Some? {
          OwnerIsUnique(keys, id, IdOf(job), p);
        }
      }
    }
  }

  lemma {:induction false} OthersDoNotLeak(s: System, st: Step, p: IndexPath)
    requires Enabled(s, st) && !st.MarkReadyStep? && !st.Crash? && !Leaked(s, p)
    requires !st.BuildSucceeds? && !st.BuildFails?
    ensures !Leaked(Apply(s, st), p) && !LeakCause(s, st, p)
  {
    if id :| Owns(id, p) && Lookup(s.store, id).Some? {
      EntriesKept(s, st, id);
    } else {
      assert forall id :: Owns(id, p) ==> Lookup(s.store, id).None?;
      StaysListed(s, st, p);
    }
  }

  /** What is on disk stays in the lists it is in, or is deleted. */
  lemma {:induction false} StaysListed(s: System, st: Step, p: IndexPath)
    requires Enabled(s, st) && !st.MarkReadyStep? && !st.Crash? && !st.BuildSucceeds? && !st.BuildFails?
    requires p in s.files ==> p in s.store.pendingUnlink || (s.worker.Deleting? && p in s.worker.ripe)
    ensures var s' := Apply(s, st);
            p in s'.files ==> p in s'.store.pendingUnlink || (s'.worker.Deleting? && p in s'.worker.ripe)
  {
    StashUntouched(s, st);
  }

  lemma {:induction false} LeaksInMarkReadyIff(s: System, st: Step, keys: iset<string>, p: IndexPath)
    requires Enabled(s, st) && st.MarkReadyStep? && Known(s, keys) && SlugsSeparate(keys) && !Leaked(s, p)
    ensures Leaked(Apply(s, st), p) <==> LeakCause(s, st, p)
  {
    if EvictedElsewhere(s, st, p) {
      var sha :| sha in st.victims && Owns(Id(IdOf(s.worker.job).key, sha), p) && VictimPath(s, sha) != Some(p);
      NotStashed(s, st, p);
      OwnerGone(s, st, keys, p);
    }
    if Leaked(Apply(s, st), p) {
      var id :| Owns(id, p) && Lookup(s.store, id).Some?;
      VictimIsStashed(s, st, id, p);
    }
  }

  lemma {:induction false} NotStashed(s: System, st: Step, p: IndexPath)
    requires Enabled(s, st) && EntriesSound(s.store) && EvictedElsewhere(s, st, p)
    ensures p !in Apply(s, st).store.pendingUnlink
  {
    PendingAfter(s, st, p);
    if IsVictimPath(s, st, p) {
      var sha :| sha in st.victims && VictimPath(s, sha) == Some(p);
      VictimsHavePaths(s, st, sha);
    }
  }

  lemma {:induction false} OwnerGone(s: System, st: Step, keys: iset<string>, p: IndexPath)
    requires Enabled(s, st) && Known(s, keys) && SlugsSeparate(keys) && EvictedElsewhere(s, st, p)
    ensures forall id :: Owns(id, p) ==> Lookup(Apply(s, st).store, id).None?
  {
    assert Held(s, s.worker.job) > 0;
    var sha :| sha in st.victims && Owns(Id(IdOf(s.worker.job).key, sha), p);
    forall id | Owns(id, p) ensures Lookup(Apply(s, st).store, id).None? {
      if Lookup(s.store, id).Some? {
        OwnerIsUnique(keys, id, Id(IdOf(s.worker.job).key, sha), p);
      }
    }
  }

  lemma {:induction false} VictimIsStashed(s: System, st: Step, id: Id, p: IndexPath)
    requires Enabled(s, st) && EntriesSound(s.store) && st.MarkReadyStep?
    requires Owns(id, p) && Lookup(s.store, id).Some? && Lookup(Apply(s, st).store, id).None?
    ensures p in Apply(s, st).store.pendingUnlink || EvictedElsewhere(s, st, p)
  {
    PendingAfter(s, st, p);
    assert id.sha in st.victims && id == Id(IdOf(s.worker.job).key, id.sha);
    if VictimPath(s, id.sha) == Some(p) {
      assert IsVictimPath(s, st, p);
    }
  }

  ghost function KeptFrom(p: IndexPath): System -> bool {
    (s: System) => !Leaked(s, p)
  }

  ghost function Avoids(p: IndexPath): (System, Step) -> bool {
    (s: System, st: Step) => !LeakCause(s, st, p)
  }

  /** The exact condition, for every run: a file never leaks if and only if no crash comes while it is
      being deleted, its commit is never evicted with another path, and it is never built for a commit
      without an entry. */
  lemma {:induction false} LeaksIff(s: System, steps: seq<Step>, keys: iset<string>, p: IndexPath)
    requires IsRun(s, steps) && Obeys(s, steps, Within(keys)) && SlugsSeparate(keys)
    requires Known(s, keys) && !Leaked(s, p)
    ensures Along(s, steps, KeptFrom(p)) <==> Obeys(s, steps, Avoids(p))
    decreases |steps|
  {
    if steps != [] {
      var st, s' := steps[0], Apply(s, steps[0]);
      LeaksInStepIff(s, st, keys, p);
      KnownStep(s, st, keys);
      if Leaked(s', p) {
        assert !Along(s', steps[1..], KeptFrom(p));
      } else {
        LeaksIff(s', steps[1..], keys, p);
      }
    }
  }

  // ------------------------------------------- one spelling per repository

  /** `roots` holds one spelling of each repository, all of them among `keys`. */
  ghost predicate OneSpelling(roots: iset<string>, keys: iset<string>) {
    && (forall r :: r in roots ==> RepoKey(r) in keys)
    && (forall q, r :: q in roots && r in roots && RepoKey(q) == RepoKey(r) ==> q == r)
  }

  ghost predicate Spelled(p: IndexPath, roots: iset<string>) {
    exists r :: r in roots && p.slug == Slugify(r)
  }

  /** Every file, recorded path and job in flight is spelled by one of `roots`. */
  ghost predicate AllSpelled(s: System, roots: iset<string>) {
    && (forall p :: p in s.files ==> Spelled(p, roots))
    && (forall id :: Lookup(s.store, id).Some? && Lookup(s.store, id).value.indexPath.Some? ==>
          Spelled(Lookup(s.store, id).value.indexPath.value, roots))
    && (forall job :: Held(s, job) > 0 ==> job.root in roots)
  }

  /** Commits are enqueued under these spellings, what recovery sends again included (it spells a root
      with its final `/`), no crash interrupts a deletion, and no index is written for a commit without
      an entry. */
  ghost function LeakFree(roots: iset<string>): (System, Step) -> bool {
    (s: System, st: Step) =>
      && (st.EnqueueStep? ==> st.job.root in roots)
      && (st.TakeRecoverable? ==> forall id :: id in Taken(st.order, QUEUE_CAP) ==> id.key in roots)
      && !(st.Crash? && s.worker.Deleting? && s.worker.ripe != [])
      && (s.worker.Building? && (st.BuildSucceeds? || (st.BuildFails? && st.leavesFile)) ==>
            Lookup(s.store, IdOf(s.worker.job)).Some?)
  }

  /** A file of a commit and the path the commit is evicted with are the same, if both are spelled by
      the same roots. */
  lemma {:induction false} OnePathPerCommit(keys: iset<string>, roots: iset<string>, id: Id, p: IndexPath, q: IndexPath)
    requires SlugsSeparate(keys) && OneSpelling(roots, keys) && id.key in keys
    requires Owns(id, p) && Owns(id, q) && Spelled(p, roots) && Spelled(q, roots)
    ensures p == q
  {
    var a :| a in roots && p.slug == Slugify(a);
    var b :| b in roots && q.slug == Slugify(b);
    JobOwnsItsPath(Job(a, p.sha));
    JobOwnsItsPath(Job(b, q.sha));
    OwnerIsUnique(keys, id, IdOf(Job(a, p.sha)), p);
    OwnerIsUnique(keys, id, IdOf(Job(b, q.sha)), q);
  }

  lemma {:induction false} SpelledNeverCauses(s: System, st: Step, keys: iset<string>, roots: iset<string>,
                                              p: IndexPath)
    requires Enabled(s, st) && Known(s, keys) && SlugsSeparate(keys) && OneSpelling(roots, keys)
    requires AllSpelled(s, roots) && LeakFree(roots)(s, st)
    ensures !LeakCause(s, st, p)
  {
    if p in s.files && EvictedElsewhere(s, st, p) {
      var job := s.worker.job;
      var sha :| sha in st.victims && Owns(Id(IdOf(job).key, sha), p) && VictimPath(s, sha) != Some(p);
      VictimsHavePaths(s, st, sha);
      assert Held(s, job) > 0;
      var q := VictimPath(s, sha).value;
      VictimIsSpelled(s, st, roots, sha);
      OnePathPerCommit(keys, roots, Id(IdOf(job).key, sha), p, q);
    }
  }

  lemma {:induction false} VictimIsSpelled(s: System, st: Step, roots: iset<string>, sha: string)
    requires Enabled(s, st) && st.MarkReadyStep? && AllSpelled(s, roots)
    requires sha in st.victims && VictimPath(s, sha).Some?
    ensures Spelled(VictimPath(s, sha).value, roots)
  {
    assert Held(s, s.worker.job) > 0;
  }

  lemma {:induction false} AllSpelledStep(s: System, st: Step, roots: iset<string>)
    requires Enabled(s, st) && AllSpelled(s, roots) && LeakFree(roots)(s, st)
    ensures AllSpelled(Apply(s, st), roots)
  {
    var s' := Apply(s, st);
    forall job | Held(s', job) > 0 ensures job.root in roots {
      JobStaysSpelled(s, st, roots, job);
    }
    forall p | p in s'.files ensures Spelled(p, roots) {
      FileStaysSpelled(s, st, roots, p);
    }
    forall id | Lookup(s'.store, id).Some? && Lookup(s'.store, id).value.indexPath.Some?
      ensures Spelled(Lookup(s'.store, id).value.indexPath.value, roots)
    {
      EntryStaysSpelled(s, st, roots, id);
    }
  }

  lemma {:induction false} JobStaysSpelled(s: System, st: Step, roots: iset<string>, job: Job)
    requires Enabled(s, st) && AllSpelled(s, roots) && LeakFree(roots)(s, st)
    requires Held(Apply(s, st), job) > 0
    ensures job.root in roots
  {
    if st.TakeRecoverable? {
      var taken := Taken(st.order, QUEUE_CAP);
      if Held(s, job) == 0 {
        assert job in RecoveredJobs(taken);
        var i :| 0 <= i < |taken| && RecoveredJobs(taken)[i] == job;
        assert taken[i] in taken;
      }
    } else if !st.Crash? {
      JobsConserved(s, st, job);
    }
  }

  lemma {:induction false} FileStaysSpelled(s: System, st: Step, roots: iset<string>, p: IndexPath)
    requires Enabled(s, st) && AllSpelled(s, roots) && p in Apply(s, st).files
    ensures Spelled(p, roots)
  {
    if p !in s.files {
      assert Held(s, s.worker.job) > 0;
    }
  }

  lemma {:induction false} EntryStaysSpelled(s: System, st: Step, roots: iset<string>, id: Id)
    requires Enabled(s, st) && AllSpelled(s, roots)
    requires Lookup(Apply(s, st).store, id).Some? && Lookup(Apply(s, st).store, id).value.indexPath.Some?
    ensures Spelled(Lookup(Apply(s, st).store, id).value.indexPath.value, roots)
  {
    if st.MarkReadyStep? {
      assert Held(s, s.worker.job) > 0;
    } else {
      EntriesKept(s, st, id);
    }
  }

  ghost predicate NothingLeaks(s: System) {
    forall p :: !Leaked(s, p)
  }

  /** With one spelling per repository, no crash during a deletion and no index built for nobody, nothing
      ever leaks, in any run. */
  lemma {:induction false} NothingEverLeaks(s: System, steps: seq<Step>, keys: iset<string>, roots: iset<string>)
    requires IsRun(s, steps) && Obeys(s, steps, Within(keys)) && Obeys(s, steps, LeakFree(roots))
    requires SlugsSeparate(keys) && OneSpelling(roots, keys)
    requires Known(s, keys) && AllSpelled(s, roots) && NothingLeaks(s)
    ensures Along(s, steps, NothingLeaks)
    decreases |steps|
  {
    if steps != [] {
      var st, s' := steps[0], Apply(s, steps[0]);
      forall p ensures !Leaked(s', p) {
        LeaksInStepIff(s, st, keys, p);
        SpelledNeverCauses(s, st, keys, roots, p);
      }
      KnownStep(s, st, keys);
      AllSpelledStep(s, st, roots);
      NothingEverLeaks(s', steps[1..], keys, roots);
    }
  }

  /** Recovery takes first, and apart from that only spellings and crashes matter. */
  ghost function OrderlyLeakFree(roots: iset<string>): (System, Step) -> bool {
    (s: System, st: Step) =>
      && (st.EnqueueStep? ==> st.job.root in roots)
      && (st.TakeRecoverable? ==> forall id :: id in Taken(st.order, QUEUE_CAP) ==> id.key in roots)
      && !(st.Crash? && s.worker.Deleting? && s.worker.ripe != [])
  }

  /** If recovery takes first, no index is built for nobody. */
  lemma {:induction false} RecoveryFirstNeverLeaks(s: System, steps: seq<Step>, keys: iset<string>,
                                                   roots: iset<string>)
    requires IsRun(s, steps) && Obeys(s, steps, Disciplined(keys)) && Obeys(s, steps, OrderlyLeakFree(roots))
    requires SlugsSeparate(keys) && OneSpelling(roots, keys)
    requires Sound(s, keys) && AllSpelled(s, roots) && NothingLeaks(s)
    ensures Along(s, steps, NothingLeaks)
  {
    SoundIsKnown(s, keys);
    OrderlyIsLeakFree(s, steps, keys, roots);
    NothingEverLeaks(s, steps, keys, roots);
  }

  lemma {:induction false} OrderlyIsLeakFree(s: System, steps: seq<Step>, keys: iset<string>, roots: iset<string>)
    requires IsRun(s, steps) && Obeys(s, steps, Disciplined(keys)) && Obeys(s, steps, OrderlyLeakFree(roots))
    requires Sound(s, keys)
    ensures Obeys(s, steps, Within(keys)) && Obeys(s, steps, LeakFree(roots))
    decreases |steps|
  {
    if steps != [] {
      var st := steps[0];
      if s.worker.Building? {
        HeldIsOutstanding(s, s.worker.job);
      }
      SoundStep(s, st, keys);
      OrderlyIsLeakFree(Apply(s, st), steps[1..], keys, roots);
    }
  }

  lemma InitiallyNothingLeaks(roots: iset<string>)
    ensures AllSpelled(INITIAL, roots) && NothingLeaks(INITIAL)
  {
  }

  // ------------------------------------------------------------ the two runs

  lemma {:induction false} LastState(s: System, steps: seq<Step>)
    requires IsRun(s, steps) && Along(s, steps, ExactlyOnce)
    ensures ExactlyOnce(Exec(s, steps))
    decreases |steps|
  {
    if steps != [] {
      LastState(Apply(s, steps[0]), steps[1..]);
    }
  }

  /** A crash between mark_ready's flush and the deletion leaks the file, although the stash is
      persisted so that a restart cannot leak it. */
  lemma CrashLeaks(root: string, a: string, b: string, c: string) returns (steps: seq<Step>)
    requires RepoKey(root) == root && a != b && b != c && a != c
    ensures IsRun(INITIAL, steps) && Obeys(INITIAL, steps, RecoveryFirst)
    ensures var s, p := Exec(INITIAL, steps), IndexFilePath(Job(root, a));
            Leaked(s, p) && s.worker.Idle? && ExactlyOnce(s) && NoJobFor(s, p)
  {
    var s;
    steps, s := ThreeInARow(root, a, b, c, [Crash]);
    StepThen(s, Crash, []);
    assert [Crash] + [] == [Crash];
    RecoveryFirstIsExactlyOnce(INITIAL, steps);
    LastState(INITIAL, steps);
  }

  /** A build of one commit that fails and leaves its output file behind, undisturbed; then `rest`. */
  function FailThen(job: Job, now: int, rest: seq<Step>): seq<Step> {
    [EnqueueStep(job, now)] + ([TrySend(job)] + ([Receive] +
    ([StartBuild] + ([BuildFails("", true)] + ([MarkBuildFailed] + rest)))))
  }

  function FailedLeaving(s: System, job: Job, now: int): System {
    s.(store := MarkFailed(BuildingStore(s, job, now), IdOf(job), ""), files := s.files + {IndexFilePath(job)})
  }

  lemma {:induction false} FailRun(s: System, job: Job, now: int, rest: seq<Step>)
    requires Calm(s) && OutcomeFor(Lookup(s.store, IdOf(job))) == NeedsIndexing
    requires IsRun(FailedLeaving(s, job, now), rest) && Obeys(FailedLeaving(s, job, now), rest, RecoveryFirst)
    ensures var steps := FailThen(job, now, rest);
            && IsRun(s, steps) && Exec(s, steps) == Exec(FailedLeaving(s, job, now), rest)
            && Obeys(s, steps, RecoveryFirst)
  {
    var r := s.(store := Enqueue(s.store, IdOf(job), now), worker := Received(job));
    var s1 := Apply(r, StartBuild);
    var s2 := Apply(s1, BuildFails("", true));
    assert Apply(s2, MarkBuildFailed) == FailedLeaving(s, job, now);
    StepThen(s2, MarkBuildFailed, rest);
    StepThen(s1, BuildFails("", true), [MarkBuildFailed] + rest);
    StepThen(r, StartBuild, [BuildFails("", true)] + ([MarkBuildFailed] + rest));
    QueueRun(s, job, now, [StartBuild] + ([BuildFails("", true)] + ([MarkBuildFailed] + rest)));
  }

  /** A failed commit can be indexed again. */
  lemma {:induction false} IndexFailed(s: System, root: string, sha: string, now: int)
    requires Calm(s) && RepoKey(root) == root && s.store.repos.Keys == {root} && s.store.pendingUnlink == []
    requires var commits := s.store.repos[root].commits; commits.Keys == {sha} && commits[sha].state.Failed?
    ensures CanIndex(s, Job(root, sha), now, [])
    ensures var s' := Indexed(s, Job(root, sha), now, []);
            Current(s', root, sha, now) && s'.store.pendingUnlink == []
  {
    var job := Job(root, sha);
    var commits := WithReady(BuildingStore(s, job, now), IdOf(job), IndexFilePath(job), now);
    assert commits.Keys == {sha};
    assert ReadyShas(commits) == {sha};
  }

  predicate NoCrash(steps: seq<Step>) {
    forall st :: st in steps ==> !st.Crash?
  }

  lemma {:induction false} NoCrashThen(st: Step, rest: seq<Step>)
    requires !st.Crash? && NoCrash(rest)
    ensures NoCrash([st] + rest)
  {
  }

  lemma {:induction false} NoCrashInThese(long: Job, other: Job, short: Job, victims: seq<string>)
    ensures NoCrash([TakeRecoverable([])] + FailThen(short, 1, IndexThen(long, 2, [], [DeleteNext] +
                    IndexThen(other, 3, victims, []))))
  {
    NoCrashInIndex(other, 3, victims, []);
    NoCrashThen(DeleteNext, IndexThen(other, 3, victims, []));
    NoCrashInIndex(long, 2, [], [DeleteNext] + IndexThen(other, 3, victims, []));
    var rest := IndexThen(long, 2, [], [DeleteNext] + IndexThen(other, 3, victims, []));
    NoCrashInFailed(short, 1, rest);
    NoCrashThen(TakeRecoverable([]), FailThen(short, 1, rest));
  }

  lemma {:induction false} NoCrashInIndex(job: Job, now: int, victims: seq<string>, rest: seq<Step>)
    requires NoCrash(rest)
    ensures NoCrash(IndexThen(job, now, victims, rest))
  {
    forall st | st in IndexThen(job, now, victims, rest) && st !in rest ensures !st.Crash? {
    }
  }

  lemma {:induction false} NoCrashInFailed(job: Job, now: int, rest: seq<Step>)
    requires NoCrash(rest)
    ensures NoCrash(FailThen(job, now, rest))
  {
    forall st | st in FailThen(job, now, rest) && st !in rest ensures !st.Crash? {
    }
  }

  /** The state after the failed build, from which the same commit can be indexed as `root`. */
  lemma {:induction false} FailsFirst(root: string, short: string, a: string)
    requires RepoKey(root) == root && RepoKey(short) == root
    ensures var s := FailedLeaving(Booted(), Job(short, a), 1);
            && Calm(s) && s.store.repos.Keys == {root} && s.store.pendingUnlink == []
            && s.store.repos[root].commits.Keys == {a} && s.store.repos[root].commits[a].state.Failed?
            && IndexFilePath(Job(short, a)) in s.files
  {
  }

  /** Only `sha` is known, so no other commit owns a file. */
  lemma {:induction false} OnlyCurrentOwns(s: System, root: string, sha: string, p: IndexPath)
    requires Current(s, root, sha, 3) && p.sha != sha
    ensures forall id :: Owns(id, p) ==> Lookup(s.store, id).None?
  {
  }

  /** No crash is needed: a build of `a` under the short spelling fails and leaves its file, the commit is
      indexed under the other spelling, and its eviction by `b` stashes only the second file. */
  lemma {:induction false} SpellingLeaks(root: string, short: string, a: string, b: string) returns (steps: seq<Step>)
    requires RepoKey(root) == root == RepoKey(short) && Slugify(root) != Slugify(short) && a != b
    ensures IsRun(INITIAL, steps) && Obeys(INITIAL, steps, RecoveryFirst) && NoCrash(steps)
    ensures Leaked(Exec(INITIAL, steps), IndexFilePath(Job(short, a)))
  {
    var failed := Job(short, a);
    FailsFirst(root, short, a);
    var rest, s := EvictsLong(FailedLeaving(Booted(), failed, 1), root, a, b);
    OnlyCurrentOwns(s, root, b, IndexFilePath(failed));
    PathsDiffer(root, short, a);
    FailsThen(failed, rest);
    steps := [TakeRecoverable([])] + FailThen(failed, 1, rest);
    NoCrashInThese(Job(root, a), Job(root, b), failed, [a]);
  }

  lemma {:induction false} PathsDiffer(root: string, short: string, sha: string)
    requires Slugify(root) != Slugify(short)
    ensures IndexFilePath(Job(short, sha)) !in [IndexFilePath(Job(root, sha))]
  {
  }

  lemma {:induction false} FailsThen(job: Job, rest: seq<Step>)
    requires var s := FailedLeaving(Booted(), job, 1); IsRun(s, rest) && Obeys(s, rest, RecoveryFirst)
    ensures var steps := [TakeRecoverable([])] + FailThen(job, 1, rest);
            && IsRun(INITIAL, steps) && Obeys(INITIAL, steps, RecoveryFirst)
            && Exec(INITIAL, steps) == Exec(FailedLeaving(Booted(), job, 1), rest)
  {
    FailRun(Booted(), job, 1, rest);
    BootRun(FailThen(job, 1, rest));
  }

  /** From there `a` is indexed and evicted by `b`. */
  lemma {:induction false} EvictsLong(s: System, root: string, a: string, b: string)
    returns (steps: seq<Step>, s': System)
    requires Calm(s) && RepoKey(root) == root && s.store.repos.Keys == {root} && s.store.pendingUnlink == []
    requires var commits := s.store.repos[root].commits; commits.Keys == {a} && commits[a].state.Failed?
    requires a != b
    ensures steps == IndexThen(Job(root, a), 2, [], [DeleteNext] + IndexThen(Job(root, b), 3, [a], []))
    ensures IsRun(s, steps) && Obeys(s, steps, RecoveryFirst) && Exec(s, steps) == s'
    ensures Current(s', root, b, 3) && s.files <= s'.files && s'.worker == Deleting([])
    ensures s'.store.pendingUnlink == [IndexFilePath(Job(root, a))]
  {
    var long, other := Job(root, a), Job(root, b);
    IndexFailed(s, root, a, 2);
    var s2 := Indexed(s, long, 2, []);
    IndexNext(Finish(s2), root, a, 2, b, 3);
    s' := Indexed(Finish(s2), other, 3, [a]);
    var third := IndexThen(other, 3, [a], []);
    steps := IndexThen(long, 2, [], [DeleteNext] + third);
    IndexRun(Finish(s2), other, 3, [a], []);
    FinishRun(s2, third);
    IndexRun(s, long, 2, [], [DeleteNext] + third);
  }
}
