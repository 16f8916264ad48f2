/** Runs of the indexer written out step by step, and the one in which a Ready commit's file is deleted
    after its path was reused. */
module IndexerTraces {
  import opened Wrappers
  import opened IndexerStore
  import opened IndexerJobs
  import opened IndexerProtocol
  import opened IndexerExactlyOnce
  import opened IndexerFiles
  import opened IndexerFileSafety

  lemma StepThen(s: System, st: Step, rest: seq<Step>)
    requires Enabled(s, st) && IsRun(Apply(s, st), rest)
    ensures IsRun(s, [st] + rest) && Exec(s, [st] + rest) == Exec(Apply(s, st), rest)
    ensures RecoveryFirst(s, st) && Obeys(Apply(s, st), rest, RecoveryFirst) ==>
              Obeys(s, [st] + rest, RecoveryFirst)
  {
    assert ([st] + rest)[0] == st && ([st] + rest)[1..] == rest;
  }

  /** Recovery has run and nobody holds a job, except recovery what it has not sent again yet. */
  ghost predicate Calm(s: System) {
    && s.recovery.Resending? && s.worker.Idle?
    && s.sending == multiset{} && s.failing == multiset{} && s.channel == []
  }

  /** Enqueue, send, receive, build and mark ready one commit, undisturbed; then `rest`. */
  function IndexThen(job: Job, now: int, victims: seq<string>, rest: seq<Step>): seq<Step> {
    [EnqueueStep(job, now)] + ([TrySend(job)] + ([Receive] +
    ([StartBuild] + ([BuildSucceeds] + ([MarkReadyStep(now, 1, victims)] + rest)))))
  }

  /** The store while `job` is being built. */
  function BuildingStore(s: System, job: Job, now: int): IndexerState {
    MarkInProgress(Enqueue(s.store, IdOf(job), now), IdOf(job))
  }

  /** The system once `job` is indexed, before its mark_ready's deletions. */
  function Indexed(s: System, job: Job, now: int, victims: seq<string>): System
    requires forall v :: v in victims ==>
                           v in WithReady(BuildingStore(s, job, now), IdOf(job), IndexFilePath(job), now)
  {
    var p := IndexFilePath(job);
    s.(store := MarkReady(BuildingStore(s, job, now), IdOf(job), p, now, victims),
       worker := Deleting(s.store.pendingUnlink),
       files := s.files + {p},
       made := s.made + multiset{p},
       handed := s.handed + multiset(s.store.pendingUnlink))
  }

  ghost predicate CanIndex(s: System, job: Job, now: int, victims: seq<string>) {
    && Calm(s) && OutcomeFor(Lookup(s.store, IdOf(job))) == NeedsIndexing
    && MayEvict(BuildingStore(s, job, now), IdOf(job), IndexFilePath(job), now, 1, victims)
  }

  lemma QueueRun(s: System, job: Job, now: int, rest: seq<Step>)
    requires Calm(s) && OutcomeFor(Lookup(s.store, IdOf(job))) == NeedsIndexing
    requires var s' := s.(store := Enqueue(s.store, IdOf(job), now), worker := Received(job));
             IsRun(s', rest) && Obeys(s', rest, RecoveryFirst)
    ensures var steps := [EnqueueStep(job, now)] + ([TrySend(job)] + ([Receive] + rest));
            var s' := s.(store := Enqueue(s.store, IdOf(job), now), worker := Received(job));
            && IsRun(s, steps) && Exec(s, steps) == Exec(s', rest)
            && Obeys(s, steps, RecoveryFirst)
  {
    var s1 := Apply(s, EnqueueStep(job, now));
    var s2 := Apply(s1, TrySend(job));
    assert s2.sending == multiset{};
    var s3 := Apply(s2, Receive);
    assert s3.channel == [];
    assert s3 == s.(store := Enqueue(s.store, IdOf(job), now), worker := Received(job));
    StepThen(s2, Receive, rest);
    StepThen(s1, TrySend(job), [Receive] + rest);
    StepThen(s, EnqueueStep(job, now), [TrySend(job)] + ([Receive] + rest));
  }

  lemma BuildRun(s: System, job: Job, now: int, victims: seq<string>, rest: seq<Step>)
    requires CanIndex(s, job, now, victims)
    requires IsRun(Indexed(s, job, now, victims), rest)
    requires Obeys(Indexed(s, job, now, victims), rest, RecoveryFirst)
    ensures var r := s.(store := Enqueue(s.store, IdOf(job), now), worker := Received(job));
            var steps := [StartBuild] + ([BuildSucceeds] + ([MarkReadyStep(now, 1, victims)] + rest));
            && IsRun(r, steps) && Exec(r, steps) == Exec(Indexed(s, job, now, victims), rest)
            && Obeys(r, steps, RecoveryFirst)
  {
    var r := s.(store := Enqueue(s.store, IdOf(job), now), worker := Received(job));
    var s1 := Apply(r, StartBuild);
    var s2 := Apply(s1, BuildSucceeds);
    var st := MarkReadyStep(now, 1, victims);
    assert Apply(s2, st) == Indexed(s, job, now, victims);
    StepThen(s2, st, rest);
    StepThen(s1, BuildSucceeds, [st] + rest);
    StepThen(r, StartBuild, [BuildSucceeds] + ([st] + rest));
  }

  lemma IndexRun(s: System, job: Job, now: int, victims: seq<string>, rest: seq<Step>)
    requires CanIndex(s, job, now, victims)
    requires IsRun(Indexed(s, job, now, victims), rest)
    requires Obeys(Indexed(s, job, now, victims), rest, RecoveryFirst)
    ensures var steps := IndexThen(job, now, victims, rest);
            && IsRun(s, steps) && Exec(s, steps) == Exec(Indexed(s, job, now, victims), rest)
            && Obeys(s, steps, RecoveryFirst)
  {
    BuildRun(s, job, now, victims, rest);
    QueueRun(s, job, now, [StartBuild] + ([BuildSucceeds] + ([MarkReadyStep(now, 1, victims)] + rest)));
  }

  // -------------------------------------------------- one Ready commit at a time

  /** Exactly `sha` is known, in this repository only; it is Ready with its own index path. */
  ghost predicate Current(s: System, root: string, sha: string, at: int) {
    && s.store.repos.Keys == {root}
    && var commits := s.store.repos[root].commits;
       commits.Keys == {sha} && commits[sha].state.Ready? && commits[sha].enqueuedAt == at
       && commits[sha].indexPath == Some(IndexFilePath(Job(root, sha)))
  }

  lemma IndexFirst(s: System, root: string, sha: string, now: int)
    requires Calm(s) && s.store == EMPTY_STATE && RepoKey(root) == root
    ensures CanIndex(s, Job(root, sha), now, [])
    ensures var s' := Indexed(s, Job(root, sha), now, []);
            Current(s', root, sha, now) && s'.store.pendingUnlink == []
  {
    var job := Job(root, sha);
    var commits := WithReady(BuildingStore(s, job, now), IdOf(job), IndexFilePath(job), now);
    assert commits.Keys == {sha};
    assert ReadyShas(commits) == {sha};
  }

  /** With retention 1 a later commit evicts the current one and stashes its file. */
  lemma IndexNext(s: System, root: string, prev: string, at: int, sha: string, now: int)
    requires Calm(s) && Current(s, root, prev, at) && RepoKey(root) == root
    requires sha != prev && at <= now
    ensures CanIndex(s, Job(root, sha), now, [prev])
    ensures var s' := Indexed(s, Job(root, sha), now, [prev]);
            Current(s', root, sha, now) && s'.store.pendingUnlink == [IndexFilePath(Job(root, prev))]
  {
    var job := Job(root, sha);
    var commits := WithReady(BuildingStore(s, job, now), IdOf(job), IndexFilePath(job), now);
    assert commits.Keys == {prev, sha};
    assert ReadyShas(commits) == {prev, sha};
    assert |{prev, sha}| == 2;
    assert EvictedPaths(commits, [prev]) == [IndexFilePath(Job(root, prev))] by {
      assert [prev][1..] == [];
    }
    assert Indexed(s, job, now, [prev]).store.repos[root].commits.Keys == {sha};
  }

  /** The state after recovery found nothing to do on a first start. */
  function Booted(): System {
    INITIAL.(recovery := Resending([]))
  }

  lemma BootRun(rest: seq<Step>)
    requires IsRun(Booted(), rest) && Obeys(Booted(), rest, RecoveryFirst)
    ensures IsRun(INITIAL, [TakeRecoverable([])] + rest)
    ensures Exec(INITIAL, [TakeRecoverable([])] + rest) == Exec(Booted(), rest)
    ensures Obeys(INITIAL, [TakeRecoverable([])] + rest, RecoveryFirst)
  {
    assert RecoveredJobs([]) == [];
    assert IsRecoveryOrder(EMPTY_STATE, []);
    assert Apply(INITIAL, TakeRecoverable([])) == Booted();
    StepThen(INITIAL, TakeRecoverable([]), rest);
  }

  function Finish(s: System): System {
    s.(worker := Idle)
  }

  lemma FinishRun(s: System, rest: seq<Step>)
    requires s.worker == Deleting([])
    requires IsRun(Finish(s), rest) && Obeys(Finish(s), rest, RecoveryFirst)
    ensures IsRun(s, [DeleteNext] + rest) && Exec(s, [DeleteNext] + rest) == Exec(Finish(s), rest)
    ensures Obeys(s, [DeleteNext] + rest, RecoveryFirst)
  {
    StepThen(s, DeleteNext, rest);
  }

  // ------------------------------------------------------------ the two runs

  /** Index `a`, then `b`, then `last` in one repository; the state before `last` is finished. */
  lemma ThreeInARow(root: string, a: string, b: string, last: string, rest: seq<Step>)
    returns (steps: seq<Step>, s: System)
    requires RepoKey(root) == root && a != b && b != last
    ensures && Current(s, root, last, 3)
            && s.store.pendingUnlink == [IndexFilePath(Job(root, b))]
            && s.worker == Deleting([IndexFilePath(Job(root, a))])
            && IndexFilePath(Job(root, a)) in s.files
            && s.recovery == Resending([])
    ensures IsRun(s, rest) && Obeys(s, rest, RecoveryFirst) ==>
              IsRun(INITIAL, steps) && Exec(INITIAL, steps) == Exec(s, rest) && Obeys(INITIAL, steps, RecoveryFirst)
  {
    var ja, jb, jl := Job(root, a), Job(root, b), Job(root, last);
    IndexFirst(Booted(), root, a, 1);
    var s1 := Indexed(Booted(), ja, 1, []);
    IndexNext(Finish(s1), root, a, 1, b, 2);
    var s2 := Indexed(Finish(s1), jb, 2, [a]);
    IndexNext(Finish(s2), root, b, 2, last, 3);
    s := Indexed(Finish(s2), jl, 3, [b]);
    var third := IndexThen(jl, 3, [b], rest);
    var second := IndexThen(jb, 2, [a], [DeleteNext] + third);
    var first := IndexThen(ja, 1, [], [DeleteNext] + second);
    steps := [TakeRecoverable([])] + first;
    if IsRun(s, rest) && Obeys(s, rest, RecoveryFirst) {
      IndexRun(Finish(s2), jl, 3, [b], rest);
      FinishRun(s2, third);
      IndexRun(Finish(s1), jb, 2, [a], [DeleteNext] + third);
      FinishRun(s1, second);
      IndexRun(Booted(), ja, 1, [], [DeleteNext] + second);
      BootRun(first);
    }
  }

  /** Going back to an earlier commit deletes its new index: `a` is indexed, evicted by `b`,
      enqueued again and rebuilt at the same path; the mark_ready that makes it Ready hands that
      path back and the worker deletes it. Recovery ran first throughout. */
  lemma ReadyFileDeleted(root: string, a: string, b: string) returns (steps: seq<Step>)
    requires RepoKey(root) == root && a != b
    ensures IsRun(INITIAL, steps) && Obeys(INITIAL, steps, RecoveryFirst)
    ensures var s, p := Exec(INITIAL, steps), IndexFilePath(Job(root, a));
            ReadyAt(s.store, Id(root, a), p) && p !in s.files && !Safe(s)
  {
    var s;
    steps, s := ThreeInARow(root, a, b, a, [DeleteNext]);
    var s' := Apply(s, DeleteNext);
    StepThen(s, DeleteNext, []);
    assert [DeleteNext] + [] == [DeleteNext];
    assert ReadyAt(s'.store, Id(root, a), IndexFilePath(Job(root, a)));
  }
}
