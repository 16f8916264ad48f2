/** Retention seen from outside: what is Ready after a mark_ready, that a repository once
    queryable stays queryable, and what `resolve_scip_path` can answer
    (crates/aide-mcp/src/server.rs). */
module IndexerQueries {
  import opened Wrappers
  import opened IndexerStore
  import opened IndexerJobs
  import opened IndexerProtocol
  import opened IndexerExactlyOnce
  import opened IndexerFiles
  import IndexerTraces

  function ReadyIn(s: IndexerState, key: string): set<string> {
    if key in s.repos then ReadyShas(s.repos[key].commits) else {}
  }

  /** mark_ready leaves, among the Ready commits and the one just built, a top-k by enqueue time;
      commits that are not Ready and other repositories keep their entries. */
  lemma {:induction false} MarkReadyRetainsTopK(s: IndexerState, id: Id, path: IndexPath, now: int, k: nat,
                                                victims: seq<string>)
    requires MayEvict(s, id, path, now, k, victims)
    ensures var s' := MarkReady(s, id, path, now, victims);
            var before := ReadyIn(s, id.key) + (if Lookup(s, id).Some? then {id.sha} else {});
            var after := ReadyIn(s', id.key);
            && after <= before
            && |after| == (if |before| <= k then |before| else k)
            && (forall kept, gone :: kept in after && gone in before - after ==>
                  EnqueuedAt(s, Id(id.key, kept)) >= EnqueuedAt(s, Id(id.key, gone)))
            && (forall x: Id :: (x.key != id.key || x.sha !in before) ==> Lookup(s', x) == Lookup(s, x))
            && (forall gone :: gone in before - after ==> Lookup(s', Id(id.key, gone)).None?)
  {
    var s' := MarkReady(s, id, path, now, victims);
    var commits := WithReady(s, id, path, now);
    var before := ReadyIn(s, id.key) + (if Lookup(s, id).Some? then {id.sha} else {});
    EvictionKeepsNewest(commits, k, victims);
    ReadyAround(s, id, path, now, victims);
    forall x: Id | x.key == id.key && x.sha !in before ensures Lookup(s', x) == Lookup(s, x) {
      assert x.sha !in victims;
    }
    forall sha ensures sha in commits ==> commits[sha].enqueuedAt == EnqueuedAt(s, Id(id.key, sha)) {
    }
  }

  /** Which commits are Ready before the eviction, and which after. */
  lemma {:induction false} ReadyAround(s: IndexerState, id: Id, path: IndexPath, now: int, victims: seq<string>)
    requires forall v :: v in victims ==> v in WithReady(s, id, path, now)
    ensures ReadyShas(WithReady(s, id, path, now)) ==
            ReadyIn(s, id.key) + (if Lookup(s, id).Some? then {id.sha} else {})
    ensures ReadyIn(MarkReady(s, id, path, now, victims), id.key) ==
            set r | r in ReadyShas(WithReady(s, id, path, now)) && r !in victims
  {
  }

  // ------------------------------------------------- once Ready, always Ready

  ghost predicate HasReady(s: IndexerState, key: string) {
    exists sha :: IsReady(s, Id(key, sha))
  }

  lemma HasReadyStep(s: System, st: Step, key: string)
    requires Enabled(s, st) && ExactlyOnce(s) && HasReady(s.store, key)
    ensures HasReady(Apply(s, st).store, key)
  {
    var s' := Apply(s, st);
    var sha :| IsReady(s.store, Id(key, sha));
    if st.MarkReadyStep? {
      var id0, p0 := IdOf(s.worker.job), IndexFilePath(s.worker.job);
      if id0.key == key {
        MarkReadyRetainsTopK(s.store, id0, p0, st.now, st.k, st.victims);
        var after := ReadyIn(s'.store, key);
        assert sha in ReadyIn(s.store, key);
        assert after != {};
        var kept :| kept in after;
        assert IsReady(s'.store, Id(key, kept));
      } else {
        assert IsReady(s'.store, Id(key, sha));
      }
    } else {
      ReadyUntouched(s, st, Id(key, sha));
      assert IsReady(s'.store, Id(key, sha));
    }
  }

  /** Once `last_ready` answers for a repository it answers in every later state. */
  lemma {:induction false} StaysQueryable(s: System, steps: seq<Step>, key: string)
    requires IsRun(s, steps) && Obeys(s, steps, RecoveryFirst)
    requires ExactlyOnce(s) && HasReady(s.store, key)
    ensures Along(s, steps, (x: System) => HasReady(x.store, key))
    decreases |steps|
  {
    if steps != [] {
      HasReadyStep(s, steps[0], key);
      ExactlyOnceStep(s, steps[0]);
      StaysQueryable(Apply(s, steps[0]), steps[1..], key);
    }
  }

  // -------------------------------------- without it a Ready commit can be lost

  /** A system whose only commit is `job`'s, with nothing else going on. */
  function Lone(job: Job, entry: CommitEntry, channel: seq<Job>, recovery: Recovery, worker: Worker): System {
    INITIAL.(store := OneCommit(IdOf(job), entry), channel := channel, recovery := recovery, worker := worker)
  }

  function OneCommit(id: Id, entry: CommitEntry): IndexerState {
    IndexerState(map[id.key := RepoState(Some(id.sha), map[id.sha := entry])], [])
  }

  lemma OneCommitEntry(id: Id, entry: CommitEntry)
    ensures forall x :: Lookup(OneCommit(id, entry), x) == if x == id then Some(entry) else None
  {
  }

  /** Enqueued early, sent, and taken by recovery as well. */
  lemma Doubled(job: Job, now: int, rest: seq<Step>)
    requires RepoKey(job.root) == job.root
    requires IsRun(Lone(job, CommitEntry(Pending, now, None, None), [job], Resending([job]), Idle), rest)
    ensures var steps := [EnqueueStep(job, now)] + ([TrySend(job)] + ([TakeRecoverable([IdOf(job)])] + rest));
            IsRun(INITIAL, steps) &&
            Exec(INITIAL, steps) ==
            Exec(Lone(job, CommitEntry(Pending, now, None, None), [job], Resending([job]), Idle), rest)
  {
    var id, entry := IdOf(job), CommitEntry(Pending, now, None, None);
    var take := TakeRecoverable([id]);
    var s1 := Lone(job, entry, [], NotTaken, Idle).(sending := multiset{job});
    var s2 := Lone(job, entry, [job], NotTaken, Idle);
    var s3 := Lone(job, entry, [job], Resending([job]), Idle);
    assert Apply(INITIAL, EnqueueStep(job, now)) == s1;
    assert Apply(s1, TrySend(job)) == s2;
    OneCommitEntry(id, entry);
    assert IsRecoveryOrder(s2.store, [id]);
    assert RecoveredJobs([id]) == [job];
    assert Apply(s2, take) == s3;
    IndexerTraces.StepThen(s2, take, rest);
    IndexerTraces.StepThen(s1, TrySend(job), [take] + rest);
    IndexerTraces.StepThen(INITIAL, EnqueueStep(job, now), [TrySend(job)] + ([take] + rest));
  }

  /** The first of the two copies is built and made Ready. */
  lemma FirstCopyBuilt(job: Job, now: int, rest: seq<Step>)
    requires IsRun(BuiltOnce(job, now), rest)
    ensures var s := Lone(job, CommitEntry(Pending, now, None, None), [job], Resending([job]), Idle);
            var steps := [Receive] + ([StartBuild] + ([BuildSucceeds] + ([MarkReadyStep(now, 1, [])] + rest)));
            IsRun(s, steps) && Exec(s, steps) == Exec(BuiltOnce(job, now), rest)
  {
    var id, p := IdOf(job), IndexFilePath(job);
    var entry := CommitEntry(Pending, now, None, None);
    var ready := MarkReadyStep(now, 1, []);
    var s0 := Lone(job, entry, [job], Resending([job]), Idle);
    var s1 := Lone(job, entry, [], Resending([job]), Received(job));
    var s2 := Lone(job, entry.(state := InProgress), [], Resending([job]), Building(job));
    var s3 := s2.(worker := Built(job), files := {p});
    assert Apply(s0, Receive) == s1;
    InProgressOnce(id, entry);
    assert Apply(s1, StartBuild) == s2;
    assert Apply(s2, BuildSucceeds) == s3;
    ReadyOnce(id, entry.(state := InProgress), p, now);
    OneCommitEntry(id, entry.(state := InProgress));
    assert multiset{} + multiset{p} == multiset{p};
    var none: seq<IndexPath> := [];
    assert multiset(none) == multiset{};
    assert Apply(s3, ready) == BuiltOnce(job, now);
    IndexerTraces.StepThen(s3, ready, rest);
    IndexerTraces.StepThen(s2, BuildSucceeds, [ready] + rest);
    IndexerTraces.StepThen(s1, StartBuild, [BuildSucceeds] + ([ready] + rest));
    IndexerTraces.StepThen(s0, Receive, [StartBuild] + ([BuildSucceeds] + ([ready] + rest)));
  }

  function BuiltOnce(job: Job, now: int): System {
    var p := IndexFilePath(job);
    Lone(job, CommitEntry(Ready, now, Some(now), Some(p)), [], Resending([job]), Deleting([]))
    .(files := {p}, made := multiset{p})
  }

  lemma InProgressOnce(id: Id, entry: CommitEntry)
    ensures MarkInProgress(OneCommit(id, entry), id) == OneCommit(id, entry.(state := InProgress))
  {
    assert map[id.sha := entry][id.sha := entry.(state := InProgress)] == map[id.sha := entry.(state := InProgress)];
  }

  lemma ReadyOnce(id: Id, entry: CommitEntry, p: IndexPath, now: int)
    ensures MayEvict(OneCommit(id, entry), id, p, now, 1, [])
    ensures MarkReady(OneCommit(id, entry), id, p, now, []) == OneCommit(id, ReadyEntry(entry, p, now))
  {
    var commits := WithReady(OneCommit(id, entry), id, p, now);
    assert commits == map[id.sha := ReadyEntry(entry, p, now)];
    assert ReadyShas(commits) == {id.sha};
    assert (map sha | sha in commits && sha !in [] :: commits[sha]) == commits;
  }

  /** Enqueued before recovery takes, built, and the second copy of the job received. */
  function EarlySteps(job: Job, now: int): seq<Step> {
    [EnqueueStep(job, now)] + ([TrySend(job)] + ([TakeRecoverable([IdOf(job)])] +
    ([Receive] + ([StartBuild] + ([BuildSucceeds] + ([MarkReadyStep(now, 1, [])] +
    ([DeleteNext] + ([Resend] + ([Receive] + [])))))))))
  }

  function SecondReceived(job: Job, now: int): System {
    BuiltOnce(job, now).(recovery := Resending([]), worker := Received(job))
  }

  lemma {:induction false} EarlyRun(job: Job, now: int)
    requires RepoKey(job.root) == job.root
    ensures IsRun(INITIAL, EarlySteps(job, now)) && Exec(INITIAL, EarlySteps(job, now)) == SecondReceived(job, now)
  {
    SecondCopyArrives(BuiltOnce(job, now), job);
    FirstCopyBuilt(job, now, [DeleteNext] + ([Resend] + ([Receive] + [])));
    Doubled(job, now, [Receive] + ([StartBuild] + ([BuildSucceeds] + ([MarkReadyStep(now, 1, [])] +
                      ([DeleteNext] + ([Resend] + ([Receive] + [])))))));
  }

  /** If a client enqueues before recovery takes, the second copy of the job makes the one Ready
      commit InProgress again: a repository that was queryable no longer is. */
  lemma {:induction false} ReadyCanBeLost(job: Job, now: int)
    requires RepoKey(job.root) == job.root
    ensures IsRun(INITIAL, EarlySteps(job, now))
    ensures var s := Exec(INITIAL, EarlySteps(job, now));
            HasReady(s.store, job.root) && Enabled(s, StartBuild) && !HasReady(Apply(s, StartBuild).store, job.root)
  {
    EarlyRun(job, now);
    LostAtLast(job, now, SecondReceived(job, now));
  }

  lemma {:induction false} SecondCopyArrives(s: System, job: Job)
    requires s.worker == Deleting([]) && s.recovery == Resending([job]) && s.channel == []
    ensures var steps := [DeleteNext] + ([Resend] + ([Receive] + []));
            IsRun(s, steps) && Exec(s, steps) == s.(recovery := Resending([]), worker := Received(job))
  {
    var s1 := s.(worker := Idle);
    var s2 := s1.(channel := [job], recovery := Resending([]));
    var s3 := s2.(channel := [], worker := Received(job));
    assert Apply(s, DeleteNext) == s1;
    assert [job][1..] == [] && [] + [job] == [job];
    assert Apply(s1, Resend) == s2;
    assert Apply(s2, Receive) == s3;
    IndexerTraces.StepThen(s2, Receive, []);
    IndexerTraces.StepThen(s1, Resend, [Receive] + []);
    IndexerTraces.StepThen(s, DeleteNext, [Resend] + ([Receive] + []));
  }

  lemma LostAtLast(job: Job, now: int, s: System)
    requires RepoKey(job.root) == job.root && s.worker == Received(job)
    requires s.store == OneCommit(IdOf(job), CommitEntry(Ready, now, Some(now), Some(IndexFilePath(job))))
    ensures HasReady(s.store, job.root) && !HasReady(Apply(s, StartBuild).store, job.root)
  {
    OneCommitEntry(IdOf(job), CommitEntry(Ready, now, Some(now), Some(IndexFilePath(job))));
    assert IsReady(s.store, Id(job.root, job.sha));
  }

  // ------------------------------------------------------- resolve_scip_path

  datatype ResolveError = NoState | NoReadyIndex | MissingIndexPath | NotReady(state: IndexState)

  /** `lastReady` is the answer `last_ready` gave; equal timestamps leave it open. */
  function ResolveScipPath(s: IndexerState, root: string, sha: Option<string>, lastReady: Option<CommitInfo>)
    : Result<IndexPath, ResolveError>
  {
    var found := if sha.Some? then Status(s, RepoKey(root), sha) else lastReady;
    if found.None? then Err(if sha.Some? then NoState else NoReadyIndex)
    else if !found.value.state.Ready? then Err(NotReady(found.value.state))
    else if found.value.indexPath.None? then Err(MissingIndexPath)
    else Ok(found.value.indexPath.value)
  }

  /** In a reachable state a resolved path is the file of a Ready commit, the missing-path error
      cannot occur, and resolution without a pinned commit succeeds exactly when one is Ready. */
  lemma ResolveFindsReadyFiles(s: System, root: string, sha: Option<string>, lastReady: Option<CommitInfo>)
    requires NoneStuck(s) && IsLastReady(s.store, RepoKey(root), lastReady)
    ensures var r := ResolveScipPath(s.store, root, sha, lastReady);
            && r != Err(MissingIndexPath)
            && (r.Ok? ==> ReadyPath(s.store, r.value))
            && (sha.None? ==> (r.Ok? <==> HasReady(s.store, RepoKey(root))))
            && (sha.Some? ==> (r.Ok? <==> IsReady(s.store, Id(RepoKey(root), sha.value))))
  {
    var key := RepoKey(root);
    var r := ResolveScipPath(s.store, root, sha, lastReady);
    if r.Ok? {
      var target := if sha.Some? then sha.value else lastReady.value.sha;
      assert ReadyAt(s.store, Id(key, target), r.value);
    }
  }
}
