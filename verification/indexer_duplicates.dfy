/** What else goes wrong when a client enqueues before recovery takes and the worker gets the same job
    twice: a file disappears while a query may still read it, and a file leaks. */
module IndexerDuplicates {
  import opened Wrappers
  import opened IndexerStore
  import opened IndexerJobs
  import opened IndexerProtocol
  import opened IndexerExactlyOnce
  import opened IndexerFiles
  import opened IndexerFileSafety
  import opened IndexerTraces
  import opened IndexerLeaks
  import opened IndexerQueries

  /** The build of the second copy fails and removes the file, which was resolved while its commit was
      Ready, with no mark_ready in between. */
  lemma {:induction false} GraceBroken(job: Job, now: int)
    requires RepoKey(job.root) == job.root
    ensures IsRun(INITIAL, EarlySteps(job, now))
    ensures var s, p := Exec(INITIAL, EarlySteps(job, now)), IndexFilePath(job);
            var next := [StartBuild] + ([BuildFails("", false)] + []);
            && ReadyPath(s.store, p) && Readable(s, p) && p !in s.store.pendingUnlink
            && IsRun(s, next) && MarkReadySteps(next) == 0 && p !in Exec(s, next).files
  {
    EarlyRun(job, now);
    StillReady(job, now);
    FailsAndRemoves(SecondReceived(job, now), job);
  }

  lemma {:induction false} StillReady(job: Job, now: int)
    ensures var s, p := SecondReceived(job, now), IndexFilePath(job);
            ReadyPath(s.store, p) && Readable(s, p) && p !in s.store.pendingUnlink
  {
    OneCommitEntry(IdOf(job), CommitEntry(Ready, now, Some(now), Some(IndexFilePath(job))));
    assert ReadyAt(SecondReceived(job, now).store, IdOf(job), IndexFilePath(job));
  }

  lemma {:induction false} FailsAndRemoves(s: System, job: Job)
    requires s.worker == Received(job)
    ensures var next := [StartBuild] + ([BuildFails("", false)] + []);
            IsRun(s, next) && MarkReadySteps(next) == 0 && IndexFilePath(job) !in Exec(s, next).files
  {
    var s1 := Apply(s, StartBuild);
    var s2 := Apply(s1, BuildFails("", false));
    StepThen(s1, BuildFails("", false), []);
    StepThen(s, StartBuild, [BuildFails("", false)] + []);
    var next := [StartBuild] + ([BuildFails("", false)] + []);
    assert next[1..] == [BuildFails("", false)] + [] && next[1..][1..] == [];
    assert MarkReadySteps(next[1..][1..]) == 0 && MarkReadySteps(next[1..]) == 0;
    assert Exec(s, next) == s2 && s2.files == s1.files - {IndexFilePath(job)};
  }

  // ------------------------------------------------------------ the third leak

  /** No crash, and every enqueue spells the repository in the same way. */
  predicate Plain(steps: seq<Step>, root: string) {
    forall st :: st in steps ==> !st.Crash? && (st.EnqueueStep? ==> st.job.root == root)
  }

  lemma {:induction false} PlainThen(st: Step, rest: seq<Step>, root: string)
    requires !st.Crash? && (st.EnqueueStep? ==> st.job.root == root) && Plain(rest, root)
    ensures Plain([st] + rest, root)
  {
  }

  lemma {:induction false} PlainIndex(job: Job, now: int, victims: seq<string>, rest: seq<Step>)
    requires Plain(rest, job.root)
    ensures Plain(IndexThen(job, now, victims, rest), job.root)
  {
    forall st | st in IndexThen(job, now, victims, rest) && st !in rest
      ensures !st.Crash? && (st.EnqueueStep? ==> st.job.root == job.root)
    {
    }
  }

  /** The file of the first build is deleted, and then the second copy of the job is built. */
  function SecondBuild(): seq<Step> {
    [DeleteNext] + ([DeleteNext] + ([Resend] + ([Receive] + ([StartBuild] + ([BuildSucceeds] + [])))))
  }

  lemma {:induction false} SecondCopyBuilt(s: System, job: Job)
    requires s.worker == Deleting([IndexFilePath(job)]) && s.recovery == Resending([job]) && s.channel == []
    requires Lookup(s.store, IdOf(job)).None?
    ensures IsRun(s, SecondBuild())
    ensures Exec(s, SecondBuild()) == s.(worker := Built(job), recovery := Resending([]),
                                         files := s.files + {IndexFilePath(job)})
  {
    var p := IndexFilePath(job);
    var s1 := s.(worker := Deleting([]), files := s.files - {p});
    var s2 := s1.(worker := Idle);
    assert [p][1..] == [];
    assert Apply(s, DeleteNext) == s1 && Apply(s1, DeleteNext) == s2;
    SecondCopyFromIdle(s2, job);
    StepThen(s1, DeleteNext, [Resend] + ([Receive] + ([StartBuild] + ([BuildSucceeds] + []))));
    StepThen(s, DeleteNext, [DeleteNext] + ([Resend] + ([Receive] + ([StartBuild] + ([BuildSucceeds] + [])))));
    assert s.files - {p} + {p} == s.files + {p};
  }

  lemma {:induction false} SecondCopyFromIdle(s: System, job: Job)
    requires s.worker.Idle? && s.recovery == Resending([job]) && s.channel == []
    requires Lookup(s.store, IdOf(job)).None?
    ensures var steps := [Resend] + ([Receive] + ([StartBuild] + ([BuildSucceeds] + [])));
            && IsRun(s, steps)
            && Exec(s, steps) == s.(worker := Built(job), recovery := Resending([]),
                                    files := s.files + {IndexFilePath(job)})
  {
    var s1 := s.(channel := [job], recovery := Resending([]));
    var s2 := s1.(channel := [], worker := Received(job));
    var s3 := s2.(worker := Building(job));
    assert [job][1..] == [] && [] + [job] == [job];
    assert Apply(s, Resend) == s1 && Apply(s1, Receive) == s2 && Apply(s2, StartBuild) == s3;
    StepThen(s3, BuildSucceeds, []);
    StepThen(s2, StartBuild, [BuildSucceeds] + []);
    StepThen(s1, Receive, [StartBuild] + ([BuildSucceeds] + []));
    StepThen(s, Resend, [Receive] + ([StartBuild] + ([BuildSucceeds] + [])));
  }

  function Later(root: string, a: string, b: string, c: string, rest: seq<Step>): seq<Step> {
    [DeleteNext] + IndexThen(Job(root, b), 2, [a], [DeleteNext] + IndexThen(Job(root, c), 3, [b], rest))
  }

  /** After `a` was built once, `b` and `c` evict it and hand its file back; the second copy waits. */
  lemma {:induction false} EvictsFirst(root: string, a: string, b: string, c: string, rest: seq<Step>)
    returns (steps: seq<Step>, s: System)
    requires RepoKey(root) == root && a != b && b != c
    ensures && Current(s, root, c, 3) && s.worker == Deleting([IndexFilePath(Job(root, a))])
            && s.store.pendingUnlink == [IndexFilePath(Job(root, b))]
            && s.recovery == Resending([Job(root, a)]) && s.channel == []
    ensures steps == Later(root, a, b, c, rest)
    ensures IsRun(s, rest) && Obeys(s, rest, RecoveryFirst) ==>
              IsRun(BuiltOnce(Job(root, a), 1), steps) && Exec(BuiltOnce(Job(root, a), 1), steps) == Exec(s, rest)
  {
    var s1 := BuiltOnce(Job(root, a), 1);
    FirstIsCurrent(root, a);
    IndexNext(Finish(s1), root, a, 1, b, 2);
    var s2 := Indexed(Finish(s1), Job(root, b), 2, [a]);
    IndexNext(Finish(s2), root, b, 2, c, 3);
    s := Indexed(Finish(s2), Job(root, c), 3, [b]);
    var third := IndexThen(Job(root, c), 3, [b], rest);
    var second := IndexThen(Job(root, b), 2, [a], [DeleteNext] + third);
    steps := [DeleteNext] + second;
    if IsRun(s, rest) && Obeys(s, rest, RecoveryFirst) {
      IndexRun(Finish(s2), Job(root, c), 3, [b], rest);
      FinishRun(s2, third);
      IndexRun(Finish(s1), Job(root, b), 2, [a], [DeleteNext] + third);
      FinishRun(s1, second);
    }
  }

  lemma {:induction false} FirstIsCurrent(root: string, a: string)
    requires RepoKey(root) == root
    ensures Calm(Finish(BuiltOnce(Job(root, a), 1))) && Current(Finish(BuiltOnce(Job(root, a), 1)), root, a, 1)
  {
  }

  lemma {:induction false} LeaksLater(root: string, a: string, b: string, c: string) returns (later: seq<Step>)
    requires RepoKey(root) == root && a != b && b != c && a != c
    ensures later == Later(root, a, b, c, SecondBuild()) && IsRun(BuiltOnce(Job(root, a), 1), later)
    ensures Leaked(Exec(BuiltOnce(Job(root, a), 1), later), IndexFilePath(Job(root, a)))
  {
    var s;
    later, s := EvictsFirst(root, a, b, c, SecondBuild());
    LeftForNobody(s, root, a, b, c);
    SecondCopyBuilt(s, Job(root, a));
    AlwaysFirst(s);
  }

  /** Nothing is enqueued from here on. */
  lemma {:induction false} AlwaysFirst(s: System)
    requires IsRun(s, SecondBuild())
    ensures Obeys(s, SecondBuild(), RecoveryFirst)
  {
    NoEnqueueObeys(s, SecondBuild());
  }

  lemma {:induction false} NoEnqueueObeys(s: System, steps: seq<Step>)
    requires IsRun(s, steps) && forall st :: st in steps ==> !st.EnqueueStep?
    ensures Obeys(s, steps, RecoveryFirst)
    decreases |steps|
  {
    if steps != [] {
      assert steps[0] in steps;
      NoEnqueueObeys(Apply(s, steps[0]), steps[1..]);
    }
  }

  /** Neither a crash nor a second spelling is needed: `a` is enqueued early and built, `b` and `c` evict it
      and its file is deleted, and then the second copy of its job writes the file again, which belongs to
      no entry and is in no list. */
  lemma {:induction false} DuplicateLeaks(root: string, a: string, b: string, c: string) returns (steps: seq<Step>)
    requires RepoKey(root) == root && a != b && b != c && a != c
    ensures IsRun(INITIAL, steps) && Plain(steps, root)
    ensures Leaked(Exec(INITIAL, steps), IndexFilePath(Job(root, a)))
  {
    var later := LeaksLater(root, a, b, c);
    PlainLater(root, a, b, c);
    PlainStart(Job(root, a), later);
    StartRun(Job(root, a), later);
    steps := FromStart(Job(root, a), later);
  }

  lemma {:induction false} LeftForNobody(s: System, root: string, a: string, b: string, c: string)
    requires Current(s, root, c, 3) && s.store.pendingUnlink == [IndexFilePath(Job(root, b))]
    requires a != b && a != c
    ensures Lookup(s.store, IdOf(Job(root, a))).None?
    ensures var p := IndexFilePath(Job(root, a));
            Leaked(s.(worker := Built(Job(root, a)), recovery := Resending([]), files := s.files + {p}), p)
  {
    OnlyCurrentOwns(s, root, c, IndexFilePath(Job(root, a)));
    JobOwnsItsPath(Job(root, a));
    assert IndexFilePath(Job(root, a)).sha != IndexFilePath(Job(root, b)).sha;
  }

  function FromStart(job: Job, later: seq<Step>): seq<Step> {
    [EnqueueStep(job, 1)] + ([TrySend(job)] + ([TakeRecoverable([IdOf(job)])] +
    ([Receive] + ([StartBuild] + ([BuildSucceeds] + ([MarkReadyStep(1, 1, [])] + later))))))
  }

  lemma {:induction false} StartRun(job: Job, later: seq<Step>)
    requires RepoKey(job.root) == job.root && IsRun(BuiltOnce(job, 1), later)
    ensures IsRun(INITIAL, FromStart(job, later))
    ensures Exec(INITIAL, FromStart(job, later)) == Exec(BuiltOnce(job, 1), later)
  {
    FirstCopyBuilt(job, 1, later);
    Doubled(job, 1, [Receive] + ([StartBuild] + ([BuildSucceeds] + ([MarkReadyStep(1, 1, [])] + later))));
  }

  lemma {:induction false} PlainStart(job: Job, later: seq<Step>)
    requires Plain(later, job.root)
    ensures Plain(FromStart(job, later), job.root)
  {
    forall st | st in FromStart(job, later) && st !in later
      ensures !st.Crash? && (st.EnqueueStep? ==> st.job.root == job.root)
    {
    }
  }

  lemma {:induction false} PlainLater(root: string, a: string, b: string, c: string)
    ensures Plain(Later(root, a, b, c, SecondBuild()), root)
  {
    var third := IndexThen(Job(root, c), 3, [b], SecondBuild());
    PlainIndex(Job(root, c), 3, [b], SecondBuild());
    PlainThen(DeleteNext, third, root);
    PlainIndex(Job(root, b), 2, [a], [DeleteNext] + third);
    PlainThen(DeleteNext, IndexThen(Job(root, b), 2, [a], [DeleteNext] + third), root);
  }
}
