/** The indexer as a system of interleaved steps: enqueuers, the bounded channel, the serial
    worker, the start-up recovery task, deletions and crashes (crates/aide-mcp/src/indexer/).
    A step is one lock-held section of the store or one channel or file operation. */
module IndexerProtocol {
  import opened Wrappers
  import opened IndexerStore
  import opened IndexerJobs

  datatype Worker =
    | Idle
    | Received(job: Job)
    | Building(job: Job)
    | Built(job: Job)
    | BuildFailed(job: Job, reason: string)
    | Deleting(ripe: seq<IndexPath>)

  /** The recovery task: not yet run, or resending what it took from the store. */
  datatype Recovery = NotTaken | Resending(jobs: seq<Job>)

  datatype System = System(
    store: IndexerState,
    files: set<IndexPath>,
    sending: multiset<Job>,   // enqueuers told NeedsIndexing that have not tried the channel
    failing: multiset<Job>,   // enqueuers whose try_send failed, before their mark_failed
    channel: seq<Job>,
    recovery: Recovery,
    worker: Worker,
    made: multiset<IndexPath>,   // history: every path that a mark_ready made Ready
    handed: multiset<IndexPath>) // history: every path that a mark_ready handed back

  datatype Step =
    | EnqueueStep(job: Job, now: int)
    | TrySend(job: Job)
    | TrySendFails(job: Job)
    | RollBack(job: Job, reason: string)
    | Receive
    | StartBuild
    | BuildSucceeds
    | BuildFails(reason: string, leavesFile: bool)
    | MarkReadyStep(now: int, k: nat, victims: seq<string>)
    | MarkBuildFailed
    | DeleteNext
    | TakeRecoverable(order: seq<Id>)
    | Resend
    | Crash

  const INITIAL := System(EMPTY_STATE, {}, multiset{}, multiset{}, [], NotTaken, Idle, multiset{}, multiset{})

  ghost predicate Enabled(s: System, st: Step) {
    match st
    case EnqueueStep(_, _) => true
    case TrySend(job) => job in s.sending && |s.channel| < QUEUE_CAP
    case TrySendFails(job) => job in s.sending
    case RollBack(job, _) => job in s.failing
    case Receive => s.worker.Idle? && s.channel != []
    case StartBuild => s.worker.Received?
    case BuildSucceeds => s.worker.Building?
    case BuildFails(_, _) => s.worker.Building?
    case MarkReadyStep(now, k, victims) =>
      s.worker.Built? && k >= 1 &&
      MayEvict(s.store, IdOf(s.worker.job), IndexFilePath(s.worker.job), now, k, victims)
    case MarkBuildFailed => s.worker.BuildFailed?
    case DeleteNext => s.worker.Deleting?
    case TakeRecoverable(order) => s.recovery.NotTaken? && IsRecoveryOrder(s.store, order)
    case Resend => s.recovery.Resending? && s.recovery.jobs != [] && |s.channel| < QUEUE_CAP
    case Crash => true
  }

  function RecoveredJobs(ids: seq<Id>): (jobs: seq<Job>)
    ensures |jobs| == |ids| && forall i :: 0 <= i < |ids| ==> jobs[i] == Job(ids[i].key, ids[i].sha)
  {
    seq(|ids|, i requires 0 <= i < |ids| => Job(ids[i].key, ids[i].sha))
  }

  ghost function Apply(s: System, st: Step): System
    requires Enabled(s, st)
  {
    match st
    case EnqueueStep(job, now) =>
      var needs := OutcomeFor(Lookup(s.store, IdOf(job))) == NeedsIndexing;
      s.(store := Enqueue(s.store, IdOf(job), now),
         sending := if needs then s.sending + multiset{job} else s.sending)
    case TrySend(job) =>
      s.(sending := s.sending - multiset{job}, channel := s.channel + [job])
    case TrySendFails(job) =>
      s.(sending := s.sending - multiset{job}, failing := s.failing + multiset{job})
    case RollBack(job, reason) =>
      s.(failing := s.failing - multiset{job}, store := MarkFailed(s.store, IdOf(job), reason))
    case Receive =>
      s.(worker := Received(s.channel[0]), channel := s.channel[1..])
    case StartBuild =>
      s.(worker := Building(s.worker.job), store := MarkInProgress(s.store, IdOf(s.worker.job)))
    case BuildSucceeds =>
      s.(worker := Built(s.worker.job), files := s.files + {IndexFilePath(s.worker.job)})
    case BuildFails(reason, leavesFile) =>
      var p := IndexFilePath(s.worker.job);
      s.(worker := BuildFailed(s.worker.job, reason),
         files := if leavesFile then s.files + {p} else s.files - {p})
    case MarkReadyStep(now, k, victims) =>
      var id, p := IdOf(s.worker.job), IndexFilePath(s.worker.job);
      s.(store := MarkReady(s.store, id, p, now, victims),
         worker := Deleting(s.store.pendingUnlink),
         made := if Lookup(s.store, id).Some? then s.made + multiset{p} else s.made,
         handed := s.handed + multiset(s.store.pendingUnlink))
    case MarkBuildFailed =>
      s.(worker := Idle, store := MarkFailed(s.store, IdOf(s.worker.job), s.worker.reason))
    case DeleteNext =>
      if s.worker.ripe == [] then s.(worker := Idle)
      else s.(worker := Deleting(s.worker.ripe[1..]), files := s.files - {s.worker.ripe[0]})
    case TakeRecoverable(order) =>
      s.(recovery := Resending(RecoveredJobs(Taken(order, QUEUE_CAP))),
         store := DropAll(s.store, Dropped(order, QUEUE_CAP)))
    case Resend =>
      s.(recovery := Resending(s.recovery.jobs[1..]), channel := s.channel + [s.recovery.jobs[0]])
    case Crash =>
      System(s.store, s.files, multiset{}, multiset{}, [], NotTaken, Idle, s.made, s.handed)
  }

  // ---------------------------------------------------------------- runs

  ghost predicate IsRun(s: System, steps: seq<Step>)
    decreases |steps|
  {
    steps == [] || (Enabled(s, steps[0]) && IsRun(Apply(s, steps[0]), steps[1..]))
  }

  ghost function Exec(s: System, steps: seq<Step>): System
    requires IsRun(s, steps)
    decreases |steps|
  {
    if steps == [] then s else Exec(Apply(s, steps[0]), steps[1..])
  }

  /** In every state the channel holds at most 64 jobs, and recovery has at most as many left to send. */
  ghost predicate Bounded(s: System) {
    |s.channel| <= 64 && (s.recovery.Resending? ==> |s.recovery.jobs| <= 64)
  }

  lemma {:induction false} QueueIsBounded(s: System, steps: seq<Step>)
    requires IsRun(s, steps) && Bounded(s)
    ensures Bounded(Exec(s, steps))
    decreases |steps|
  {
    if steps != [] {
      QueueIsBounded(Apply(s, steps[0]), steps[1..]);
    }
  }

  /** Every step of the run is one that `g` allows in the state where it is taken. */
  ghost predicate Obeys(s: System, steps: seq<Step>, g: (System, Step) -> bool)
    requires IsRun(s, steps)
    decreases |steps|
  {
    steps == [] || (g(s, steps[0]) && Obeys(Apply(s, steps[0]), steps[1..], g))
  }

  /** Every state of the run, the first and the last included, satisfies `p`. */
  ghost predicate Along(s: System, steps: seq<Step>, p: System -> bool)
    requires IsRun(s, steps)
    decreases |steps|
  {
    p(s) && (steps == [] || Along(Apply(s, steps[0]), steps[1..], p))
  }

  /** Recovery runs before any enqueue: what `start` would guarantee if it awaited the task. */
  ghost predicate RecoveryFirst(s: System, st: Step) {
    st.EnqueueStep? ==> s.recovery.Resending?
  }

  // ------------------------------------------------------ outstanding jobs

  function WorkerHolds(w: Worker, job: Job): nat {
    if (w.Received? || w.Building? || w.Built? || w.BuildFailed?) && w.job == job then 1 else 0
  }

  function RecoveryHolds(r: Recovery, job: Job): nat {
    if r.Resending? then multiset(r.jobs)[job] else 0
  }

  /** How many copies of `job` are held by enqueuers, the channel, recovery and the worker. */
  function Held(s: System, job: Job): nat {
    s.sending[job] + s.failing[job] + multiset(s.channel)[job] +
    RecoveryHolds(s.recovery, job) + WorkerHolds(s.worker, job)
  }

  ghost predicate HasJob(s: System, id: Id) {
    exists job :: Held(s, job) > 0 && IdOf(job) == id
  }

  /** Somebody holds a job for every outstanding commit. */
  ghost predicate Backed(s: System) {
    forall id :: Outstanding(s.store, id) ==> HasJob(s, id)
  }

  /** Outstanding commits and held jobs correspond one to one. */
  ghost predicate OneToOne(s: System) {
    && Backed(s)
    && (forall job :: Held(s, job) > 0 ==> Held(s, job) == 1 && Outstanding(s.store, IdOf(job)))
    && (forall a, b :: Held(s, a) > 0 && Held(s, b) > 0 && IdOf(a) == IdOf(b) ==> a == b)
  }

  lemma TakeFirst<T>(xs: seq<T>)
    requires xs != []
    ensures multiset(xs) == multiset{xs[0]} + multiset(xs[1..])
  {
    assert xs == [xs[0]] + xs[1..];
  }

  /** Whether the step schedules `job` anew. */
  predicate Adds(s: System, st: Step, job: Job) {
    st.EnqueueStep? && st.job == job && OutcomeFor(Lookup(s.store, IdOf(job))) == NeedsIndexing
  }

  /** Whether the step ends a copy of `job`. */
  predicate Finishes(s: System, st: Step, job: Job) {
    match st
    case RollBack(j, _) => j == job
    case MarkReadyStep(_, _, _) => WorkerHolds(s.worker, job) == 1
    case MarkBuildFailed => WorkerHolds(s.worker, job) == 1
    case _ => false
  }

  /** Jobs are conserved: apart from a crash and from recovery, a step moves held jobs around,
      adds the one an enqueuer just scheduled, or drops the one just finished. */
  lemma JobsConserved(s: System, st: Step, job: Job)
    requires Enabled(s, st) && !st.Crash? && !st.TakeRecoverable?
    ensures Held(Apply(s, st), job) ==
            Held(s, job) + (if Adds(s, st, job) then 1 else 0) - (if Finishes(s, st, job) then 1 else 0)
  {
    match st {
      case TrySend(_) => TrySendMoves(s, st, job);
      case TrySendFails(_) => TrySendMoves(s, st, job);
      case Receive => QueueMoves(s, st, job);
      case Resend => QueueMoves(s, st, job);
      case MarkReadyStep(_, _, _) => WorkerFinishes(s, st, job);
      case MarkBuildFailed => WorkerFinishes(s, st, job);
      case _ => OthersKeep(s, st, job);
    }
  }

  lemma WorkerFinishes(s: System, st: Step, job: Job)
    requires Enabled(s, st) && (st.MarkReadyStep? || st.MarkBuildFailed?)
    ensures Held(Apply(s, st), job) == Held(s, job) - (if Finishes(s, st, job) then 1 else 0)
  {
  }

  lemma OthersKeep(s: System, st: Step, job: Job)
    requires Enabled(s, st) && !st.Crash? && !st.TakeRecoverable? && !st.TrySend? && !st.TrySendFails?
    requires !st.Receive? && !st.Resend? && !st.MarkReadyStep? && !st.MarkBuildFailed?
    ensures Held(Apply(s, st), job) ==
            Held(s, job) + (if Adds(s, st, job) then 1 else 0) - (if Finishes(s, st, job) then 1 else 0)
  {
  }

  lemma TrySendMoves(s: System, st: Step, job: Job)
    requires Enabled(s, st) && (st.TrySend? || st.TrySendFails?)
    ensures Held(Apply(s, st), job) == Held(s, job)
  {
    assert multiset(s.channel + [st.job])[job] == multiset(s.channel)[job] + multiset{st.job}[job];
  }

  lemma QueueMoves(s: System, st: Step, job: Job)
    requires Enabled(s, st) && (st.Receive? || st.Resend?)
    ensures Held(Apply(s, st), job) == Held(s, job)
  {
    if st.Receive? {
      TakeFirst(s.channel);
    } else {
      TakeFirst(s.recovery.jobs);
      var first := s.recovery.jobs[0];
      assert multiset(s.channel + [first])[job] == multiset(s.channel)[job] + multiset{first}[job];
    }
  }
}
