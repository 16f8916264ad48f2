/** Outstanding work can always be finished: without new enqueues and without a crash, every step
    brings the system closer to rest, and a system that cannot step has nothing outstanding. */
module IndexerProgress {
  import opened Common
  import opened Wrappers
  import opened IndexerStore
  import opened IndexerJobs
  import opened IndexerProtocol
  import opened IndexerExactlyOnce

  // ------------------------------------------ the orders the store picks exist

  lemma {:induction false} NewestOf(s: IndexerState, ids: set<Id>) returns (newest: Id)
    requires ids != {}
    ensures newest in ids && forall id :: id in ids ==> EnqueuedAt(s, newest) >= EnqueuedAt(s, id)
    decreases |ids|
  {
    newest :| newest in ids;
    var rest := ids - {newest};
    assert ids == rest + {newest};
    if rest != {} {
      var other := NewestOf(s, rest);
      if EnqueuedAt(s, other) > EnqueuedAt(s, newest) {
        newest := other;
      }
    }
  }

  lemma {:induction false} SortedListing(s: IndexerState, ids: set<Id>) returns (order: seq<Id>)
    ensures NoDuplicates(order) && forall id :: id in order <==> id in ids
    ensures forall i, j :: 0 <= i < j < |order| ==> EnqueuedAt(s, order[i]) >= EnqueuedAt(s, order[j])
    decreases |ids|
  {
    order := [];
    if ids != {} {
      var newest := NewestOf(s, ids);
      var rest := SortedListing(s, ids - {newest});
      order := [newest] + rest;
      assert forall i :: 1 <= i < |order| ==> order[i] == rest[i - 1] && order[i] in ids - {newest};
    }
  }

  function OutstandingIds(s: IndexerState): set<Id> {
    set key, sha | key in s.repos && sha in s.repos[key].commits && InFlight(s.repos[key].commits[sha].state)
      :: Id(key, sha)
  }

  lemma RecoveryOrderExists(s: IndexerState) returns (order: seq<Id>)
    ensures IsRecoveryOrder(s, order)
  {
    order := SortedListing(s, OutstandingIds(s));
    forall id ensures id in OutstandingIds(s) <==> Outstanding(s, id) {
      assert id == Id(id.key, id.sha);
    }
  }

  lemma {:induction false} OldestOf(commits: map<string, CommitEntry>, shas: set<string>) returns (oldest: string)
    requires shas != {} && shas <= commits.Keys
    ensures oldest in shas
    ensures forall x :: x in shas ==> commits[oldest].enqueuedAt <= commits[x].enqueuedAt
    decreases |shas|
  {
    oldest :| oldest in shas;
    var rest := shas - {oldest};
    if rest != {} {
      var other := OldestOf(commits, rest);
      if commits[other].enqueuedAt < commits[oldest].enqueuedAt {
        oldest := other;
      }
    }
  }

  lemma {:induction false} EvictionExists(commits: map<string, CommitEntry>, k: nat) returns (victims: seq<string>)
    ensures IsEviction(commits, k, victims)
    decreases |ReadyShas(commits)|
  {
    victims := [];
    var ready := ReadyShas(commits);
    if |ready| > k {
      var oldest := OldestOf(commits, ready);
      var fewer := commits - {oldest};
      assert ReadyShas(fewer) == ready - {oldest};
      var rest := EvictionExists(fewer, k);
      victims := [oldest] + rest;
      assert forall i :: 1 <= i < |victims| ==> victims[i] == rest[i - 1] && victims[i] in ReadyShas(fewer);
    }
  }

  // ------------------------------------------------------------- progress

  predicate Internal(st: Step) {
    !st.EnqueueStep? && !st.Crash?
  }

  /** Nothing is held and nothing is outstanding. */
  ghost predicate AtRest(s: System) {
    && s.recovery == Resending([]) && s.worker.Idle?
    && s.sending == multiset{} && s.failing == multiset{} && s.channel == []
    && forall id :: !Outstanding(s.store, id)
  }

  function WorkerWork(w: Worker): nat {
    match w
    case Received(_) => 5
    case Building(_) => 4
    case Built(_) => 3
    case BuildFailed(_, _) => 3
    case _ => 0
  }

  function Work(s: System): nat {
    7 * |s.sending| + |s.failing| + 6 * |s.channel| + WorkerWork(s.worker) +
    (if s.recovery.Resending? then 8 * |s.recovery.jobs| else 0)
  }

  function Deletions(s: System): nat {
    if s.worker.Deleting? then |s.worker.ripe| + 1 else 0
  }

  /** Each internal step takes recovery, or leaves less work, or deletes one file. */
  lemma InternalStepsShrink(s: System, st: Step)
    requires Enabled(s, st) && Internal(st)
    ensures var s' := Apply(s, st);
            || (s.recovery.NotTaken? && s'.recovery.Resending?)
            || (s'.recovery.NotTaken? == s.recovery.NotTaken? && Work(s') < Work(s))
            || (s'.recovery.NotTaken? == s.recovery.NotTaken? && Work(s') == Work(s) && Deletions(s') < Deletions(s))
  {
    match st {
      case TrySend(_) => SendersShrink(s, st);
      case TrySendFails(_) => SendersShrink(s, st);
      case RollBack(_, _) => SendersShrink(s, st);
      case Receive => QueuesShrink(s, st);
      case Resend => QueuesShrink(s, st);
      case _ =>
    }
  }

  lemma SendersShrink(s: System, st: Step)
    requires Enabled(s, st) && (st.TrySend? || st.TrySendFails? || st.RollBack?)
    ensures Work(Apply(s, st)) < Work(s) && Apply(s, st).recovery == s.recovery
  {
  }

  lemma QueuesShrink(s: System, st: Step)
    requires Enabled(s, st) && (st.Receive? || st.Resend?)
    ensures Work(Apply(s, st)) < Work(s) && Apply(s, st).recovery.NotTaken? == s.recovery.NotTaken?
  {
  }

  /** A system that is not at rest can take an internal step. */
  lemma RestOrStep(s: System) returns (st: Step)
    requires NoneStuck(s)
    ensures AtRest(s) || (Internal(st) && Enabled(s, st))
  {
    st := Crash;
    if s.recovery.NotTaken? {
      var order := RecoveryOrderExists(s.store);
      st := TakeRecoverable(order);
    } else if s.worker.Received? {
      st := StartBuild;
    } else if s.worker.Building? {
      st := BuildSucceeds;
    } else if s.worker.Built? {
      var id, p := IdOf(s.worker.job), IndexFilePath(s.worker.job);
      var victims := EvictionExists(WithReady(s.store, id, p, 0), 1);
      st := MarkReadyStep(0, 1, victims);
    } else if s.worker.BuildFailed? {
      st := MarkBuildFailed;
    } else if s.worker.Deleting? {
      st := DeleteNext;
    } else if s.channel != [] {
      st := Receive;
    } else if s.sending != multiset{} {
      var job :| job in s.sending;
      st := TrySend(job);
    } else if s.failing != multiset{} {
      var job :| job in s.failing;
      st := RollBack(job, "");
    } else if s.recovery.jobs != [] {
      st := Resend;
    } else {
      assert forall job :: Held(s, job) == 0;
      assert forall id :: !HasJob(s, id);
    }
  }

  /** From every reachable state some internal steps alone lead to rest: every commit that was
      outstanding is then Ready, Failed or evicted. */
  lemma {:induction false} Drains(s: System) returns (steps: seq<Step>)
    requires NoneStuck(s)
    ensures IsRun(s, steps) && AtRest(Exec(s, steps))
    ensures forall st :: st in steps ==> Internal(st)
    decreases s.recovery.NotTaken?, Work(s), Deletions(s)
  {
    steps := [];
    if !AtRest(s) {
      var st := RestOrStep(s);
      InternalStepsShrink(s, st);
      NoneStuckStep(s, st);
      var rest := Drains(Apply(s, st));
      steps := [st] + rest;
      assert steps[1..] == rest;
    }
  }

  ghost predicate CanStep(s: System) {
    exists st :: Internal(st) && Enabled(s, st)
  }

  lemma NoStepAtRest(s: System, st: Step)
    requires AtRest(s) && Internal(st)
    ensures !Enabled(s, st)
  {
  }

  lemma {:induction false} RestIffNoStep(s: System)
    requires NoneStuck(s)
    ensures AtRest(s) <==> !CanStep(s)
  {
    var st := RestOrStep(s);
    if AtRest(s) {
      forall other | Internal(other) ensures !Enabled(s, other) {
        NoStepAtRest(s, other);
      }
    }
  }

  /** At time `i` the scheduler takes whichever internal step it likes, and nothing only if there is none. */
  ghost predicate Follows(states: nat -> System, steps: nat -> Step, i: nat) {
    if CanStep(states(i)) then
      Internal(steps(i)) && Enabled(states(i), steps(i)) && states(i + 1) == Apply(states(i), steps(i))
    else states(i + 1) == states(i)
  }

  /** So does every schedule of internal steps, whatever it picks: none goes on for ever, and none stops
      before the system is at rest. */
  lemma {:induction false} EveryScheduleRests(states: nat -> System, steps: nat -> Step, i: nat) returns (n: nat)
    requires NoneStuck(states(i)) && forall k: nat :: i <= k ==> Follows(states, steps, k)
    ensures i <= n && AtRest(states(n)) && forall k: nat :: n <= k ==> states(k) == states(n)
    decreases states(i).recovery.NotTaken?, Work(states(i)), Deletions(states(i))
  {
    RestIffNoStep(states(i));
    assert Follows(states, steps, i);
    if CanStep(states(i)) {
      InternalStepsShrink(states(i), steps(i));
      NoneStuckStep(states(i), steps(i));
      n := EveryScheduleRests(states, steps, i + 1);
    } else {
      n := i;
      forall k: nat | n <= k ensures states(k) == states(n) {
        StaysAtRest(states, steps, n, k);
      }
    }
  }

  lemma {:induction false} StaysAtRest(states: nat -> System, steps: nat -> Step, n: nat, k: nat)
    requires n <= k && !CanStep(states(n)) && forall j: nat :: n <= j ==> Follows(states, steps, j)
    ensures states(k) == states(n)
    decreases k - n
  {
    if n < k {
      StaysAtRest(states, steps, n, k - 1);
      assert Follows(states, steps, k - 1);
    }
  }
}
