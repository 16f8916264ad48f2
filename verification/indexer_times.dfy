/** When commits were indexed: what time a Ready entry carries over a whole run, and what
    `last_ready` therefore answers (crates/aide-mcp/src/indexer/state.rs). */
module IndexerTimes {
  import opened Wrappers
  import opened IndexerStore
  import opened IndexerJobs
  import opened IndexerProtocol

  /** A mark_ready, with its place in the run and the time it was given. */
  datatype Made = Made(at: nat, now: int)

  predicate MakesReady(s: System, st: Step, id: Id) {
    st.MarkReadyStep? && s.worker.Built? && IdOf(s.worker.job) == id
  }

  /** The last mark_ready of this commit in the run; `at` counts from `from`. */
  ghost function LastMade(s: System, steps: seq<Step>, id: Id, from: nat): Option<Made>
    requires IsRun(s, steps)
    decreases |steps|
  {
    if steps == [] then None
    else
      var later := LastMade(Apply(s, steps[0]), steps[1..], id, from + 1);
      if later.Some? then later
      else if MakesReady(s, steps[0], id) then Some(Made(from, steps[0].now))
      else None
  }

  /** The run, counted from `from`, has that mark_ready at that place. */
  predicate HasMade(steps: seq<Step>, from: nat, made: Made) {
    && from <= made.at < from + |steps|
    && steps[made.at - from].MarkReadyStep? && steps[made.at - from].now == made.now
  }

  lemma {:induction false} HasMadeFrom(steps: seq<Step>, from: nat, made: Made)
    requires steps != []
    ensures HasMade(steps[1..], from + 1, made) ==> HasMade(steps, from, made)
    ensures steps[0].MarkReadyStep? && made == Made(from, steps[0].now) ==> HasMade(steps, from, made)
  {
    assert forall i :: 1 <= i < |steps| ==> steps[i] == steps[1..][i - 1];
  }

  lemma {:induction false} LastMadeIsStep(s: System, steps: seq<Step>, id: Id, from: nat)
    requires IsRun(s, steps) && LastMade(s, steps, id, from).Some?
    ensures HasMade(steps, from, LastMade(s, steps, id, from).value)
    decreases |steps|
  {
    var later := LastMade(Apply(s, steps[0]), steps[1..], id, from + 1);
    if later.Some? {
      LastMadeIsStep(Apply(s, steps[0]), steps[1..], id, from + 1);
    }
    HasMadeFrom(steps, from, LastMade(s, steps, id, from).value);
  }

  lemma {:induction false} MadeNow(s: System, st: Step, id: Id)
    requires Enabled(s, st) && MakesReady(s, st, id) && IsReady(Apply(s, st).store, id)
    ensures Lookup(Apply(s, st).store, id).value.indexedAt == Some(st.now)
  {
  }

  lemma {:induction false} KeepsTime(s: System, st: Step, id: Id)
    requires Enabled(s, st) && !MakesReady(s, st, id) && IsReady(Apply(s, st).store, id)
    ensures IsReady(s.store, id)
    ensures Lookup(Apply(s, st).store, id).value.indexedAt == Lookup(s.store, id).value.indexedAt
  {
    if st.TakeRecoverable? {
      DropAllLookup(s.store, Dropped(st.order, QUEUE_CAP), id);
    } else if st.MarkReadyStep? {
      OthersKeepTime(s, st, id);
    }
  }

  lemma {:induction false} OthersKeepTime(s: System, st: Step, id: Id)
    requires Enabled(s, st) && st.MarkReadyStep? && !MakesReady(s, st, id) && IsReady(Apply(s, st).store, id)
    ensures IsReady(s.store, id) && Lookup(Apply(s, st).store, id) == Lookup(s.store, id)
  {
  }

  /** Over every run, the index time of a Ready entry is that of the last mark_ready of its commit. */
  lemma {:induction false} ReadyTimeIs(s: System, steps: seq<Step>, id: Id, from: nat)
    requires IsRun(s, steps) && IsReady(Exec(s, steps).store, id)
    ensures var made, time := LastMade(s, steps, id, from), Lookup(Exec(s, steps).store, id).value.indexedAt;
            if made.Some? then time == Some(made.value.now)
            else IsReady(s.store, id) && time == Lookup(s.store, id).value.indexedAt
    decreases |steps|
  {
    if steps != [] {
      var st, s' := steps[0], Apply(s, steps[0]);
      ReadyTimeIs(s', steps[1..], id, from + 1);
      if LastMade(s', steps[1..], id, from + 1).None? {
        if MakesReady(s, st, id) {
          MadeNow(s, st, id);
        } else {
          KeepsTime(s, st, id);
        }
      }
    }
  }

  /** The clock does not go back between one mark_ready and a later one. */
  predicate TimesForward(steps: seq<Step>) {
    forall i, j :: 0 <= i < j < |steps| && steps[i].MarkReadyStep? && steps[j].MarkReadyStep? ==>
                     steps[i].now <= steps[j].now
  }

  /** What `last_ready` answers after any run from the first start: a commit whose last mark_ready carried
      the latest time. If the clock does not go back, none of the others that are still Ready was made
      so after it, unless at the same time. */
  lemma {:induction false} LastReadyIsLatest(steps: seq<Step>, key: string, info: CommitInfo, sha: string)
    requires IsRun(INITIAL, steps) && IsLastReady(Exec(INITIAL, steps).store, key, Some(info))
    requires IsReady(Exec(INITIAL, steps).store, Id(key, sha))
    ensures var answer := LastMade(INITIAL, steps, Id(key, info.sha), 0);
            var other := LastMade(INITIAL, steps, Id(key, sha), 0);
            && answer.Some? && other.Some? && info.indexedAt == Some(answer.value.now)
            && other.value.now <= answer.value.now
            && (TimesForward(steps) ==> other.value.at <= answer.value.at || other.value.now == answer.value.now)
  {
    ReadyTimeIs(INITIAL, steps, Id(key, info.sha), 0);
    ReadyTimeIs(INITIAL, steps, Id(key, sha), 0);
    LastMadeIsStep(INITIAL, steps, Id(key, info.sha), 0);
    LastMadeIsStep(INITIAL, steps, Id(key, sha), 0);
  }
}
