/** The cache of decoded indexes seen from its runs alone: what a load returns was in the file at some
    moment of the load, and what is evicted was used least recently. */
module ScipCacheRuns {
  import opened Wrappers
  import opened ScipCache

  /** The states of a run, the first and the last included. */
  function States(s: State, steps: seq<Step>): (states: seq<State>)
    requires IsRun(s, steps)
    ensures |states| == |steps| + 1 && states[0] == s
    decreases |steps|
  {
    if steps == [] then [s] else [s] + States(Apply(s, steps[0]), steps[1..])
  }

  ghost predicate Leads(s: State, step: Step, t: State) {
    Enabled(s, step) && t == Apply(s, step)
  }

  ghost predicate IsTrace(states: seq<State>, steps: seq<Step>) {
    |states| == |steps| + 1 && forall n :: 0 <= n < |steps| ==> Leads(states[n], steps[n], states[n + 1])
  }

  lemma {:induction false} RunIsTrace(s: State, steps: seq<Step>)
    requires IsRun(s, steps)
    ensures IsTrace(States(s, steps), steps) && States(s, steps)[|steps|] == Exec(s, steps)
    decreases |steps|
  {
    if steps != [] {
      var rest := States(Apply(s, steps[0]), steps[1..]);
      RunIsTrace(Apply(s, steps[0]), steps[1..]);
      var states := States(s, steps);
      assert states == [s] + rest;
      forall n | 0 <= n < |steps| ensures Leads(states[n], steps[n], states[n + 1]) {
        if n > 0 {
          assert Leads(rest[n - 1], steps[1..][n - 1], rest[n]);
        }
      }
    }
  }

  // ------------------------------------------------------- when a load ran

  predicate IsReturned(s: State, c: CallId) {
    c in s.calls && s.calls[c].Returned?
  }

  predicate IsOf(step: Step, c: CallId) {
    !step.Rewrite? && step.call == c
  }

  lemma {:induction false} CallKeeps(s: State, step: Step, t: State, c: CallId)
    requires Leads(s, step, t) && c in s.calls
    ensures c in t.calls && t.calls[c].path == s.calls[c].path && t.calls[c].since == s.calls[c].since
    ensures s.calls[c].Returned? ==> t.calls[c] == s.calls[c]
    ensures !s.calls[c].Returned? && t.calls[c].Returned? ==>
              IsOf(step, c) && t.calls[c].until == |Versions(s, s.calls[c].path)|
  {
  }

  lemma {:induction false} VersionsGrow(s: State, step: Step, t: State, path: Path)
    requires Leads(s, step, t)
    ensures Versions(s, path) <= Versions(t, path) && |Versions(t, path)| <= |Versions(s, path)| + 1
  {
  }

  /** Between two moments of the run a path only gets more versions. */
  lemma {:induction false} VersionsStay(states: seq<State>, steps: seq<Step>, a: nat, b: nat, path: Path)
    requires IsTrace(states, steps) && a <= b <= |steps|
    ensures Versions(states[a], path) <= Versions(states[b], path)
    decreases b - a
  {
    if a < b {
      VersionsStay(states, steps, a, b - 1, path);
      VersionsGrow(states[b - 1], steps[b - 1], states[b], path);
    }
  }

  /** And every number of versions in between is that of some moment. */
  lemma {:induction false} MomentOf(states: seq<State>, steps: seq<Step>, a: nat, b: nat, path: Path, m: nat)
    returns (n: nat)
    requires IsTrace(states, steps) && a <= b <= |steps|
    requires |Versions(states[a], path)| <= m <= |Versions(states[b], path)|
    ensures a <= n <= b && |Versions(states[n], path)| == m
    decreases b - a
  {
    n := b;
    if |Versions(states[b], path)| > m {
      VersionsGrow(states[b - 1], steps[b - 1], states[b], path);
      n := MomentOf(states, steps, a, b - 1, path, m);
    }
  }

  lemma {:induction false} CallStays(states: seq<State>, steps: seq<Step>, a: nat, b: nat, c: CallId)
    requires IsTrace(states, steps) && a <= b <= |steps| && c in states[a].calls
    ensures c in states[b].calls && states[b].calls[c].path == states[a].calls[c].path
    ensures states[b].calls[c].since == states[a].calls[c].since
    ensures states[a].calls[c].Returned? ==> states[b].calls[c] == states[a].calls[c]
    decreases b - a
  {
    if a < b {
      CallStays(states, steps, a, b - 1, c);
      CallKeeps(states[b - 1], steps[b - 1], states[b], c);
    }
  }

  /** The step in which a call looks at the file first. */
  lemma {:induction false} StatsAt(states: seq<State>, steps: seq<Step>, c: CallId, b: nat) returns (i: nat)
    requires IsTrace(states, steps) && b <= |steps| && c !in states[0].calls && c in states[b].calls
    ensures i < b && steps[i].Stat? && steps[i].call == c && c !in states[i].calls && c in states[i + 1].calls
    decreases b
  {
    i := b - 1;
    assert Leads(states[i], steps[i], states[b]);
    if c in states[i].calls {
      i := StatsAt(states, steps, c, i);
    }
  }

  /** The step in which it returns. */
  lemma {:induction false} ReturnsAt(states: seq<State>, steps: seq<Step>, a: nat, b: nat, c: CallId) returns (j: nat)
    requires IsTrace(states, steps) && a <= b <= |steps| && c in states[a].calls && !IsReturned(states[a], c)
    requires IsReturned(states[b], c)
    ensures a <= j < b && IsOf(steps[j], c) && !IsReturned(states[j], c) && IsReturned(states[j + 1], c)
    ensures states[b].calls[c].until == |Versions(states[j], states[a].calls[c].path)|
    decreases b - a
  {
    j := b - 1;
    CallStays(states, steps, a, j, c);
    CallKeeps(states[j], steps[j], states[b], c);
    if IsReturned(states[j], c) {
      j := ReturnsAt(states, steps, a, j, c);
    }
  }

  /** A call begins with the version that is current in its first step, and fails there if it returns at
      once. */
  lemma {:induction false} BeginsWithLatest(s: State, step: Step, t: State)
    requires Leads(s, step, t) && step.Stat?
    ensures step.call in t.calls && t.calls[step.call].path == step.path
    ensures |Versions(t, step.path)| <= t.calls[step.call].since + 1
    ensures t.calls[step.call].Returned? ==> t.calls[step.call].result.Err?
  {
  }

  /** The call runs from step `i` to step `j`, and at moment `n` in between the file holds what it returns. */
  ghost predicate WasCurrent(states: seq<State>, steps: seq<Step>, c: CallId, i: nat, n: nat, j: nat)
    requires |states| == |steps| + 1 && IsReturned(states[|steps|], c) && states[|steps|].calls[c].result.Ok?
  {
    var call := states[|steps|].calls[c];
    && i < n <= j < |steps|
    && steps[i] == Stat(c, call.path) && c !in states[i].calls
    && IsOf(steps[j], c) && !IsReturned(states[j], c) && IsReturned(states[j + 1], c)
    && var version := Latest(states[n], call.path); version.File? && version.index == Some(call.result.value)
  }

  /** Over every run, said of its steps and states: what a successful load returns was in the file at some
      moment after the step in which the load looked at its time and before the step in which it
      returned, unless a time of the file has come back after its contents had changed. */
  lemma {:induction false} LoadsWhatWasThere(steps: seq<Step>, c: CallId) returns (i: nat, n: nat, j: nat)
    requires IsRun(INITIAL, steps) && IsReturned(Exec(INITIAL, steps), c)
    requires Exec(INITIAL, steps).calls[c].result.Ok?
    requires !TimeRepeats(Versions(Exec(INITIAL, steps), Exec(INITIAL, steps).calls[c].path))
    ensures States(INITIAL, steps)[|steps|] == Exec(INITIAL, steps)
    ensures WasCurrent(States(INITIAL, steps), steps, c, i, n, j)
  {
    var states := States(INITIAL, steps);
    RunIsTrace(INITIAL, steps);
    Transparent(steps, c);
    var call := states[|steps|].calls[c];
    var k: nat :| call.since <= k < call.until && Holds(Versions(states[|steps|], call.path), k, call.result.value);
    i, n, j := CurrentSometime(states, steps, c, k);
  }

  lemma {:induction false} CurrentSometime(states: seq<State>, steps: seq<Step>, c: CallId, k: nat)
    returns (i: nat, n: nat, j: nat)
    requires IsTrace(states, steps) && c !in states[0].calls
    requires IsReturned(states[|steps|], c) && states[|steps|].calls[c].result.Ok?
    requires var call := states[|steps|].calls[c];
             call.since <= k < call.until && Holds(Versions(states[|steps|], call.path), k, call.result.value)
    ensures WasCurrent(states, steps, c, i, n, j)
  {
    var call := states[|steps|].calls[c];
    i := StatsAt(states, steps, c, |steps|);
    BeginsWithLatest(states[i], steps[i], states[i + 1]);
    CallStays(states, steps, i + 1, |steps|, c);
    j := ReturnsAt(states, steps, i + 1, |steps|, c);
    n := MomentOf(states, steps, i + 1, j, call.path, k + 1);
    VersionsStay(states, steps, n, |steps|, call.path);
  }

  // --------------------------------------------------- least recently used

  /** When the run last used the entry of a path: by a look-up that found it valid, or by inserting it.
      `last` is when it was used before. */
  ghost function LastUse(s: State, steps: seq<Step>, path: Path, last: Option<int>): Option<int>
    requires IsRun(s, steps)
    decreases |steps|
  {
    if steps == [] then last
    else
      var used := match steps[0]
        case Lookup(c, now) =>
          if s.calls[c].path == path && path in s.cache && s.cache[path].mtime == s.calls[c].mtime then Some(now)
          else last
        case Insert(c, now, _) => if s.calls[c].path == path then Some(now) else last
        case _ => last;
      LastUse(Apply(s, steps[0]), steps[1..], path, used)
  }

  lemma {:induction false} LastUseIs(s: State, steps: seq<Step>, path: Path, last: Option<int>)
    requires IsRun(s, steps) && path in Exec(s, steps).cache
    requires path in s.cache ==> last == Some(s.cache[path].lastUsed)
    ensures LastUse(s, steps, path, last) == Some(Exec(s, steps).cache[path].lastUsed)
    decreases |steps|
  {
    if steps != [] {
      var used := match steps[0]
        case Lookup(c, now) =>
          if s.calls[c].path == path && path in s.cache && s.cache[path].mtime == s.calls[c].mtime then Some(now)
          else last
        case Insert(c, now, _) => if s.calls[c].path == path then Some(now) else last
        case _ => last;
      LastUseIs(Apply(s, steps[0]), steps[1..], path, used);
    }
  }

  /** An entry is dropped only by an insertion into a full cache, and over the whole run none of the others
      was used before it. */
  lemma {:induction false} DropsLeastRecentlyUsed(steps: seq<Step>, step: Step, dropped: Path, other: Path)
    requires IsRun(INITIAL, steps) && Enabled(Exec(INITIAL, steps), step)
    requires dropped in Exec(INITIAL, steps).cache && dropped !in Apply(Exec(INITIAL, steps), step).cache
    requires other in Exec(INITIAL, steps).cache
    ensures step.Insert? && |Exec(INITIAL, steps).cache| >= 8
    ensures var a, b := LastUse(INITIAL, steps, dropped, None), LastUse(INITIAL, steps, other, None);
            a.Some? && b.Some? && a.value <= b.value
  {
    LastUseIs(INITIAL, steps, dropped, None);
    LastUseIs(INITIAL, steps, other, None);
  }
}
