/** The cache of decoded index files, validated by modification time (`cached_scip_load` in
    crates/aide-mcp/src/server.rs). Every call runs in up to four steps, between which other calls
    and rewrites of the files may run: look at the file's time, look into the cache, read the file,
    insert into the cache. */
module ScipCache {
  import opened Wrappers

  type Path = string
  type CallId = nat
  type Parsed = string

  const SCIP_CACHE_CAP: nat := 8

  /** A state a path has been in. `index` is what the contents decode to, if they do. */
  datatype Version = Absent | File(mtime: int, index: Option<Parsed>)

  datatype Entry = Entry(mtime: int, lastUsed: int, index: Parsed)

  datatype LoadError = StatFailed | ReadFailed | DecodeFailed

  /** How far a call is. `since` is the version it looked at first; `until` the one at its return. */
  datatype Call =
    | Statted(path: Path, since: nat, mtime: int)
    | Missed(path: Path, since: nat, mtime: int)
    | Loaded(path: Path, since: nat, mtime: int, index: Parsed)
    | Returned(path: Path, since: nat, until: nat, result: Result<Parsed, LoadError>)

  /** `history` has every version of every path, the current one last. */
  datatype State = State(history: map<Path, seq<Version>>, cache: map<Path, Entry>, calls: map<CallId, Call>)

  function Versions(s: State, path: Path): seq<Version> {
    if path in s.history then s.history[path] else []
  }

  function Latest(s: State, path: Path): Version {
    var versions := Versions(s, path);
    if versions == [] then Absent else versions[|versions| - 1]
  }

  const INITIAL := State(map[], map[], map[])

  // ------------------------------------------------------- the cache itself

  /** What a locked look-up finds: a valid entry is marked as used. */
  function CacheLookup(cache: map<Path, Entry>, path: Path, mtime: int, now: int): (map<Path, Entry>, Option<Parsed>) {
    if path in cache && cache[path].mtime == mtime then
      (cache[path := cache[path].(lastUsed := now)], Some(cache[path].index))
    else (cache, None)
  }

  predicate IsOldest(cache: map<Path, Entry>, victim: Path) {
    victim in cache && forall p :: p in cache ==> cache[victim].lastUsed <= cache[p].lastUsed
  }

  /** A full cache gives up its oldest entry first, even if the new entry replaces another one. */
  function CacheInsert(cache: map<Path, Entry>, victim: Path, path: Path, entry: Entry): map<Path, Entry> {
    (if |cache| >= SCIP_CACHE_CAP then cache - {victim} else cache)[path := entry]
  }

  class Cache {
    var entries: map<Path, Entry>

    constructor ()
      ensures entries == map[]
    {
      entries := map[];
    }

    method Lookup(path: Path, mtime: int, now: int) returns (hit: Option<Parsed>)
      modifies this
      ensures (entries, hit) == CacheLookup(old(entries), path, mtime, now)
      ensures hit.Some? <==> path in old(entries) && old(entries)[path].mtime == mtime
      ensures hit.None? ==> entries == old(entries)
      ensures hit.Some? ==> hit.value == old(entries)[path].index
                            && entries == old(entries)[path := Entry(mtime, now, old(entries)[path].index)]
    {
      hit := None;
      if path in entries {
        var entry := entries[path];
        if entry.mtime == mtime {
          entries := entries[path := entry.(lastUsed := now)];
          hit := Some(entry.index);
        }
      }
    }

    method Oldest() returns (victim: Path)
      requires |entries| > 0
      ensures IsOldest(entries, victim)
    {
      var left := entries.Keys;
      assert |entries.Keys| == |entries|;
      victim :| victim in left;
      left := left - {victim};
      while left != {}
        invariant victim in entries && left <= entries.Keys
        invariant forall p :: p in entries.Keys - left ==> entries[victim].lastUsed <= entries[p].lastUsed
        decreases |left|
      {
        var path :| path in left;
        left := left - {path};
        if entries[path].lastUsed < entries[victim].lastUsed {
          victim := path;
        }
      }
    }

    method Insert(path: Path, mtime: int, index: Parsed, now: int) returns (ghost victim: Path)
      modifies this
      ensures |old(entries)| >= SCIP_CACHE_CAP ==> IsOldest(old(entries), victim)
      ensures entries == CacheInsert(old(entries), victim, path, Entry(mtime, now, index))
      ensures entries == (if |old(entries)| >= 8 then old(entries) - {victim} else old(entries))
                         [path := Entry(mtime, now, index)]
    {
      victim := "";
      if |entries| >= SCIP_CACHE_CAP {
        var evict := Oldest();
        victim := evict;
        entries := entries - {evict};
      }
      entries := entries[path := Entry(mtime, now, index)];
    }
  }

  // ------------------------------------------------------------- the steps

  datatype Step =
    | Rewrite(path: Path, version: Version)
    | Stat(call: CallId, path: Path)
    | Lookup(call: CallId, now: int)
    | ReadFile(call: CallId)
    | Insert(call: CallId, now: int, victim: Path)

  predicate Enabled(s: State, step: Step) {
    match step
    case Rewrite(_, _) => true
    case Stat(c, _) => c !in s.calls
    case Lookup(c, _) => c in s.calls && s.calls[c].Statted?
    case ReadFile(c) => c in s.calls && s.calls[c].Missed?
    case Insert(c, _, victim) =>
      c in s.calls && s.calls[c].Loaded? && (|s.cache| >= SCIP_CACHE_CAP ==> IsOldest(s.cache, victim))
  }

  function Now(s: State, path: Path): nat {
    |Versions(s, path)|
  }

  /** The entry carries the time looked at first, not that of the version read. */
  function EntryOf(s: State, step: Step): Entry
    requires step.Insert? && Enabled(s, step)
  {
    Entry(s.calls[step.call].mtime, step.now, s.calls[step.call].index)
  }

  function Apply(s: State, step: Step): State
    requires Enabled(s, step)
  {
    match step
    case Rewrite(path, version) => s.(history := s.history[path := Versions(s, path) + [version]])
    case Stat(c, path) =>
      var latest := Latest(s, path);
      var call := if latest.Absent? then Returned(path, Now(s, path), Now(s, path), Err(StatFailed))
                  else Statted(path, Now(s, path) - 1, latest.mtime);
      s.(calls := s.calls[c := call])
    case Lookup(c, now) =>
      var call := s.calls[c];
      var (cache, hit) := CacheLookup(s.cache, call.path, call.mtime, now);
      var next := if hit.None? then Missed(call.path, call.since, call.mtime)
                  else Returned(call.path, call.since, Now(s, call.path), Ok(hit.value));
      s.(cache := cache, calls := s.calls[c := next])
    case ReadFile(c) =>
      var call := s.calls[c];
      var latest := Latest(s, call.path);
      var next := if latest.Absent? then Returned(call.path, call.since, Now(s, call.path), Err(ReadFailed))
                  else if latest.index.None? then Returned(call.path, call.since, Now(s, call.path), Err(DecodeFailed))
                  else Loaded(call.path, call.since, call.mtime, latest.index.value);
      s.(calls := s.calls[c := next])
    case Insert(c, now, victim) =>
      var call := s.calls[c];
      State(s.history, CacheInsert(s.cache, victim, call.path, EntryOf(s, step)),
            s.calls[c := Returned(call.path, call.since, Now(s, call.path), Ok(call.index))])
  }

  predicate IsRun(s: State, steps: seq<Step>)
    decreases |steps|
  {
    steps == [] || (Enabled(s, steps[0]) && IsRun(Apply(s, steps[0]), steps[1..]))
  }

  function Exec(s: State, steps: seq<Step>): State
    requires IsRun(s, steps)
    decreases |steps|
  {
    if steps == [] then s else Exec(Apply(s, steps[0]), steps[1..])
  }

  // ----------------------------------------------------------- transparency

  /** Version `k` of the path holds `index`. */
  predicate Holds(versions: seq<Version>, k: nat, index: Parsed) {
    k < |versions| && versions[k].File? && versions[k].index == Some(index)
  }

  /** Some version between the two holds `index`. */
  ghost predicate HeldBetween(versions: seq<Version>, since: nat, until: nat, index: Parsed) {
    exists k: nat :: since <= k < until && Holds(versions, k, index)
  }

  predicate HasTime(versions: seq<Version>, k: nat, mtime: int) {
    k < |versions| && versions[k].File? && versions[k].mtime == mtime
  }

  /** Versions `j` and `i` have one time, and version `k`, no earlier than `j` and before `i`, decodes
      to something that version `i` does not hold. */
  predicate Repeats(versions: seq<Version>, j: nat, k: nat, i: nat) {
    && j <= k < i < |versions|
    && versions[j].File? && versions[i].File? && versions[j].mtime == versions[i].mtime
    && versions[k].File? && versions[k].index.Some? && versions[k].index != versions[i].index
  }

  /** A time comes back after the contents have changed. */
  ghost predicate TimeRepeats(versions: seq<Version>) {
    exists j: nat, k: nat, i: nat :: Repeats(versions, j, k, i)
  }

  /** An entry's index was read no earlier than its time was: some version that is not older than
      the one with that time holds it. */
  ghost predicate EntryOk(versions: seq<Version>, entry: Entry) {
    exists j: nat :: HasTime(versions, j, entry.mtime) && HeldBetween(versions, j, |versions|, entry.index)
  }

  /** A returned index was current during the call, or else a time has come back. */
  ghost predicate CallOk(versions: seq<Version>, call: Call) {
    match call
    case Statted(_, since, mtime) => HasTime(versions, since, mtime)
    case Missed(_, since, mtime) => HasTime(versions, since, mtime)
    case Loaded(_, since, mtime, index) =>
      HasTime(versions, since, mtime) && HeldBetween(versions, since, |versions|, index)
    case Returned(_, since, until, result) =>
      until <= |versions| &&
      (result.Ok? ==> HeldBetween(versions, since, until, result.value) || TimeRepeats(versions))
  }

  ghost predicate Sound(s: State) {
    && (forall p :: p in s.cache ==> EntryOk(Versions(s, p), s.cache[p]))
    && (forall c :: c in s.calls ==> CallOk(Versions(s, s.calls[c].path), s.calls[c]))
  }

  lemma HeldLonger(a: seq<Version>, b: seq<Version>, since: nat, until: nat, more: nat, index: Parsed)
    requires HeldBetween(a, since, until, index) && a <= b && until <= more
    ensures HeldBetween(b, since, more, index)
  {
    var k: nat :| since <= k < until && Holds(a, k, index);
    assert Holds(b, k, index);
  }

  lemma StillRepeats(a: seq<Version>, b: seq<Version>)
    requires TimeRepeats(a) && a <= b
    ensures TimeRepeats(b)
  {
    var j: nat, k: nat, i: nat :| Repeats(a, j, k, i);
    assert Repeats(b, j, k, i);
  }

  lemma EntryStays(a: seq<Version>, b: seq<Version>, entry: Entry)
    requires EntryOk(a, entry) && a <= b
    ensures EntryOk(b, entry)
  {
    var j: nat :| HasTime(a, j, entry.mtime) && HeldBetween(a, j, |a|, entry.index);
    HeldLonger(a, b, j, |a|, |b|, entry.index);
    assert HasTime(b, j, entry.mtime);
  }

  lemma CallStays(a: seq<Version>, b: seq<Version>, call: Call)
    requires CallOk(a, call) && a <= b
    ensures CallOk(b, call)
  {
    match call
    case Statted(_, _, _) =>
    case Missed(_, _, _) =>
    case Loaded(_, since, _, index) => HeldLonger(a, b, since, |a|, |b|, index);
    case Returned(_, since, until, result) =>
      if result.Ok? {
        if HeldBetween(a, since, until, result.value) {
          HeldLonger(a, b, since, until, until, result.value);
        } else {
          StillRepeats(a, b);
        }
      }
  }

  lemma RewriteKeepsSound(s: State, path: Path, version: Version)
    requires Sound(s)
    ensures Sound(Apply(s, Rewrite(path, version)))
  {
    var t := Apply(s, Rewrite(path, version));
    forall p ensures Versions(s, p) <= Versions(t, p) {
    }
    forall p | p in t.cache ensures EntryOk(Versions(t, p), t.cache[p]) {
      EntryStays(Versions(s, p), Versions(t, p), s.cache[p]);
    }
    forall c | c in t.calls ensures CallOk(Versions(t, t.calls[c].path), t.calls[c]) {
      CallStays(Versions(s, t.calls[c].path), Versions(t, t.calls[c].path), s.calls[c]);
    }
  }

  /** A hit is right if the entry was read in the version the call began with or later. Otherwise an
      earlier version had that version's time and something else was read since. */
  lemma HitIsCurrent(versions: seq<Version>, since: nat, entry: Entry)
    requires HasTime(versions, since, entry.mtime) && EntryOk(versions, entry)
    ensures HeldBetween(versions, since, |versions|, entry.index) || TimeRepeats(versions)
  {
    var j: nat :| HasTime(versions, j, entry.mtime) && HeldBetween(versions, j, |versions|, entry.index);
    var k: nat :| j <= k < |versions| && Holds(versions, k, entry.index);
    if k < since {
      if versions[since].index == Some(entry.index) {
        assert Holds(versions, since, entry.index);
      } else {
        assert Repeats(versions, j, k, since);
      }
    }
  }

  /** A step of one call that leaves the entries' contents alone. */
  lemma OneCallMoves(s: State, t: State, c: CallId)
    requires Sound(s) && t.history == s.history && c in t.calls
    requires t.cache.Keys == s.cache.Keys
    requires forall p :: p in t.cache ==> t.cache[p].(lastUsed := 0) == s.cache[p].(lastUsed := 0)
    requires t.calls == s.calls[c := t.calls[c]] && CallOk(Versions(t, t.calls[c].path), t.calls[c])
    ensures Sound(t)
  {
    forall p | p in t.cache ensures EntryOk(Versions(t, p), t.cache[p]) {
      assert EntryOk(Versions(s, p), s.cache[p]);
      assert t.cache[p].(lastUsed := 0).mtime == s.cache[p].mtime;
      assert t.cache[p].(lastUsed := 0).index == s.cache[p].index;
    }
    forall d | d in t.calls ensures CallOk(Versions(t, t.calls[d].path), t.calls[d]) {
      assert d != c ==> t.calls[d] == s.calls[d];
    }
  }

  lemma StatKeepsSound(s: State, c: CallId, path: Path)
    requires Sound(s) && Enabled(s, Stat(c, path))
    ensures Sound(Apply(s, Stat(c, path)))
  {
    OneCallMoves(s, Apply(s, Stat(c, path)), c);
  }

  lemma LookupKeepsSound(s: State, c: CallId, now: int)
    requires Sound(s) && Enabled(s, Lookup(c, now))
    ensures Sound(Apply(s, Lookup(c, now)))
  {
    var was := s.calls[c];
    var versions := Versions(s, was.path);
    assert CallOk(versions, was);
    if was.path in s.cache && s.cache[was.path].mtime == was.mtime {
      HitIsCurrent(versions, was.since, s.cache[was.path]);
    }
    OneCallMoves(s, Apply(s, Lookup(c, now)), c);
  }

  lemma ReadFileKeepsSound(s: State, c: CallId)
    requires Sound(s) && Enabled(s, ReadFile(c))
    ensures Sound(Apply(s, ReadFile(c)))
  {
    var t := Apply(s, ReadFile(c));
    var versions := Versions(s, s.calls[c].path);
    assert CallOk(versions, s.calls[c]);
    if t.calls[c].Loaded? {
      assert Holds(versions, |versions| - 1, t.calls[c].index);
    }
    OneCallMoves(s, t, c);
  }

  lemma InsertKeepsSound(s: State, step: Step)
    requires Sound(s) && Enabled(s, step) && step.Insert?
    ensures Sound(Apply(s, step))
  {
    var t := Apply(s, step);
    var was := s.calls[step.call];
    var versions := Versions(s, was.path);
    assert EntryOk(versions, t.cache[was.path]);
    forall p | p in t.cache ensures EntryOk(Versions(t, p), t.cache[p]) {
    }
  }

  lemma {:induction false} RunsAreSound(s: State, steps: seq<Step>)
    requires Sound(s) && IsRun(s, steps)
    ensures Sound(Exec(s, steps))
    decreases |steps|
  {
    if steps != [] {
      match steps[0] {
        case Rewrite(path, version) => RewriteKeepsSound(s, path, version);
        case Insert(_, _, _) => InsertKeepsSound(s, steps[0]);
        case Stat(c, path) => StatKeepsSound(s, c, path);
        case Lookup(c, now) => LookupKeepsSound(s, c, now);
        case ReadFile(c) => ReadFileKeepsSound(s, c);
      }
      RunsAreSound(Apply(s, steps[0]), steps[1..]);
    }
  }

  /** A call that succeeded with contents the file had at no point between its start and its return. */
  ghost predicate IsStale(s: State, c: CallId) {
    c in s.calls && s.calls[c].Returned? && s.calls[c].result.Ok? &&
    !HeldBetween(Versions(s, s.calls[c].path), s.calls[c].since, s.calls[c].until, s.calls[c].result.value)
  }

  /** Whatever the calls and rewrites interleaved with it, a successful call returns what the file
      held at some point between its start and its return, provided that no time of the file came
      back after its contents had changed; times may otherwise go back and forth. */
  lemma Transparent(steps: seq<Step>, c: CallId)
    requires IsRun(INITIAL, steps)
    requires c in Exec(INITIAL, steps).calls
    requires !TimeRepeats(Versions(Exec(INITIAL, steps), Exec(INITIAL, steps).calls[c].path))
    ensures !IsStale(Exec(INITIAL, steps), c)
  {
    RunsAreSound(INITIAL, steps);
  }

  /** In particular the cache is right for files whose every rewrite gives them a time they never
      had, whether later or earlier. */
  lemma NewTimesNeverRepeat(versions: seq<Version>)
    requires forall i, j :: 0 <= i < j < |versions| && versions[i].File? && versions[j].File? ==>
                              versions[i].mtime != versions[j].mtime
    ensures !TimeRepeats(versions)
  {
  }

  // ----------------------------------------------------- the stale run, if any

  lemma StepThen(s: State, step: Step, t: State, rest: seq<Step>)
    requires Enabled(s, step) && t == Apply(s, step) && IsRun(t, rest)
    ensures IsRun(s, [step] + rest) && Exec(s, [step] + rest) == Exec(t, rest)
  {
    assert ([step] + rest)[1..] == rest;
  }

  function Rewrites(path: Path, versions: seq<Version>, rest: seq<Step>): seq<Step> {
    if versions == [] then rest else [Rewrite(path, versions[0])] + Rewrites(path, versions[1..], rest)
  }

  /** A state in which only one path has been touched. */
  function Only(path: Path, versions: seq<Version>, cache: map<Path, Entry>, calls: map<CallId, Call>): State {
    State(map[path := versions], cache, calls)
  }

  lemma {:induction false} RewritesRun(path: Path, before: seq<Version>, more: seq<Version>,
                                       cache: map<Path, Entry>, calls: map<CallId, Call>, rest: seq<Step>)
    requires IsRun(Only(path, before + more, cache, calls), rest)
    ensures var s := Only(path, before, cache, calls);
            IsRun(s, Rewrites(path, more, rest)) &&
            Exec(s, Rewrites(path, more, rest)) == Exec(Only(path, before + more, cache, calls), rest)
    decreases |more|
  {
    if more == [] {
      assert before + more == before;
    } else {
      var s, t := Only(path, before, cache, calls), Only(path, before + [more[0]], cache, calls);
      assert before + [more[0]] + more[1..] == before + more;
      RewritesRun(path, before + [more[0]], more[1..], cache, calls, rest);
      assert Apply(s, Rewrite(path, more[0])) == t;
      StepThen(s, Rewrite(path, more[0]), t, Rewrites(path, more[1..], rest));
    }
  }

  function LateSteps(path: Path, versions: seq<Version>, j: nat, k: nat, i: nat): seq<Step>
    requires Repeats(versions, j, k, i)
  {
    [Stat(0, path)] + ([Lookup(0, 0)] + Rewrites(path, versions[j + 1..k + 1],
    [ReadFile(0)] + ([Insert(0, 0, path)] + Rewrites(path, versions[k + 1..i + 1],
    StaleEnd(path, versions, i)))))
  }

  /** Call 0 looks at version `j`'s time and reads version `k`; call 1 runs in version `i`. */
  function StaleRun(path: Path, versions: seq<Version>, j: nat, k: nat, i: nat): seq<Step>
    requires Repeats(versions, j, k, i)
  {
    [Rewrite(path, versions[0])] + Rewrites(path, versions[1..j + 1], LateSteps(path, versions, j, k, i))
  }

  function StaleEnd(path: Path, versions: seq<Version>, i: nat): seq<Step>
    requires i < |versions|
  {
    [Stat(1, path)] + ([Lookup(1, 1)] + Rewrites(path, versions[i + 1..], []))
  }

  function FirstCall(path: Path, versions: seq<Version>, j: nat, k: nat): Call
    requires j <= k < |versions| && versions[k].File? && versions[k].index.Some?
  {
    Returned(path, j, k + 1, Ok(versions[k].index.value))
  }

  /** The end of the run: what version `k` held is returned while version `i` is current. */
  function StaleState(path: Path, versions: seq<Version>, j: nat, k: nat, i: nat): State
    requires Repeats(versions, j, k, i)
  {
    var index := versions[k].index.value;
    Only(path, versions, map[path := Entry(versions[j].mtime, 1, index)],
         map[0 := FirstCall(path, versions, j, k), 1 := Returned(path, i, i + 1, Ok(index))])
  }

  lemma {:induction false} EndsStale(path: Path, versions: seq<Version>, j: nat, k: nat, i: nat)
    requires Repeats(versions, j, k, i)
    ensures var s := Only(path, versions[..i + 1], map[path := Entry(versions[j].mtime, 0, versions[k].index.value)],
                          map[0 := FirstCall(path, versions, j, k)]);
            IsRun(s, StaleEnd(path, versions, i)) &&
            Exec(s, StaleEnd(path, versions, i)) == StaleState(path, versions, j, k, i)
  {
    var index, mtime, call := versions[k].index.value, versions[j].mtime, FirstCall(path, versions, j, k);
    var now := versions[..i + 1];
    var s0 := Only(path, now, map[path := Entry(mtime, 0, index)], map[0 := call]);
    var s1 := s0.(calls := map[0 := call, 1 := Statted(path, i, mtime)]);
    var end := StaleState(path, versions, j, k, i);
    var s2 := Only(path, now, end.cache, end.calls);
    assert Apply(s0, Stat(1, path)) == s1;
    assert Apply(s1, Lookup(1, 1)) == s2;
    assert now + versions[i + 1..] == versions;
    RewritesRun(path, now, versions[i + 1..], end.cache, end.calls, []);
    StepThen(s1, Lookup(1, 1), s2, Rewrites(path, versions[i + 1..], []));
    StepThen(s0, Stat(1, path), s1, [Lookup(1, 1)] + Rewrites(path, versions[i + 1..], []));
  }

  lemma {:induction false} ReadsLater(path: Path, versions: seq<Version>, j: nat, k: nat, i: nat)
    requires Repeats(versions, j, k, i)
    ensures var s := Only(path, versions[..k + 1], map[], map[0 := Missed(path, j, versions[j].mtime)]);
            var steps := [ReadFile(0)] + ([Insert(0, 0, path)] + Rewrites(path, versions[k + 1..i + 1],
                         StaleEnd(path, versions, i)));
            IsRun(s, steps) && Exec(s, steps) == StaleState(path, versions, j, k, i)
  {
    var index, mtime := versions[k].index.value, versions[j].mtime;
    var now, rest := versions[..k + 1], StaleEnd(path, versions, i);
    var s0 := Only(path, now, map[], map[0 := Missed(path, j, mtime)]);
    var s1 := Only(path, now, map[], map[0 := Loaded(path, j, mtime, index)]);
    var s2 := Only(path, now, map[path := Entry(mtime, 0, index)], map[0 := FirstCall(path, versions, j, k)]);
    assert Apply(s0, ReadFile(0)) == s1;
    assert Apply(s1, Insert(0, 0, path)) == s2;
    assert now + versions[k + 1..i + 1] == versions[..i + 1];
    EndsStale(path, versions, j, k, i);
    RewritesRun(path, now, versions[k + 1..i + 1], s2.cache, s2.calls, rest);
    StepThen(s1, Insert(0, 0, path), s2, Rewrites(path, versions[k + 1..i + 1], rest));
    StepThen(s0, ReadFile(0), s1, [Insert(0, 0, path)] + Rewrites(path, versions[k + 1..i + 1], rest));
  }

  lemma {:induction false} LooksEarly(path: Path, versions: seq<Version>, j: nat, k: nat, rest: seq<Step>)
    requires j <= k < |versions| && versions[j].File?
    requires IsRun(Only(path, versions[..k + 1], map[], map[0 := Missed(path, j, versions[j].mtime)]), rest)
    ensures var s := Only(path, versions[..j + 1], map[], map[]);
            var steps := [Stat(0, path)] + ([Lookup(0, 0)] + Rewrites(path, versions[j + 1..k + 1], rest));
            IsRun(s, steps) &&
            Exec(s, steps) ==
            Exec(Only(path, versions[..k + 1], map[], map[0 := Missed(path, j, versions[j].mtime)]), rest)
  {
    var now, mtime := versions[..j + 1], versions[j].mtime;
    var s0 := Only(path, now, map[], map[]);
    var s1 := s0.(calls := map[0 := Statted(path, j, mtime)]);
    var s2 := s0.(calls := map[0 := Missed(path, j, mtime)]);
    assert Apply(s0, Stat(0, path)) == s1;
    assert Apply(s1, Lookup(0, 0)) == s2;
    assert now + versions[j + 1..k + 1] == versions[..k + 1];
    RewritesRun(path, now, versions[j + 1..k + 1], map[], s2.calls, rest);
    StepThen(s1, Lookup(0, 0), s2, Rewrites(path, versions[j + 1..k + 1], rest));
    StepThen(s0, Stat(0, path), s1, [Lookup(0, 0)] + Rewrites(path, versions[j + 1..k + 1], rest));
  }

  lemma {:induction false} FirstVersions(path: Path, versions: seq<Version>, j: nat, rest: seq<Step>)
    requires j < |versions| && IsRun(Only(path, versions[..j + 1], map[], map[]), rest)
    ensures var steps := [Rewrite(path, versions[0])] + Rewrites(path, versions[1..j + 1], rest);
            IsRun(INITIAL, steps) && Exec(INITIAL, steps) == Exec(Only(path, versions[..j + 1], map[], map[]), rest)
  {
    var s1 := Only(path, [versions[0]], map[], map[]);
    assert [] + [versions[0]] == [versions[0]];
    assert Apply(INITIAL, Rewrite(path, versions[0])) == s1;
    assert [versions[0]] + versions[1..j + 1] == versions[..j + 1];
    RewritesRun(path, [versions[0]], versions[1..j + 1], map[], map[], rest);
    StepThen(INITIAL, Rewrite(path, versions[0]), s1, Rewrites(path, versions[1..j + 1], rest));
  }

  lemma EndIsStale(path: Path, versions: seq<Version>, j: nat, k: nat, i: nat)
    requires Repeats(versions, j, k, i)
    ensures IsStale(StaleState(path, versions, j, k, i), 1)
  {
  }

  lemma {:induction false} LooksThenReads(path: Path, versions: seq<Version>, j: nat, k: nat, i: nat)
    requires Repeats(versions, j, k, i)
    ensures var s := Only(path, versions[..j + 1], map[], map[]);
            && IsRun(s, LateSteps(path, versions, j, k, i))
            && Exec(s, LateSteps(path, versions, j, k, i)) == StaleState(path, versions, j, k, i)
  {
    ReadsLater(path, versions, j, k, i);
    LooksEarly(path, versions, j, k, [ReadFile(0)] + ([Insert(0, 0, path)] +
               Rewrites(path, versions[k + 1..i + 1], StaleEnd(path, versions, i))));
  }

  /** If a time repeats, an interleaving of two calls makes the second one stale. */
  lemma {:induction false} RepeatedTimeIsStale(path: Path, versions: seq<Version>, j: nat, k: nat, i: nat)
    requires Repeats(versions, j, k, i)
    ensures var steps := StaleRun(path, versions, j, k, i);
            IsRun(INITIAL, steps) && Exec(INITIAL, steps) == StaleState(path, versions, j, k, i)
    ensures IsStale(StaleState(path, versions, j, k, i), 1)
  {
    EndIsStale(path, versions, j, k, i);
    LooksThenReads(path, versions, j, k, i);
    FirstVersions(path, versions, j, LateSteps(path, versions, j, k, i));
  }

  /** `steps` gives the path these versions and makes call `c` on it stale. */
  ghost predicate GoesStale(path: Path, versions: seq<Version>, steps: seq<Step>, c: CallId) {
    IsRun(INITIAL, steps) && Versions(Exec(INITIAL, steps), path) == versions &&
    IsStale(Exec(INITIAL, steps), c) && Exec(INITIAL, steps).calls[c].path == path
  }

  /** Exactly when the cache can mislead, for every history of a file: some interleaving of loads
      with it is stale if and only if a time comes back after the contents have changed. */
  lemma StaleIff(path: Path, versions: seq<Version>)
    ensures (exists steps, c :: GoesStale(path, versions, steps, c)) <==> TimeRepeats(versions)
  {
    if TimeRepeats(versions) {
      var j: nat, k: nat, i: nat :| Repeats(versions, j, k, i);
      RepeatedTimeIsStale(path, versions, j, k, i);
      assert GoesStale(path, versions, StaleRun(path, versions, j, k, i), 1);
    }
    forall steps, c | GoesStale(path, versions, steps, c) ensures TimeRepeats(versions) {
      RunsAreSound(INITIAL, steps);
      assert CallOk(versions, Exec(INITIAL, steps).calls[c]);
    }
  }

  // ------------------------------------------------------------------ bound

  /** The cache never holds more than its cap, with or without the proviso on times. */
  lemma {:induction false} Bounded(s: State, steps: seq<Step>)
    requires IsRun(s, steps) && |s.cache| <= SCIP_CACHE_CAP
    ensures |Exec(s, steps).cache| <= SCIP_CACHE_CAP
    decreases |steps|
  {
    if steps != [] {
      StepBounded(s, steps[0]);
      Bounded(Apply(s, steps[0]), steps[1..]);
    }
  }

  lemma StepBounded(s: State, step: Step)
    requires Enabled(s, step) && |s.cache| <= SCIP_CACHE_CAP
    ensures |Apply(s, step).cache| <= SCIP_CACHE_CAP
  {
    if step.Insert? && |s.cache| >= SCIP_CACHE_CAP {
      SmallerWithout(s.cache, step.victim);
      GrowsByOne(s.cache - {step.victim}, s.calls[step.call].path, EntryOf(s, step));
    } else if step.Insert? {
      GrowsByOne(s.cache, s.calls[step.call].path, EntryOf(s, step));
    } else if step.Lookup? {
      var call := s.calls[step.call];
      assert Apply(s, step).cache.Keys == s.cache.Keys;
      SizeIsKeys(Apply(s, step).cache);
      SizeIsKeys(s.cache);
    }
  }

  lemma SizeIsKeys<K, V>(m: map<K, V>)
    ensures |m| == |m.Keys|
  {
  }

  lemma SmallerWithout<K, V>(m: map<K, V>, k: K)
    requires k in m
    ensures |m - {k}| == |m| - 1
  {
    assert (m - {k}).Keys == m.Keys - {k};
    SizeIsKeys(m);
    SizeIsKeys(m - {k});
  }

  lemma GrowsByOne<K, V>(m: map<K, V>, k: K, v: V)
    ensures |m[k := v]| <= |m| + 1
  {
    assert m[k := v].Keys == m.Keys + {k};
    SizeIsKeys(m[k := v]);
    SizeIsKeys(m);
  }
}
