/** The persistent store of the SCIP indexer (crates/aide-mcp/src/indexer/state.rs).

    The lock-held body of every store operation is given twice: as a function on
    `IndexerState` values, which the protocol module steps with, and as a method of class
    `Store` with the source's loops, proved to compute that function. */
module IndexerStore {
  import opened Common
  import opened Wrappers

  datatype IndexState = Pending | InProgress | Ready | Failed(reason: string)

  /** A `.scip` file name, `<scip dir>/<slug>/<sha>.scip`. */
  datatype IndexPath = IndexPath(slug: string, sha: string)

  datatype CommitEntry = CommitEntry(
    state: IndexState,
    enqueuedAt: int,
    indexedAt: Option<int>,
    indexPath: Option<IndexPath>)

  datatype RepoState = RepoState(lastSha: Option<string>, commits: map<string, CommitEntry>)

  datatype IndexerState = IndexerState(
    repos: map<string, RepoState>,
    pendingUnlink: seq<IndexPath>)

  /** A commit of a repository, named by the normalised repository key. */
  datatype Id = Id(key: string, sha: string)

  datatype EnqueueOutcome = NeedsIndexing | AlreadyQueued | AlreadyReady

  const EMPTY_STATE := IndexerState(map[], [])

  const RECOVERY_CAP_REASON := "dropped by recovery cap \U{2014} re-enqueue to retry"

  // ---------------------------------------------------------------- lookups

  function RepoKey(root: string): (key: string)
    ensures |key| > 0 && key[|key| - 1] == '/'
    ensures key == root || key == root + "/"
    ensures key == root <==> root != "" && root[|root| - 1] == '/'
  {
    if |root| > 0 && root[|root| - 1] == '/' then root else root + "/"
  }

  function Lookup(s: IndexerState, id: Id): Option<CommitEntry> {
    if id.key in s.repos && id.sha in s.repos[id.key].commits
    then Some(s.repos[id.key].commits[id.sha])
    else None
  }

  predicate InFlight(st: IndexState) {
    st.Pending? || st.InProgress?
  }

  /** The commit waits for, or is in the hands of, the worker. */
  predicate Outstanding(s: IndexerState, id: Id) {
    var e := Lookup(s, id);
    e.Some? && InFlight(e.value.state)
  }

  predicate IsReady(s: IndexerState, id: Id) {
    var e := Lookup(s, id);
    e.Some? && e.value.state.Ready?
  }

  // ------------------------------------------------- operations, on values

  function OutcomeFor(entry: Option<CommitEntry>): EnqueueOutcome {
    if entry.None? || entry.value.state.Failed? then NeedsIndexing
    else if entry.value.state.Ready? then AlreadyReady
    else AlreadyQueued
  }

  function EnqueuedEntry(entry: Option<CommitEntry>, now: int): CommitEntry {
    if entry.None? then CommitEntry(Pending, now, None, None)
    else if entry.value.state.Failed? then entry.value.(state := Pending, enqueuedAt := now)
    else entry.value
  }

  function Enqueue(s: IndexerState, id: Id, now: int): (s': IndexerState)
    ensures s'.pendingUnlink == s.pendingUnlink
    ensures forall x :: Lookup(s', x) ==
                        if x == id then Some(EnqueuedEntry(Lookup(s, id), now)) else Lookup(s, x)
  {
    var repo := if id.key in s.repos then s.repos[id.key] else RepoState(None, map[]);
    var entry := EnqueuedEntry(Lookup(s, id), now);
    s.(repos := s.repos[id.key := RepoState(Some(id.sha), repo.commits[id.sha := entry])])
  }

  /** Overwrites an entry that exists; a missing repository or commit is left alone. */
  function Update(s: IndexerState, id: Id, entry: CommitEntry): (s': IndexerState)
    ensures s'.pendingUnlink == s.pendingUnlink
    ensures forall x :: Lookup(s', x) ==
                        if x == id && Lookup(s, id).Some? then Some(entry) else Lookup(s, x)
  {
    if Lookup(s, id).None? then s else
      var repo := s.repos[id.key];
      s.(repos := s.repos[id.key := repo.(commits := repo.commits[id.sha := entry])])
  }

  function MarkInProgress(s: IndexerState, id: Id): IndexerState {
    if Lookup(s, id).None? then s else Update(s, id, Lookup(s, id).value.(state := InProgress))
  }

  function MarkFailed(s: IndexerState, id: Id, reason: string): IndexerState {
    if Lookup(s, id).None? then s else
      Update(s, id, Lookup(s, id).value.(state := Failed(reason), indexedAt := None))
  }

  // ---------------------------------------------------- mark_ready and retention

  function ReadyShas(commits: map<string, CommitEntry>): set<string> {
    set sha | sha in commits && commits[sha].state.Ready?
  }

  /** `victims` is an order in which retention `k` may evict: all Ready commits but `k`, none
      enqueued later than a commit that stays. Equal timestamps leave the choice open. */
  ghost predicate IsEviction(commits: map<string, CommitEntry>, k: nat, victims: seq<string>) {
    && NoDuplicates(victims)
    && (forall v :: v in victims ==> v in ReadyShas(commits))
    && |victims| == (if |ReadyShas(commits)| <= k then 0 else |ReadyShas(commits)| - k)
    && (forall v, r :: v in victims && r in ReadyShas(commits) && r !in victims ==>
                         commits[r].enqueuedAt >= commits[v].enqueuedAt)
  }

  /** The index paths of evicted commits, in eviction order. */
  function EvictedPaths(commits: map<string, CommitEntry>, victims: seq<string>): seq<IndexPath>
    requires forall v :: v in victims ==> v in commits
  {
    if victims == [] then [] else
      var head := commits[victims[0]].indexPath;
      (if head.Some? then [head.value] else []) + EvictedPaths(commits, victims[1..])
  }

  function ReadyEntry(entry: CommitEntry, path: IndexPath, now: int): CommitEntry {
    entry.(state := Ready, indexedAt := Some(now), indexPath := Some(path))
  }

  /** The commits of the repository once `sha` is Ready and before anything is evicted. */
  function WithReady(s: IndexerState, id: Id, path: IndexPath, now: int): map<string, CommitEntry> {
    if id.key !in s.repos then map[] else
      var commits := s.repos[id.key].commits;
      if id.sha !in commits then commits
      else commits[id.sha := ReadyEntry(commits[id.sha], path, now)]
  }

  ghost predicate MayEvict(s: IndexerState, id: Id, path: IndexPath, now: int, k: nat, victims: seq<string>) {
    IsEviction(WithReady(s, id, path, now), k, victims)
  }

  function MarkReady(s: IndexerState, id: Id, path: IndexPath, now: int, victims: seq<string>): (s': IndexerState)
    requires forall v :: v in victims ==> v in WithReady(s, id, path, now)
    ensures s'.pendingUnlink == EvictedPaths(WithReady(s, id, path, now), victims)
    ensures forall x :: Lookup(s', x) ==
                        if x.key != id.key then Lookup(s, x)
                        else if x.sha in victims then None
                        else if x == id && Lookup(s, x).Some?
                          then Some(ReadyEntry(Lookup(s, x).value, path, now))
                        else Lookup(s, x)
  {
    var commits := WithReady(s, id, path, now);
    if id.key !in s.repos then s.(pendingUnlink := EvictedPaths(commits, victims))
    else
      var repo := s.repos[id.key];
      var kept := map sha | sha in commits && sha !in victims :: commits[sha];
      IndexerState(s.repos[id.key := repo.(commits := kept)], EvictedPaths(commits, victims))
  }

  /** Retention leaves a top-k of the Ready commits and never the empty set. */
  lemma EvictionKeepsNewest(commits: map<string, CommitEntry>, k: nat, victims: seq<string>)
    requires IsEviction(commits, k, victims)
    ensures var ready := ReadyShas(commits);
            var kept := set r | r in ready && r !in victims;
            && |kept| == (if |ready| <= k then |ready| else k)
            && (k >= 1 && ready != {} ==> kept != {})
  {
    var ready := ReadyShas(commits);
    var gone := set v | v in victims;
    DistinctCount(victims);
    assert (set r | r in ready && r !in victims) == ready - gone;
    assert gone <= ready;
  }

  lemma {:induction false} DistinctCount<T>(xs: seq<T>)
    requires NoDuplicates(xs)
    ensures |set x | x in xs| == |xs|
  {
    if xs != [] {
      var init := xs[..|xs| - 1];
      DistinctCount(init);
      var last := xs[|xs| - 1];
      assert xs == init + [last];
      assert (set x | x in xs) == (set x | x in init) + {last};
    }
  }

  lemma {:induction false} EvictedPathsOf(commits: map<string, CommitEntry>, victims: seq<string>, p: IndexPath)
    requires forall v :: v in victims ==> v in commits
    ensures p in EvictedPaths(commits, victims) <==>
            exists v :: v in victims && commits[v].indexPath == Some(p)
  {
    if victims != [] {
      EvictedPathsOf(commits, victims[1..], p);
      assert victims == [victims[0]] + victims[1..];
    }
  }

  // -------------------------------------------------------------- queries

  datatype CommitInfo = CommitInfo(
    sha: string,
    state: IndexState,
    enqueuedAt: int,
    indexedAt: Option<int>,
    indexPath: Option<IndexPath>)

  function ToInfo(sha: string, e: CommitEntry): CommitInfo {
    CommitInfo(sha, e.state, e.enqueuedAt, e.indexedAt, e.indexPath)
  }

  function Status(s: IndexerState, key: string, sha: Option<string>): Option<CommitInfo> {
    if key !in s.repos then None else
      var target := if sha.Some? then sha else s.repos[key].lastSha;
      if target.None? || Lookup(s, Id(key, target.value)).None? then None
      else Some(ToInfo(target.value, Lookup(s, Id(key, target.value)).value))
  }

  function IndexedAt(e: CommitEntry): int {
    if e.indexedAt.Some? then e.indexedAt.value else 0
  }

  /** `r` is an answer `last_ready` may give: a Ready commit indexed no earlier than any other. */
  ghost predicate IsLastReady(s: IndexerState, key: string, r: Option<CommitInfo>) {
    match r
    case None => forall sha :: !IsReady(s, Id(key, sha))
    case Some(info) =>
      && IsReady(s, Id(key, info.sha))
      && info == ToInfo(info.sha, Lookup(s, Id(key, info.sha)).value)
      && (forall sha :: IsReady(s, Id(key, sha)) ==>
            IndexedAt(Lookup(s, Id(key, sha)).value) <= IndexedAt(Lookup(s, Id(key, info.sha)).value))
  }

  // -------------------------------------------------------------- recovery

  /** `order` lists the outstanding commits, latest enqueued first. */
  ghost predicate IsRecoveryOrder(s: IndexerState, order: seq<Id>) {
    && NoDuplicates(order)
    && (forall id :: id in order <==> Outstanding(s, id))
    && (forall i, j :: 0 <= i < j < |order| ==> EnqueuedAt(s, order[i]) >= EnqueuedAt(s, order[j]))
  }

  function EnqueuedAt(s: IndexerState, id: Id): int {
    if Lookup(s, id).Some? then Lookup(s, id).value.enqueuedAt else 0
  }

  function Taken(order: seq<Id>, limit: nat): seq<Id> {
    if |order| <= limit then order else order[..limit]
  }

  function Dropped(order: seq<Id>, limit: nat): seq<Id> {
    if |order| <= limit then [] else order[limit..]
  }

  function DropAll(s: IndexerState, dropped: seq<Id>): (s': IndexerState)
    ensures s'.pendingUnlink == s.pendingUnlink
    decreases |dropped|
  {
    if dropped == [] then s else
      var id := dropped[0];
      var s1 := if Lookup(s, id).None? then s
                else Update(s, id, Lookup(s, id).value.(state := Failed(RECOVERY_CAP_REASON)));
      DropAll(s1, dropped[1..])
  }

  lemma {:induction false} DropAllLookup(s: IndexerState, dropped: seq<Id>, x: Id)
    ensures Lookup(DropAll(s, dropped), x) ==
            if x in dropped && Lookup(s, x).Some?
            then Some(Lookup(s, x).value.(state := Failed(RECOVERY_CAP_REASON)))
            else Lookup(s, x)
    decreases |dropped|
  {
    if dropped != [] {
      var id := dropped[0];
      var s1 := if Lookup(s, id).None? then s
                else Update(s, id, Lookup(s, id).value.(state := Failed(RECOVERY_CAP_REASON)));
      DropAllLookup(s1, dropped[1..], x);
      assert dropped == [id] + dropped[1..];
    }
  }

  lemma TakenAndDropped(s: IndexerState, order: seq<Id>, limit: nat)
    requires IsRecoveryOrder(s, order)
    ensures Taken(order, limit) + Dropped(order, limit) == order
    ensures forall a, b :: a in Taken(order, limit) && b in Dropped(order, limit) ==>
                             a != b && EnqueuedAt(s, a) >= EnqueuedAt(s, b)
    ensures forall id :: Outstanding(s, id) <==> id in Taken(order, limit) || id in Dropped(order, limit)
  {
    var taken, dropped := Taken(order, limit), Dropped(order, limit);
    assert order == taken + dropped;
    forall a, b | a in taken && b in dropped
      ensures a != b && EnqueuedAt(s, a) >= EnqueuedAt(s, b)
    {
      var i :| 0 <= i < |taken| && taken[i] == a;
      var j :| 0 <= j < |dropped| && dropped[j] == b;
      assert order[i] == a && order[|taken| + j] == b;
    }
    forall id ensures Outstanding(s, id) <==> id in taken || id in dropped {
      assert id in order <==> id in taken || id in dropped;
    }
  }

  /** Recovery splits the outstanding commits into those returned and those Failed: the newest
      `limit` are returned and stay outstanding, every other one becomes Failed, so that a later
      enqueue schedules it again. Nothing else changes. */
  lemma RecoverySplits(s: IndexerState, order: seq<Id>, limit: nat)
    requires IsRecoveryOrder(s, order)
    ensures var taken, dropped := Taken(order, limit), Dropped(order, limit);
            var s' := DropAll(s, dropped);
            && |taken| == (if limit < |order| then limit else |order|)
            && (forall id :: Outstanding(s', id) <==> id in taken)
            && (forall id :: Outstanding(s, id) <==> id in taken || id in dropped)
            && (forall a, b :: a in taken && b in dropped ==> a != b && EnqueuedAt(s, a) >= EnqueuedAt(s, b))
            && (forall id :: id in dropped ==> OutcomeFor(Lookup(s', id)) == NeedsIndexing)
            && (forall id :: id !in dropped ==> Lookup(s', id) == Lookup(s, id))
  {
    var taken, dropped := Taken(order, limit), Dropped(order, limit);
    var s' := DropAll(s, dropped);
    TakenAndDropped(s, order, limit);
    forall id
      ensures id in dropped ==> OutcomeFor(Lookup(s', id)) == NeedsIndexing
      ensures id !in dropped ==> Lookup(s', id) == Lookup(s, id)
      ensures Outstanding(s', id) <==> id in taken
    {
      DropAllLookup(s, dropped, id);
    }
  }
}
