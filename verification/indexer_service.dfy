/** Class `Store` of crates/aide-mcp/src/indexer/state.rs, its in-memory maps, its state file
    and its retention counter, and the two code paths that drive it when nothing interleaves:
    `enqueue_inner` (indexer/mod.rs) and the worker's `process` (indexer/worker.rs). */
module IndexerService {
  import opened Common
  import opened Wrappers
  import opened IndexerStore

  // ------------------------------------------------------------ sorting

  ghost predicate LatestFirst<T(!new)>(xs: seq<(T, int)>) {
    forall i, j :: 0 <= i < j < |xs| ==> xs[i].1 >= xs[j].1
  }

  /** `sort_by_key(Reverse(ts))`; callers may not rely on the order of equal timestamps, since
      the input comes out of a hash map in no particular order. */
  method SortLatestFirst<T(==,!new)>(xs: seq<(T, int)>) returns (ys: seq<(T, int)>)
    ensures multiset(ys) == multiset(xs)
    ensures LatestFirst(ys)
  {
    ys := [];
    for n := 0 to |xs|
      invariant multiset(ys) == multiset(xs[..n])
      invariant LatestFirst(ys)
    {
      ys := InsertLatestFirst(ys, xs[n]);
      assert xs[..n + 1] == xs[..n] + [xs[n]];
    }
    assert xs[..|xs|] == xs;
  }

  method InsertLatestFirst<T(==,!new)>(ys: seq<(T, int)>, x: (T, int)) returns (zs: seq<(T, int)>)
    requires LatestFirst(ys)
    ensures multiset(zs) == multiset(ys) + multiset{x}
    ensures LatestFirst(zs)
  {
    var i := |ys|;
    while i > 0 && ys[i - 1].1 < x.1
      invariant 0 <= i <= |ys|
      invariant i < |ys| ==> ys[i].1 < x.1
    {
      i := i - 1;
    }
    zs := ys[..i] + [x] + ys[i..];
    InsertedInOrder(ys, x, i);
  }

  lemma InsertedInOrder<T(!new)>(ys: seq<(T, int)>, x: (T, int), i: nat)
    requires LatestFirst(ys) && i <= |ys|
    requires i > 0 ==> ys[i - 1].1 >= x.1
    requires i < |ys| ==> ys[i].1 < x.1
    ensures LatestFirst(ys[..i] + [x] + ys[i..])
    ensures multiset(ys[..i] + [x] + ys[i..]) == multiset(ys) + multiset{x}
  {
    InsertedOnce(ys, x, i);
    var zs := ys[..i] + [x] + ys[i..];
    forall a, b | 0 <= a < b < |zs| ensures zs[a].1 >= zs[b].1 {
      if b < i {
        assert zs[a] == ys[a] && zs[b] == ys[b];
      } else if b == i {
        assert zs[a] == ys[a] && zs[b] == x;
        assert a == i - 1 || ys[a].1 >= ys[i - 1].1;
      } else {
        assert zs[b] == ys[b - 1];
        assert b - 1 == i || ys[i].1 >= ys[b - 1].1;
        if a < i {
          assert zs[a] == ys[a] && ys[a].1 >= ys[b - 1].1;
        } else if a > i {
          assert zs[a] == ys[a - 1];
        }
      }
    }
  }

  lemma InsertedOnce<T>(ys: seq<T>, x: T, i: nat)
    requires i <= |ys|
    ensures multiset(ys[..i] + [x] + ys[i..]) == multiset(ys) + multiset{x}
  {
    assert ys == ys[..i] + ys[i..];
  }

  lemma {:induction false} DistinctMeansOnce<T>(xs: seq<T>)
    ensures NoDuplicates(xs) <==> forall x :: multiset(xs)[x] <= 1
  {
    if xs != [] {
      var init, last := xs[..|xs| - 1], xs[|xs| - 1];
      DistinctMeansOnce(init);
      assert xs == init + [last];
      if NoDuplicates(xs) {
        assert last !in init;
      } else if NoDuplicates(init) {
        assert last in init;
        assert multiset(xs)[last] == multiset(init)[last] + 1;
      }
      assert forall x :: multiset(xs)[x] >= multiset(init)[x];
    }
  }

  lemma PermutationKeepsDistinct<T>(xs: seq<T>, ys: seq<T>)
    requires multiset(xs) == multiset(ys) && NoDuplicates(xs)
    ensures NoDuplicates(ys) && |xs| == |ys|
    ensures forall x :: x in xs <==> x in ys
  {
    DistinctMeansOnce(xs);
    DistinctMeansOnce(ys);
    assert |multiset(xs)| == |multiset(ys)|;
    forall x ensures x in xs <==> x in ys {
      assert x in xs <==> x in multiset(xs);
    }
  }

  function Names<T>(xs: seq<(T, int)>): (r: seq<T>)
    ensures |r| == |xs| && forall i :: 0 <= i < |xs| ==> r[i] == xs[i].0
  {
    seq(|xs|, i requires 0 <= i < |xs| => xs[i].0)
  }

  // ---------------------------------------------- collecting and evicting

  ghost predicate ListsReady(commits: map<string, CommitEntry>, shas: set<string>, ready: seq<(string, int)>) {
    && NoDuplicates(ready)
    && (forall x :: x in ready ==>
          x.0 in shas && x.0 in ReadyShas(commits) && x.1 == commits[x.0].enqueuedAt)
    && (forall sha :: sha in shas && sha in ReadyShas(commits) ==> (sha, commits[sha].enqueuedAt) in ready)
  }

  method ReadyLatestFirst(commits: map<string, CommitEntry>) returns (ready: seq<(string, int)>)
    ensures ListsReady(commits, commits.Keys, ready)
    ensures LatestFirst(ready)
  {
    var found: seq<(string, int)> := [];
    var left := commits.Keys;
    while left != {}
      invariant left <= commits.Keys
      invariant ListsReady(commits, commits.Keys - left, found)
      decreases |left|
    {
      var sha :| sha in left;
      left := left - {sha};
      if commits[sha].state.Ready? {
        found := found + [(sha, commits[sha].enqueuedAt)];
      }
    }
    assert commits.Keys - left == commits.Keys;
    ready := SortLatestFirst(found);
    PermutationKeepsDistinct(found, ready);
  }

  lemma NamesAreReady(commits: map<string, CommitEntry>, ready: seq<(string, int)>)
    requires ListsReady(commits, commits.Keys, ready)
    ensures NoDuplicates(Names(ready)) && |ready| == |ReadyShas(commits)|
    ensures forall sha :: sha in Names(ready) <==> sha in ReadyShas(commits)
  {
    var names := Names(ready);
    forall i, j | 0 <= i < j < |names| ensures names[i] != names[j] {
      assert ready[i] in ready && ready[j] in ready && ready[i] != ready[j];
    }
    DistinctCount(names);
    forall sha ensures sha in names <==> sha in ReadyShas(commits) {
      if sha in names {
        var i :| 0 <= i < |names| && names[i] == sha;
        assert ready[i] in ready;
      }
      if sha in ReadyShas(commits) {
        var i :| 0 <= i < |ready| && ready[i] == (sha, commits[sha].enqueuedAt);
        assert names[i] == sha;
      }
    }
    assert (set x | x in names) == ReadyShas(commits);
  }

  /** Skipping the `k` newest of the sorted Ready list is an eviction in the sense of the store. */
  lemma SkipIsEviction(commits: map<string, CommitEntry>, ready: seq<(string, int)>, k: nat)
    requires ListsReady(commits, commits.Keys, ready) && LatestFirst(ready)
    ensures IsEviction(commits, k, if |ready| <= k then [] else Names(ready)[k..])
  {
    NamesAreReady(commits, ready);
    if |ready| > k {
      var names := Names(ready);
      var victims := names[k..];
      forall v, r | v in victims && r in ReadyShas(commits) && r !in victims
        ensures commits[r].enqueuedAt >= commits[v].enqueuedAt
      {
        assert r in names;
        KeptIsNewer(commits, ready, k, v, r);
      }
      forall v | v in victims ensures v in ReadyShas(commits) {
        assert v in names;
      }
    }
  }

  lemma KeptIsNewer(commits: map<string, CommitEntry>, ready: seq<(string, int)>, k: nat, v: string, r: string)
    requires ListsReady(commits, commits.Keys, ready) && LatestFirst(ready) && k < |ready|
    requires v in Names(ready)[k..] && r in Names(ready) && r !in Names(ready)[k..]
    ensures v in commits && r in commits && commits[r].enqueuedAt >= commits[v].enqueuedAt
  {
    var names := Names(ready);
    var j :| k <= j < |names| && names[j] == v;
    var i :| 0 <= i < |names| && names[i] == r;
    assert forall m :: k <= m < |names| ==> names[k..][m - k] == names[m];
    assert ready[i] in ready && ready[j] in ready;
  }

  lemma {:induction false} EvictedPathsAppend(commits: map<string, CommitEntry>, victims: seq<string>, v: string)
    requires v in commits && forall x :: x in victims ==> x in commits
    ensures EvictedPaths(commits, victims + [v]) ==
            EvictedPaths(commits, victims) +
            (if commits[v].indexPath.Some? then [commits[v].indexPath.value] else [])
  {
    if victims == [] {
      assert [v][1..] == [];
    } else {
      EvictedPathsAppend(commits, victims[1..], v);
      assert (victims + [v])[1..] == victims[1..] + [v];
    }
  }

  function Without(commits: map<string, CommitEntry>, victims: seq<string>): map<string, CommitEntry> {
    map sha | sha in commits && sha !in victims :: commits[sha]
  }

  lemma WithoutAppend(commits: map<string, CommitEntry>, victims: seq<string>, v: string)
    ensures Without(commits, victims + [v]) == Without(commits, victims) - {v}
  {
    var l, r := Without(commits, victims + [v]), Without(commits, victims) - {v};
    assert forall sha :: sha in l <==> sha in r;
  }

  /** The loop's state once `gone` has been evicted. */
  ghost predicate Evicted(commits: map<string, CommitEntry>, gone: seq<string>, kept: map<string, CommitEntry>,
                          evicted: seq<IndexPath>)
  {
    && (forall v :: v in gone ==> v in commits)
    && kept == Without(commits, gone)
    && evicted == EvictedPaths(commits, gone)
  }

  lemma EvictOne(commits: map<string, CommitEntry>, gone: seq<string>, kept: map<string, CommitEntry>,
                 evicted: seq<IndexPath>, sha: string)
    requires Evicted(commits, gone, kept, evicted) && sha in commits && sha !in gone
    ensures sha in kept && kept[sha] == commits[sha]
    ensures Evicted(commits, gone + [sha], kept - {sha},
                    evicted + if kept[sha].indexPath.Some? then [kept[sha].indexPath.value] else [])
  {
    EvictedPathsAppend(commits, gone, sha);
    WithoutAppend(commits, gone, sha);
  }

  lemma NextVictim(ready: seq<(string, int)>, k: nat, i: nat)
    requires k <= i < |ready|
    ensures Names(ready)[k..i + 1] == Names(ready)[k..i] + [ready[i].0]
  {
  }

  lemma NoneEvicted(commits: map<string, CommitEntry>)
    ensures Evicted(commits, [], commits, [])
  {
  }

  method EvictBeyond(commits: map<string, CommitEntry>, ready: seq<(string, int)>, k: nat)
    returns (kept: map<string, CommitEntry>, evicted: seq<IndexPath>)
    requires ListsReady(commits, commits.Keys, ready)
    ensures Evicted(commits, if |ready| <= k then [] else Names(ready)[k..], kept, evicted)
  {
    kept, evicted := commits, [];
    NoneEvicted(commits);
    if |ready| <= k {
      return;
    }
    var i := k;
    ghost var gone := [];
    while i < |ready|
      invariant k <= i <= |ready|
      invariant gone == Names(ready)[k..i]
      invariant Evicted(commits, gone, kept, evicted)
    {
      var sha := ready[i].0;
      assert ready[i] in ready;
      NextVictim(ready, k, i);
      NotYetEvicted(commits, ready, k, i);
      EvictOne(commits, gone, kept, evicted, sha);
      if sha in kept {
        if kept[sha].indexPath.Some? {
          evicted := evicted + [kept[sha].indexPath.value];
        } else {
          assert evicted + [] == evicted;
        }
        kept := kept - {sha};
      }
      gone := gone + [sha];
      i := i + 1;
    }
    assert Names(ready)[k..i] == Names(ready)[k..];
  }

  lemma NotYetEvicted(commits: map<string, CommitEntry>, ready: seq<(string, int)>, k: nat, i: nat)
    requires ListsReady(commits, commits.Keys, ready) && k <= i < |ready|
    ensures ready[i].0 !in Names(ready)[k..i]
  {
    var gone := Names(ready)[k..i];
    forall j | 0 <= j < |gone| ensures gone[j] != ready[i].0 {
      assert ready[k + j] in ready && ready[i] in ready && ready[k + j] != ready[i];
    }
  }

  /** Every outstanding commit is returned, or becomes Failed and keeps the rest of its entry. */
  lemma {:induction false} RecoveryEntries(s: IndexerState, order: seq<Id>, limit: nat)
    requires IsRecoveryOrder(s, order)
    ensures forall x :: var e := Lookup(s, x);
              Lookup(DropAll(s, Dropped(order, limit)), x) ==
              if !Outstanding(s, x) || x in Taken(order, limit) then e
              else Some(CommitEntry(Failed(RECOVERY_CAP_REASON), e.value.enqueuedAt, e.value.indexedAt,
                                    e.value.indexPath))
  {
    TakenAndDropped(s, order, limit);
    forall x
      ensures var e := Lookup(s, x);
              Lookup(DropAll(s, Dropped(order, limit)), x) ==
              if !Outstanding(s, x) || x in Taken(order, limit) then e
              else Some(CommitEntry(Failed(RECOVERY_CAP_REASON), e.value.enqueuedAt, e.value.indexedAt,
                                    e.value.indexPath))
    {
      DropAllLookup(s, Dropped(order, limit), x);
    }
  }

  // -------------------------------------------------------------- the store

  class Store {
    var repos: map<string, RepoState>
    var pendingUnlink: seq<IndexPath>
    /** The state file: absent until the first flush. */
    var disk: Option<IndexerState>
    var retention: nat

    function State(): IndexerState
      reads this
    {
      IndexerState(repos, pendingUnlink)
    }

    /** The file always holds what memory holds, so a crash loses no store mutation. */
    ghost predicate Valid()
      reads this
    {
      && retention >= 1
      && State() == (if disk.Some? then disk.value else EMPTY_STATE)
    }

    constructor Load(file: Option<IndexerState>, retentionReady: nat)
      ensures Valid() && disk == file
      ensures State() == if file.Some? then file.value else EMPTY_STATE
      ensures retention == if retentionReady >= 1 then retentionReady else 1
    {
      var loaded := if file.Some? then file.value else EMPTY_STATE;
      repos, pendingUnlink := loaded.repos, loaded.pendingUnlink;
      disk := file;
      retention := if retentionReady >= 1 then retentionReady else 1;
    }

    /** The configuration reloader's write to the retention counter. */
    method SetRetention(k: nat)
      requires Valid()
      modifies this`retention
      ensures Valid() && retention == (if k >= 1 then k else 1)
    {
      retention := if k >= 1 then k else 1;
    }

    method Flush()
      modifies this`disk
      ensures disk == Some(State())
    {
      disk := Some(IndexerState(repos, pendingUnlink));
    }

    method Enqueue(root: string, sha: string, now: int) returns (outcome: EnqueueOutcome)
      requires Valid()
      modifies this`repos, this`disk
      ensures Valid()
      ensures State() == IndexerStore.Enqueue(old(State()), Id(RepoKey(root), sha), now)
      ensures var e := Lookup(old(State()), Id(RepoKey(root), sha));
              && (outcome == NeedsIndexing <==> e.None? || e.value.state.Failed?)
              && (outcome == AlreadyReady <==> e.Some? && e.value.state.Ready?)
              && Lookup(State(), Id(RepoKey(root), sha)) ==
                 if e.None? then Some(CommitEntry(Pending, now, None, None))
                 else if e.value.state.Failed? then
                   Some(CommitEntry(Pending, now, e.value.indexedAt, e.value.indexPath))
                 else e
      ensures RepoKey(root) in repos && repos[RepoKey(root)].lastSha == Some(sha)
    {
      var key := RepoKey(root);
      var repo := if key in repos then repos[key] else RepoState(None, map[]);
      repo := repo.(lastSha := Some(sha));
      if sha in repo.commits {
        var existing := repo.commits[sha];
        match existing.state {
          case Ready => outcome := AlreadyReady;
          case Pending => outcome := AlreadyQueued;
          case InProgress => outcome := AlreadyQueued;
          case Failed(_) =>
            existing := existing.(state := Pending);
            existing := existing.(enqueuedAt := now);
            outcome := NeedsIndexing;
        }
        repo := repo.(commits := repo.commits[sha := existing]);
      } else {
        repo := repo.(commits := repo.commits[sha := CommitEntry(Pending, now, None, None)]);
        outcome := NeedsIndexing;
      }
      repos := repos[key := repo];
      Flush();
    }

    method MarkInProgress(root: string, sha: string)
      requires Valid()
      modifies this`repos, this`disk
      ensures Valid()
      ensures State() == IndexerStore.MarkInProgress(old(State()), Id(RepoKey(root), sha))
      ensures var e := Lookup(old(State()), Id(RepoKey(root), sha));
              Lookup(State(), Id(RepoKey(root), sha)) ==
              if e.None? then None
              else Some(CommitEntry(InProgress, e.value.enqueuedAt, e.value.indexedAt, e.value.indexPath))
    {
      var key := RepoKey(root);
      if key in repos && sha in repos[key].commits {
        var entry := repos[key].commits[sha];
        entry := entry.(state := InProgress);
        repos := repos[key := repos[key].(commits := repos[key].commits[sha := entry])];
      }
      Flush();
    }

    method MarkFailed(root: string, sha: string, reason: string)
      requires Valid()
      modifies this`repos, this`disk
      ensures Valid()
      ensures State() == IndexerStore.MarkFailed(old(State()), Id(RepoKey(root), sha), reason)
      ensures var e := Lookup(old(State()), Id(RepoKey(root), sha));
              Lookup(State(), Id(RepoKey(root), sha)) ==
              if e.None? then None
              else Some(CommitEntry(Failed(reason), e.value.enqueuedAt, None, e.value.indexPath))
    {
      var key := RepoKey(root);
      if key in repos && sha in repos[key].commits {
        var entry := repos[key].commits[sha];
        entry := entry.(state := Failed(reason));
        entry := entry.(indexedAt := None);
        repos := repos[key := repos[key].(commits := repos[key].commits[sha := entry])];
      }
      Flush();
    }

    method MarkReady(root: string, sha: string, path: IndexPath, now: int)
      returns (ripe: seq<IndexPath>, ghost victims: seq<string>)
      requires Valid()
      modifies this`repos, this`pendingUnlink, this`disk
      ensures Valid()
      ensures MayEvict(old(State()), Id(RepoKey(root), sha), path, now, retention, victims)
      ensures State() == IndexerStore.MarkReady(old(State()), Id(RepoKey(root), sha), path, now, victims)
      ensures var e := Lookup(old(State()), Id(RepoKey(root), sha));
              Lookup(State(), Id(RepoKey(root), sha)) ==
              if e.None? || sha in victims then None
              else Some(CommitEntry(Ready, e.value.enqueuedAt, Some(now), Some(path)))
      ensures forall x: Id :: x != Id(RepoKey(root), sha) ==>
                Lookup(State(), x) ==
                if x.key == RepoKey(root) && x.sha in victims then None else Lookup(old(State()), x)
      ensures ripe == old(pendingUnlink)
    {
      var key := RepoKey(root);
      ghost var before := State();
      var evicted: seq<IndexPath> := [];
      victims := [];
      if key in repos {
        var commits := repos[key].commits;
        if sha in commits {
          var entry := commits[sha];
          entry := entry.(state := Ready);
          entry := entry.(indexedAt := Some(now));
          entry := entry.(indexPath := Some(path));
          commits := commits[sha := entry];
        }
        var ready := ReadyLatestFirst(commits);
        SkipIsEviction(commits, ready, retention);
        victims := if |ready| <= retention then [] else Names(ready)[retention..];
        var kept;
        kept, evicted := EvictBeyond(commits, ready, retention);
        repos := repos[key := repos[key].(commits := kept)];
      } else {
        assert WithReady(before, Id(key, sha), path, now) == map[];
        assert ReadyShas(map[]) == {};
      }
      ripe := pendingUnlink;
      pendingUnlink := evicted;
      Flush();
    }

    method LastReady(root: string) returns (r: Option<CommitInfo>)
      ensures IsLastReady(State(), RepoKey(root), r)
      ensures r.Some? ==> Lookup(State(), Id(RepoKey(root), r.value.sha)) ==
                          Some(CommitEntry(Ready, r.value.enqueuedAt, r.value.indexedAt, r.value.indexPath))
    {
      var key := RepoKey(root);
      r := None;
      if key !in repos {
        return;
      }
      var commits := repos[key].commits;
      var left := commits.Keys;
      while left != {}
        invariant left <= commits.Keys
        invariant r.None? ==> forall sha :: sha in commits.Keys - left ==> !commits[sha].state.Ready?
        invariant r.Some? ==> r.value.sha in commits && commits[r.value.sha].state.Ready?
        invariant r.Some? ==> r.value == ToInfo(r.value.sha, commits[r.value.sha])
        invariant r.Some? ==> forall sha :: sha in commits.Keys - left && commits[sha].state.Ready? ==>
                                              IndexedAt(commits[sha]) <= IndexedAt(commits[r.value.sha])
        decreases |left|
      {
        var sha :| sha in left;
        left := left - {sha};
        if commits[sha].state.Ready? &&
           (r.None? || IndexedAt(commits[sha]) >= IndexedAt(commits[r.value.sha])) {
          r := Some(ToInfo(sha, commits[sha]));
        }
      }
    }

    ghost predicate ListsOutstanding(keys: set<string>, all: seq<(Id, int)>)
      reads this
    {
      && NoDuplicates(all)
      && (forall x :: x in all ==>
            x.0.key in keys && Outstanding(State(), x.0) && x.1 == EnqueuedAt(State(), x.0))
      && (forall id: Id :: id.key in keys && Outstanding(State(), id) ==> (id, EnqueuedAt(State(), id)) in all)
    }

    method CollectOutstanding() returns (all: seq<(Id, int)>)
      ensures ListsOutstanding(repos.Keys, all)
    {
      all := [];
      var keys := repos.Keys;
      while keys != {}
        invariant keys <= repos.Keys
        invariant ListsOutstanding(repos.Keys - keys, all)
        decreases |keys|
      {
        var key :| key in keys;
        var commits := repos[key].commits;
        var shas := commits.Keys;
        ghost var before := all;
        while shas != {}
          invariant shas <= commits.Keys
          invariant NoDuplicates(all)
          invariant forall x :: x in all ==>
                      && (x.0.key in repos.Keys - keys || (x.0.key == key && x.0.sha in commits.Keys - shas))
                      && Outstanding(State(), x.0)
                      && x.1 == EnqueuedAt(State(), x.0)
          invariant forall x :: x in before ==> x in all
          invariant forall sha :: sha in commits.Keys - shas && Outstanding(State(), Id(key, sha)) ==>
                                    (Id(key, sha), EnqueuedAt(State(), Id(key, sha))) in all
          decreases |shas|
        {
          var sha :| sha in shas;
          shas := shas - {sha};
          if InFlight(commits[sha].state) {
            all := all + [(Id(key, sha), commits[sha].enqueuedAt)];
          }
        }
        keys := keys - {key};
        forall id: Id | id.key in repos.Keys - keys && Outstanding(State(), id)
          ensures (id, EnqueuedAt(State(), id)) in all
        {
          if id.key == key {
            assert id == Id(key, id.sha);
          }
        }
      }
      assert repos.Keys - keys == repos.Keys;
    }

    lemma SortedIsRecoveryOrder(all: seq<(Id, int)>)
      requires ListsOutstanding(repos.Keys, all) && LatestFirst(all)
      ensures IsRecoveryOrder(State(), Names(all))
    {
      var order := Names(all);
      forall id ensures id in order <==> Outstanding(State(), id) {
        if Outstanding(State(), id) {
          var i :| 0 <= i < |all| && all[i] == (id, EnqueuedAt(State(), id));
          assert order[i] == id;
        }
      }
      forall i, j | 0 <= i < j < |order|
        ensures order[i] != order[j] && EnqueuedAt(State(), order[i]) >= EnqueuedAt(State(), order[j])
      {
        assert all[i] in all && all[j] in all;
        assert all[i] != all[j] && all[i].1 >= all[j].1;
      }
    }

    method TakeRecoverableJobs(limit: nat) returns (jobs: seq<Id>, ghost order: seq<Id>)
      requires Valid()
      modifies this`repos, this`disk
      ensures Valid()
      ensures IsRecoveryOrder(old(State()), order)
      ensures jobs == Taken(order, limit)
      ensures State() == DropAll(old(State()), Dropped(order, limit))
      ensures forall x :: var e := Lookup(old(State()), x);
                Lookup(State(), x) ==
                if !Outstanding(old(State()), x) || x in jobs then e
                else Some(CommitEntry(Failed("dropped by recovery cap \U{2014} re-enqueue to retry"),
                                      e.value.enqueuedAt, e.value.indexedAt, e.value.indexPath))
    {
      var all := CollectOutstanding();
      var sorted := SortLatestFirst(all);
      PermutationKeepsDistinct(all, sorted);
      SortedIsRecoveryOrder(sorted);
      order := Names(sorted);
      ghost var before := State();
      var overflow := if |sorted| <= limit then [] else Names(sorted)[limit..];
      jobs := if |sorted| <= limit then Names(sorted) else Names(sorted)[..limit];
      var rest := overflow;
      while rest != []
        invariant DropAll(State(), rest) == DropAll(before, overflow)
        invariant pendingUnlink == before.pendingUnlink
        invariant overflow == [] ==> State() == before
        invariant disk == old(disk)
        decreases |rest|
      {
        var id := rest[0];
        if id.key in repos && id.sha in repos[id.key].commits {
          var entry := repos[id.key].commits[id.sha];
          entry := entry.(state := Failed(RECOVERY_CAP_REASON));
          repos := repos[id.key := repos[id.key].(commits := repos[id.key].commits[id.sha := entry])];
        }
        rest := rest[1..];
      }
      if overflow != [] {
        Flush();
      }
      RecoveryEntries(before, order, limit);
    }
  }
}
