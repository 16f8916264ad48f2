/** `Indexer::enqueue_inner` (crates/aide-mcp/src/indexer/mod.rs) and the worker's `process`
    (crates/aide-mcp/src/indexer/worker.rs) as one task runs them, with nothing interleaved. */
module IndexerDriver {
  import opened Wrappers
  import opened IndexerStore
  import opened IndexerService
  import opened IndexerJobs

  class Indexer {
    const store: Store
    var channel: seq<Job>
    /** Index files on disk. */
    var files: set<IndexPath>

    constructor (store: Store)
      ensures this.store == store && channel == [] && files == {}
    {
      this.store := store;
      channel, files := [], {};
    }

    /** A commit that needs indexing is sent, or rolled back to Failed when the channel is full,
        so no commit is left Pending without a job. */
    method EnqueueInner(root: string, sha: string, now: int) returns (r: Result<EnqueueOutcome, string>)
      requires store.Valid() && |channel| <= QUEUE_CAP
      modifies this`channel, store`repos, store`disk
      ensures store.Valid() && |channel| <= QUEUE_CAP
      ensures var id := Id(RepoKey(root), sha);
              var outcome := OutcomeFor(Lookup(old(store.State()), id));
              var enqueued := IndexerStore.Enqueue(old(store.State()), id, now);
              if outcome != NeedsIndexing then
                r == Ok(outcome) && channel == old(channel) && store.State() == enqueued
              else if |old(channel)| < 64 then
                r == Ok(NeedsIndexing) && channel == old(channel) + [Job(root, sha)] && store.State() == enqueued
              else
                r.Err? && channel == old(channel) &&
                store.State() == IndexerStore.MarkFailed(enqueued, id, r.error)
      ensures Outstanding(store.State(), Id(RepoKey(root), sha)) ==>
                Job(root, sha) in channel || Outstanding(old(store.State()), Id(RepoKey(root), sha))
    {
      var outcome := store.Enqueue(root, sha, now);
      if outcome == NeedsIndexing {
        var sent := TrySend(Job(root, sha));
        if !sent {
          var reason := "indexer queue full (64 jobs waiting) \U{2014} retry later";
          store.MarkFailed(root, sha, reason);
          return Err(reason);
        }
      }
      return Ok(outcome);
    }

    method TrySend(job: Job) returns (sent: bool)
      modifies this`channel
      ensures sent <==> |old(channel)| < 64
      ensures channel == if sent then old(channel) + [job] else old(channel)
    {
      sent := |channel| < QUEUE_CAP;
      if sent {
        channel := channel + [job];
      }
    }

    /** One turn of the worker. `build` is what the language's indexer reports, and `leavesFile`
        whether a failed one left an output file. A build that succeeds is recorded, then every
        path the previous round stashed is deleted; a build that fails is recorded as Failed. */
    method Process(job: Job, build: Result<(), string>, leavesFile: bool, now: int)
      returns (ghost victims: seq<string>)
      requires store.Valid()
      modifies this`files, store`repos, store`pendingUnlink, store`disk
      ensures store.Valid()
      ensures var id, p := IdOf(job), IndexFilePath(job);
              var building := IndexerStore.MarkInProgress(old(store.State()), id);
              if build.Err? then
                && store.State() == IndexerStore.MarkFailed(building, id, build.error)
                && files == (if leavesFile then old(files) + {p} else old(files) - {p})
              else
                && MayEvict(building, id, p, now, store.retention, victims)
                && store.State() == IndexerStore.MarkReady(building, id, p, now, victims)
                && files == old(files) + {p} - (set x | x in old(store.pendingUnlink))
      ensures !Outstanding(store.State(), IdOf(job))
    {
      store.MarkInProgress(job.root, job.sha);
      var path := IndexFilePath(job);
      victims := [];
      match build {
        case Ok(_) =>
          files := files + {path};
          var evicted;
          evicted, victims := store.MarkReady(job.root, job.sha, path, now);
          DeleteAll(evicted);
        case Err(reason) =>
          files := if leavesFile then files + {path} else files - {path};
          store.MarkFailed(job.root, job.sha, reason);
      }
    }

    /** Removes every listed file; one that is already gone only draws a warning. */
    method DeleteAll(paths: seq<IndexPath>)
      modifies this`files
      ensures files == old(files) - set x | x in paths
    {
      for i := 0 to |paths|
        invariant files == old(files) - set x | x in paths[..i]
      {
        files := files - {paths[i]};
        assert paths[..i + 1] == paths[..i] + [paths[i]];
      }
      assert paths[..|paths|] == paths;
    }
  }
}
