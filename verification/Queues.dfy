/** The dispatcher and the dead-letter queue as the objects they are, every method tied
    to the specification functions of QueueSpec. */
module Queues {
  import opened Wrappers
  import opened Jobs
  import opened QueueSpec

  /** What the heap gives: some job that no other is smaller than. */
  method PickMinimal(queue: multiset<Job>) returns (job: Job)
    requires queue != multiset{}
    ensures Minimal(job, queue) && NoneBefore(job, queue)
  {
    hide TupleLess, NoneBefore;
    ghost var least := MinimalExists(queue);
    job :| job in queue && forall k | k in queue :: !TupleLess(k, job);
    MinimalIs(job, queue);
  }

  class JobDispatcher {
    const maxSize: int
    const ttl: int
    var queue: multiset<Job>
    var pending: set<string>
    var keys: map<string, int>
    var totalEnqueued: nat
    var totalDequeued: nat
    var totalRejected: nat
    var totalDuplicates: nat
    var shutdown: bool
    var deadLetters: DeadLetterQueue?

    function View(): Dispatcher
      reads this
    {
      Dispatcher(maxSize, ttl, queue, pending, keys,
                 totalEnqueued, totalDequeued, totalRejected, totalDuplicates, shutdown)
    }

    constructor (maxSize: int, ttl: int, deadLetters: DeadLetterQueue?)
      ensures View() == Dispatcher(maxSize, ttl, multiset{}, {}, map[], 0, 0, 0, 0, false)
      ensures this.deadLetters == deadLetters
    {
      this.maxSize, this.ttl, this.deadLetters := maxSize, ttl, deadLetters;
      queue, pending, keys := multiset{}, {}, map[];
      totalEnqueued, totalDequeued, totalRejected, totalDuplicates := 0, 0, 0, 0;
      shutdown := false;
    }

    /** Deletes the expired keys one by one. */
    method CleanupIdempotencyKeys(now: int)
      modifies `keys
      ensures keys == Sweep(old(keys), ttl, now)
    {
      var expired := set k | k in keys && now - keys[k] > ttl;
      ghost var all, gone := keys, expired;
      while expired != {}
        invariant expired <= gone
        invariant keys == map k | k in all && k !in gone - expired :: all[k]
        decreases expired
      {
        var k :| k in expired;
        keys := keys - {k};
        expired := expired - {k};
      }
    }

    method Enqueue(job: Job, now: int) returns (r: EnqueueResult)
      modifies this
      ensures (View(), r) == QueueSpec.Enqueue(old(View()), job, now)
      ensures deadLetters == old(deadLetters)
    {
      hide Sweep;
      if shutdown {
        totalRejected := totalRejected + 1;
        return Refused;
      }
      CleanupIdempotencyKeys(now);
      if job.key.Some? && job.key.value != "" {
        if job.key.value in keys {
          totalDuplicates := totalDuplicates + 1;
          return Duplicate;
        }
        keys := keys[job.key.value := now];
      }
      if |queue| >= maxSize {
        totalRejected := totalRejected + 1;
        return QueueFull;
      }
      queue := queue + multiset{job};
      totalEnqueued := totalEnqueued + 1;
      return Accepted;
    }

    /** Hands out some minimal job. None stands for a wait that timed out, or for a
        stopped and empty dispatcher. */
    method Dequeue() returns (r: Option<Job>)
      modifies this
      ensures r.None? <==> old(queue) == multiset{}
      ensures r.None? ==> View() == old(View())
      ensures r.Some? ==> Minimal(r.value, old(queue)) && View() == Take(old(View()), r.value)
      ensures r.Some? ==> NoneBefore(r.value, old(queue))
      ensures deadLetters == old(deadLetters)
    {
      if |queue| == 0 {
        return None;
      }
      var job := PickMinimal(queue);
      hide Minimal, NoneBefore;
      queue := queue - multiset{job};
      pending := pending + {job.id};
      totalDequeued := totalDequeued + 1;
      return Some(job);
    }

    method MarkComplete(jobId: string)
      modifies `pending
      ensures View() == QueueSpec.MarkComplete(old(View()), jobId)
    {
      pending := pending - {jobId};
    }

    method MarkFailed(job: Job, error: string, now: int)
      modifies this, deadLetters
      ensures View() == QueueSpec.MarkFailed(old(View()), job, now).0
      ensures deadLetters == old(deadLetters)
      ensures deadLetters != null ==>
        deadLetters.View() ==
          if QueueSpec.MarkFailed(old(View()), job, now).1 == DeadLettered
          then AddEntry(old(deadLetters.View()), job, error, now)
          else old(deadLetters.View())
    {
      pending := pending - {job.id};
      var updated := IncrementAttempts(job);
      var dead := false;
      if CanRetry(updated) {
        var r := Enqueue(updated, now);
        dead := r == QueueFull || r == Duplicate;
      } else {
        dead := true;
      }
      if dead && deadLetters != null {
        var _ := deadLetters.Add(job, error, now);
      }
    }

    method Shutdown()
      modifies `shutdown
      ensures View() == old(View()).(stopped := true)
    {
      shutdown := true;
    }
  }

  class DeadLetterQueue {
    var rows: seq<Entry>
    var nextId: nat
    var totalAdded: nat
    var totalReplayed: nat
    var totalDeleted: nat
    var dispatcher: JobDispatcher?

    function View(): DeadLetters
      reads this
    {
      DeadLetters(rows, nextId, totalAdded, totalReplayed, totalDeleted)
    }

    constructor (dispatcher: JobDispatcher?)
      ensures View() == DeadLetters([], 0, 0, 0, 0) && this.dispatcher == dispatcher
    {
      this.dispatcher := dispatcher;
      rows, nextId, totalAdded, totalReplayed, totalDeleted := [], 0, 0, 0, 0;
    }

    method Add(job: Job, error: string, now: int) returns (rowId: nat)
      modifies this
      ensures View() == AddEntry(old(View()), job, error, now)
      ensures rowId == old(nextId) && dispatcher == old(dispatcher)
    {
      rowId := nextId;
      rows := rows + [Entry(nextId, job, error, now)];
      nextId := nextId + 1;
      totalAdded := totalAdded + 1;
    }

    /** The rows that carry this job id, in table order. */
    method Find(jobId: string) returns (found: seq<Entry>)
      ensures found == WithId(rows, jobId)
    {
      found := [];
      var i := |rows|;
      while i > 0
        invariant 0 <= i <= |rows|
        invariant found == WithId(rows[i..], jobId)
      {
        i := i - 1;
        assert rows[i..][1..] == rows[i + 1..];
        if rows[i].job.id == jobId {
          found := [rows[i]] + found;
        }
      }
    }

    method Delete(jobId: string) returns (deleted: bool)
      modifies this
      ensures (View(), deleted) == DeleteEntry(old(View()), jobId)
      ensures dispatcher == old(dispatcher)
    {
      var kept: seq<Entry> := [];
      var i := |rows|;
      while i > 0
        invariant 0 <= i <= |rows|
        invariant kept == WithoutId(rows[i..], jobId)
      {
        i := i - 1;
        assert rows[i..][1..] == rows[i + 1..];
        if rows[i].job.id != jobId {
          kept := [rows[i]] + kept;
        }
      }
      WithIdIff(rows, jobId);
      deleted := |kept| < |rows|;
      if deleted {
        rows := kept;
        totalDeleted := totalDeleted + 1;
      }
    }

    method Replay(jobId: string, now: int) returns (r: ReplayResult)
      modifies this, dispatcher
      ensures dispatcher == old(dispatcher)
      ensures dispatcher == null ==> r == NoDispatcher && View() == old(View())
      ensures dispatcher != null ==>
        (View(), dispatcher.View(), r) == QueueSpec.Replay(old(View()), old(dispatcher.View()), jobId, now)
    {
      if dispatcher == null {
        return NoDispatcher;
      }
      var found := Find(jobId);
      if |found| == 0 {
        return NotFound;
      }
      if |found| > 1 {
        return ManyFound;
      }
      var job := found[0].job.(attempts := 0, createdAt := now);
      var put := dispatcher.Enqueue(job, now);
      if put == QueueFull || put == Duplicate {
        return ReplayFailed;
      }
      var _ := Delete(jobId);
      totalReplayed := totalReplayed + 1;
      return Replayed;
    }
  }
}
