/** Jobs and their order in the priority queue (app/queue/jobs.py). */
module Jobs {
  import opened Wrappers

  /** `content` stands for the fields a job only carries along: source, type, chat,
      session and thread ids, payload and schedule. Times are in microseconds. */
  datatype Job = Job(
    id: string,
    priority: int,
    content: string,
    key: Option<string>,
    attempts: int,
    maxAttempts: int,
    createdAt: int
  )

  /** The comparison the job class defines: priority first, then age. */
  predicate Less(a: Job, b: Job) {
    if a.priority != b.priority then a.priority < b.priority else a.createdAt < b.createdAt
  }

  /** Python's comparison of the queue tuples (priority, created_at, job): the first
      components that differ decide, and the jobs themselves are asked last. */
  predicate TupleLess(a: Job, b: Job) {
    if a.priority != b.priority then a.priority < b.priority
    else if a.createdAt != b.createdAt then a.createdAt < b.createdAt
    else a != b && Less(a, b)
  }

  function IncrementAttempts(j: Job): Job {
    j.(attempts := j.attempts + 1)
  }

  predicate CanRetry(j: Job) {
    j.attempts < j.maxAttempts
  }

  /** A job takes part in deduplication only if its key is a non-empty string. */
  predicate Keyed(j: Job) {
    j.key.Some? && j.key.value != ""
  }

  predicate Minimal(j: Job, queue: multiset<Job>) {
    j in queue && forall k | k in queue :: !TupleLess(k, j)
  }

  predicate Tied(a: Job, b: Job) {
    !Less(a, b) && !Less(b, a)
  }

  /** The queue order is a strict weak order, and the tuples and the jobs agree on it. */
  lemma QueueOrder(a: Job, b: Job, c: Job)
    ensures TupleLess(a, b) <==> Less(a, b)
    ensures !(Less(a, b) && Less(b, a))
    ensures Less(a, b) && Less(b, c) ==> Less(a, c)
    ensures Tied(a, b) && Tied(b, c) ==> Tied(a, c)
    ensures Tied(a, b) <==> a.priority == b.priority && a.createdAt == b.createdAt
  {
  }

  /** Every job of the queue has a larger priority number, or the same and is not older. */
  ghost predicate NoneBefore(j: Job, queue: multiset<Job>) {
    forall k | k in queue :: j.priority < k.priority || (j.priority == k.priority && j.createdAt <= k.createdAt)
  }

  /** What may be handed out next, by priority and age alone. */
  lemma MinimalIs(j: Job, queue: multiset<Job>)
    ensures Minimal(j, queue) <==> j in queue && NoneBefore(j, queue)
  {
    if Minimal(j, queue) {
      assert forall k | k in queue :: !TupleLess(k, j);
    }
  }

  /** A non-empty queue always has a job that may be handed out next. */
  lemma {:induction false} MinimalExists(queue: multiset<Job>) returns (j: Job)
    requires queue != multiset{}
    ensures Minimal(j, queue)
    decreases |queue|
  {
    var k :| k in queue;
    var rest := queue - multiset{k};
    if rest == multiset{} {
      assert queue == multiset{k};
      j := k;
    } else {
      var m := MinimalExists(rest);
      j := if Less(k, m) then k else m;
      forall x | x in queue
        ensures !TupleLess(x, j)
      {
        QueueOrder(x, m, k);
        QueueOrder(x, k, m);
        QueueOrder(x, j, j);
        if x != k {
          assert x in rest;
        }
      }
    }
  }
}
