/** What one call on the dispatcher or on the dead-letter queue does, on values. */
module QueueSpec {
  import opened Wrappers
  import opened Jobs

  datatype Dispatcher = Dispatcher(
    maxSize: int,
    ttl: int,
    queue: multiset<Job>,
    pending: set<string>,
    keys: map<string, int>,
    enqueued: nat,
    dequeued: nat,
    rejected: nat,
    duplicates: nat,
    stopped: bool
  )

  /** Refused is the False that a stopped dispatcher returns; QueueFull and Duplicate
      are the two exceptions. */
  datatype EnqueueResult = Accepted | Refused | QueueFull | Duplicate

  /** Deduplication keys that have not expired at `now`. */
  function Sweep(keys: map<string, int>, ttl: int, now: int): map<string, int> {
    map k | k in keys && now - keys[k] <= ttl :: keys[k]
  }

  function Enqueue(d: Dispatcher, j: Job, now: int): (Dispatcher, EnqueueResult) {
    if d.stopped then (d.(rejected := d.rejected + 1), Refused)
    else
      var swept := Sweep(d.keys, d.ttl, now);
      if Keyed(j) && j.key.value in swept then
        (d.(keys := swept, duplicates := d.duplicates + 1), Duplicate)
      else
        // the key is recorded before the capacity is looked at
        var keys := if Keyed(j) then swept[j.key.value := now] else swept;
        if |d.queue| >= d.maxSize then
          (d.(keys := keys, rejected := d.rejected + 1), QueueFull)
        else
          (d.(keys := keys, queue := d.queue + multiset{j}, enqueued := d.enqueued + 1), Accepted)
  }

  function Take(d: Dispatcher, j: Job): Dispatcher {
    d.(queue := d.queue - multiset{j}, pending := d.pending + {j.id}, dequeued := d.dequeued + 1)
  }

  function MarkComplete(d: Dispatcher, id: string): Dispatcher {
    d.(pending := d.pending - {id})
  }

  /** Lost is a failure that neither re-queues nor dead-letters the job. */
  datatype FailOutcome = Requeued | Lost | DeadLettered

  function MarkFailed(d: Dispatcher, j: Job, now: int): (Dispatcher, FailOutcome) {
    var released := MarkComplete(d, j.id);
    var updated := IncrementAttempts(j);
    if CanRetry(updated) then
      var (d', r) := Enqueue(released, updated, now);
      (d', match r case Accepted => Requeued case Refused => Lost case _ => DeadLettered)
    else
      (released, DeadLettered)
  }

  /** One stored row. The job is stored as it was when it failed, before its attempt
      count was incremented. */
  datatype Entry = Entry(rowId: nat, job: Job, error: string, at: int)

  datatype DeadLetters = DeadLetters(
    rows: seq<Entry>,
    nextId: nat,
    added: nat,
    replayed: nat,
    deleted: nat
  )

  function AddEntry(l: DeadLetters, j: Job, error: string, now: int): DeadLetters {
    l.(rows := l.rows + [Entry(l.nextId, j, error, now)], nextId := l.nextId + 1, added := l.added + 1)
  }

  function WithId(rows: seq<Entry>, id: string): seq<Entry> {
    if rows == [] then []
    else (if rows[0].job.id == id then [rows[0]] else []) + WithId(rows[1..], id)
  }

  function WithoutId(rows: seq<Entry>, id: string): seq<Entry> {
    if rows == [] then []
    else (if rows[0].job.id == id then [] else [rows[0]]) + WithoutId(rows[1..], id)
  }

  /** However many rows one call deletes, the counter moves by one. */
  function DeleteEntry(l: DeadLetters, id: string): (DeadLetters, bool) {
    if WithId(l.rows, id) == [] then (l, false)
    else (l.(rows := WithoutId(l.rows, id), deleted := l.deleted + 1), true)
  }

  datatype ReplayResult = Replayed | NoDispatcher | NotFound | ManyFound | ReplayFailed

  function Fresh(j: Job, now: int): Job {
    j.(attempts := 0, createdAt := now)
  }

  function Replay(l: DeadLetters, d: Dispatcher, id: string, now: int): (DeadLetters, Dispatcher, ReplayResult) {
    var found := WithId(l.rows, id);
    if |found| == 0 then (l, d, NotFound)
    else if |found| > 1 then (l, d, ManyFound)
    else
      var (d', r) := Enqueue(d, Fresh(found[0].job, now), now);
      if r.QueueFull? || r.Duplicate? then (l, d', ReplayFailed)
      else
        // a refusal by a stopped dispatcher is not an exception, so the row goes
        var l' := DeleteEntry(l, id).0;
        (l'.(replayed := l'.replayed + 1), d', Replayed)
  }

  lemma EnqueueCounts(d: Dispatcher, j: Job, now: int)
    ensures var (d', r) := Enqueue(d, j, now);
            && d'.ttl == d.ttl && d'.stopped == d.stopped && d'.enqueued == d.enqueued + (if r.Accepted? then 1 else 0)
            && d'.queue == (if r.Accepted? then d.queue + multiset{j} else d.queue)
            && (r.Refused? <==> d.stopped)
  {
  }

  /** A replay is a put of the fresh job of the one row found, if one is found. */
  lemma ReplayActsAsPut(l: DeadLetters, d: Dispatcher, id: string, now: int)
    ensures var found := WithId(l.rows, id);
            Replay(l, d, id, now).1 == if |found| == 1 then Enqueue(d, Fresh(found[0].job, now), now).0 else d
  {
    hide Enqueue, WithId, DeleteEntry;
  }

  // ---- the two lookups -------------------------------------------------------

  lemma {:induction false} WithIdIff(rows: seq<Entry>, id: string)
    ensures forall e :: e in WithId(rows, id) <==> e in rows && e.job.id == id
    ensures forall e :: e in WithoutId(rows, id) <==> e in rows && e.job.id != id
    ensures |WithId(rows, id)| + |WithoutId(rows, id)| == |rows|
    ensures WithId(rows, id) == [] <==> forall e | e in rows :: e.job.id != id
  {
    if rows != [] {
      WithIdIff(rows[1..], id);
      assert forall e :: e in rows <==> e == rows[0] || e in rows[1..];
    }
  }

  ghost predicate DistinctRows(rows: seq<Entry>) {
    forall i, k :: 0 <= i < k < |rows| ==> rows[i].job.id != rows[k].job.id
  }

  /** With distinct job ids a lookup finds at most one row, and removing it keeps the
      rest distinct. */
  lemma {:induction false} LookupDistinct(rows: seq<Entry>, id: string)
    requires DistinctRows(rows)
    ensures |WithId(rows, id)| <= 1
    ensures DistinctRows(WithoutId(rows, id))
  {
    if rows != [] {
      LookupDistinct(rows[1..], id);
      WithIdIff(rows[1..], id);
      if rows[0].job.id == id {
        assert WithId(rows[1..], id) == [];
      } else {
        var out := WithoutId(rows[1..], id);
        forall i, k | 0 <= i < k < |[rows[0]] + out|
          ensures ([rows[0]] + out)[i].job.id != ([rows[0]] + out)[k].job.id
        {
          assert out[k - 1] in rows[1..];
          if i > 0 {
            assert out[i - 1].job.id != out[k - 1].job.id;
          }
        }
      }
    }
  }

  // ---- when a failed job is retried -------------------------------------------

  /** A key recorded within the time-to-live of `now` blocks every job that carries it. */
  predicate Blocked(d: Dispatcher, j: Job, now: int) {
    Keyed(j) && j.key.value in d.keys && now - d.keys[j.key.value] <= d.ttl
  }

  /** A put is refused, called a duplicate, turned away or accepted, exactly when; each
      outcome moves its own counter, and only an accepted job changes the queue. */
  lemma EnqueueOutcome(d: Dispatcher, j: Job, now: int)
    ensures var (d', r) := Enqueue(d, j, now);
            var live := j.key.Some? && j.key.value != "" && j.key.value in d.keys
                        && now - d.keys[j.key.value] <= d.ttl;
            && (r == Refused <==> d.stopped)
            && (r == Duplicate <==> !d.stopped && live)
            && (r == QueueFull <==> !d.stopped && !live && |d.queue| >= d.maxSize)
            && d'.enqueued == d.enqueued + (if r == Accepted then 1 else 0)
            && d'.duplicates == d.duplicates + (if r == Duplicate then 1 else 0)
            && d'.rejected == d.rejected + (if r == Refused || r == QueueFull then 1 else 0)
            && d'.dequeued == d.dequeued && d'.pending == d.pending
            && d'.queue == (if r == Accepted then d.queue + multiset{j} else d.queue)
  {
  }

  /** The exact fate of a failed job, from what can be looked up before the call. */
  lemma FateOfFailure(d: Dispatcher, j: Job, now: int)
    ensures MarkFailed(d, j, now).1 == Requeued
       <==> j.attempts + 1 < j.maxAttempts && !d.stopped && !Blocked(d, j, now) && |d.queue| < d.maxSize
    ensures MarkFailed(d, j, now).1 == Lost <==> j.attempts + 1 < j.maxAttempts && d.stopped
    ensures MarkFailed(d, j, now).1 == Requeued
        ==> MarkFailed(d, j, now).0.queue == d.queue + multiset{j.(attempts := j.attempts + 1)}
    ensures MarkFailed(d, j, now).1 != Requeued ==> MarkFailed(d, j, now).0.queue == d.queue
    ensures MarkFailed(d, j, now).0.pending == d.pending - {j.id}
  {
  }

  /** A retried job competes from the place it had before it failed. */
  lemma RetryKeepsPlace(j: Job, other: Job)
    ensures Less(IncrementAttempts(j), other) <==> Less(j, other)
    ensures Less(other, IncrementAttempts(j)) <==> Less(other, j)
  {
  }

  /** Replaying into a stopped dispatcher reports success, yet the row is gone and
      nothing was queued; that is the only way a replay can report success without a put. */
  lemma ReplayLosesJobIffStopped(l: DeadLetters, d: Dispatcher, id: string, now: int)
    requires Replay(l, d, id, now).2 == Replayed
    ensures d.stopped <==> Replay(l, d, id, now).1.queue == d.queue
    ensures !d.stopped <==> Replay(l, d, id, now).1.enqueued == d.enqueued + 1
    ensures WithId(Replay(l, d, id, now).0.rows, id) == []
  {
    hide Enqueue, WithId, WithoutId;
    WithIdIff(l.rows, id);
    WithIdIff(WithoutId(l.rows, id), id);
    var j := Fresh(WithId(l.rows, id)[0].job, now);
    EnqueueCounts(d, j, now);
    if !d.stopped {
      assert Replay(l, d, id, now).1 == Enqueue(d, j, now).0;
      assert Replay(l, d, id, now).1.queue[j] == d.queue[j] + 1;
    }
  }

  /** A replay that reports success, into a running dispatcher, queues the job of a row with
      that id, with no attempts counted and the age of now, and nothing else of it changed. */
  lemma ReplayPutsAnew(l: DeadLetters, d: Dispatcher, id: string, now: int)
    requires Replay(l, d, id, now).2 == Replayed && !d.stopped
    ensures exists e | e in l.rows ::
              e.job.id == id &&
              Replay(l, d, id, now).1.queue == d.queue + multiset{e.job.(attempts := 0, createdAt := now)}
  {
    hide Enqueue, WithId, WithoutId, DeleteEntry;
    WithIdIff(l.rows, id);
    var e := WithId(l.rows, id)[0];
    assert e in WithId(l.rows, id);
    EnqueueCounts(d, Fresh(e.job, now), now);
    ReplayActsAsPut(l, d, id, now);
    assert e in l.rows && Fresh(e.job, now) == e.job.(attempts := 0, createdAt := now);
    assert Replay(l, d, id, now).1.queue == d.queue + multiset{Fresh(e.job, now)};
  }

  /** A replay fails to find exactly if there is no such row, finds too many exactly if there
      are two, and with one row fails exactly if a running dispatcher has its key live or no
      room; only success deletes rows, all of that id, and is counted. */
  lemma ReplayAnswers(l: DeadLetters, d: Dispatcher, id: string, now: int)
    ensures var (l', d', r) := Replay(l, d, id, now);
            var n := |WithId(l.rows, id)|;
            && (r == NotFound <==> forall e | e in l.rows :: e.job.id != id)
            && (r == ManyFound <==> n > 1)
            && (n == 1 ==> exists e | e in l.rows ::
                  && e.job.id == id
                  && (r == ReplayFailed <==> !d.stopped && (Blocked(d, e.job, now) || |d.queue| >= d.maxSize)))
            && r != NoDispatcher
            && (r != Replayed ==> l' == l)
            && (r == Replayed ==>
                  && l'.replayed == l.replayed + 1 && l'.deleted == l.deleted + 1 && l'.added == l.added
                  && forall e :: e in l'.rows <==> e in l.rows && e.job.id != id)
  {
    hide Enqueue, WithId, WithoutId;
    WithIdIff(l.rows, id);
    if |WithId(l.rows, id)| == 1 {
      var e := WithId(l.rows, id)[0];
      assert e in WithId(l.rows, id);
      EnqueueOutcome(d, Fresh(e.job, now), now);
    }
  }

  /** Deleting takes every row of the id and no other, and counts once however many they were;
      it says whether there were any. */
  lemma DeleteAnswers(l: DeadLetters, id: string)
    ensures var (l', hit) := DeleteEntry(l, id);
            && (hit <==> exists e | e in l.rows :: e.job.id == id)
            && (forall e :: e in l'.rows <==> e in l.rows && e.job.id != id)
            && l'.deleted == l.deleted + (if hit then 1 else 0)
            && l'.added == l.added && l'.replayed == l.replayed && l'.nextId == l.nextId
  {
    hide WithId, WithoutId;
    WithIdIff(l.rows, id);
  }
}
