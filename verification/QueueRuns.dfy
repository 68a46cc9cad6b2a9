/** Whole runs of the job queue: dispatcher, workers and dead-letter queue together.
    A run is any sequence of timed events in which the clock does not go back. */
module QueueRuns {
  import opened Wrappers
  import opened Jobs
  import opened QueueSpec

  /** `busy` holds the jobs handed out to workers. `accepted` are the ids that ever
      entered the queue as new jobs; `completed`, `dropped` and `purged` record how an id
      left the system: finished, lost, or deleted from the dead-letter queue. */
  datatype System = System(
    d: Dispatcher,
    l: DeadLetters,
    busy: multiset<Job>,
    accepted: set<string>,
    completed: set<string>,
    dropped: set<string>,
    purged: set<string>,
    clock: int
  )

  datatype Action =
    | Submit(job: Job)
    | Hand(job: Job)
    | Complete(job: Job)
    | Fail(job: Job, error: string)
    | Revive(id: string)
    | Purge(id: string)
    | Stop

  datatype Event = Event(at: int, what: Action)

  /** Only a minimal job is handed out, only a job in a worker's hands completes or
      fails, and a submitted job carries an id that was not accepted before. */
  ghost predicate Enabled(s: System, e: Event) {
    && s.clock <= e.at
    && match e.what
       case Submit(j) => j.id !in s.accepted
       case Hand(j) => Minimal(j, s.d.queue)
       case Complete(j) => j in s.busy
       case Fail(j, _) => j in s.busy
       case _ => true
  }

  ghost function Step(s: System, e: Event): System
    requires Enabled(s, e)
  {
    var t := s.(clock := e.at);
    match e.what
    case Submit(j) =>
      var (d', r) := Enqueue(s.d, j, e.at);
      t.(d := d', accepted := if r.Accepted? then s.accepted + {j.id} else s.accepted)
    case Hand(j) =>
      t.(d := Take(s.d, j), busy := s.busy + multiset{j})
    case Complete(j) =>
      t.(d := MarkComplete(s.d, j.id), busy := s.busy - multiset{j}, completed := s.completed + {j.id})
    case Fail(j, error) =>
      var (d', r) := MarkFailed(s.d, j, e.at);
      t.(d := d',
         busy := s.busy - multiset{j},
         l := if r.DeadLettered? then AddEntry(s.l, j, error, e.at) else s.l,
         dropped := if r.Lost? then s.dropped + {j.id} else s.dropped)
    case Revive(id) =>
      var (l', d', r) := Replay(s.l, s.d, id, e.at);
      t.(d := d', l := l', dropped := if r.Replayed? && s.d.stopped then s.dropped + {id} else s.dropped)
    case Purge(id) =>
      var (l', hit) := DeleteEntry(s.l, id);
      t.(l := l', purged := if hit then s.purged + {id} else s.purged)
    case Stop =>
      t.(d := s.d.(stopped := true))
  }

  ghost predicate Runs(s: System, run: seq<Event>)
    decreases |run|
  {
    run == [] || (Enabled(s, run[0]) && Runs(Step(s, run[0]), run[1..]))
  }

  ghost function After(s: System, run: seq<Event>): System
    requires Runs(s, run)
    decreases |run|
  {
    if run == [] then s else After(Step(s, run[0]), run[1..])
  }

  function Start(maxSize: int, ttl: int, now: int): System {
    System(Dispatcher(maxSize, ttl, multiset{}, {}, map[], 0, 0, 0, 0, false),
           DeadLetters([], 0, 0, 0, 0), multiset{}, {}, {}, {}, {}, now)
  }

  // ---- conservation ------------------------------------------------------------

  ghost function Ids(m: multiset<Job>): set<string> {
    set j | j in m :: j.id
  }

  ghost function RowIds(rows: seq<Entry>): set<string> {
    set e | e in rows :: e.job.id
  }

  ghost predicate Unique(m: multiset<Job>) {
    && (forall j | j in m :: m[j] == 1)
    && (forall j, k | j in m && k in m && j.id == k.id :: j == k)
  }

  ghost predicate Partition(all: set<string>, q: set<string>, b: set<string>, r: set<string>,
                            c: set<string>, d: set<string>, p: set<string>)
  {
    (q !! b !! r !! c !! d !! p) && all == q + b + r + c + d + p
  }

  /** Every accepted id is in exactly one place. */
  ghost predicate Conserved(s: System) {
    Partition(s.accepted, Ids(s.d.queue), Ids(s.busy), RowIds(s.l.rows), s.completed, s.dropped, s.purged)
  }

  /** An id that leaves the workers' hands stays in the partition wherever it goes. */
  lemma LeaveBusy(a: set<string>, q: set<string>, b: set<string>, r: set<string>,
                  c: set<string>, d: set<string>, p: set<string>, i: string)
    requires Partition(a, q, b, r, c, d, p) && i in b
    ensures i !in q && i !in r
    ensures Partition(a, q + {i}, b - {i}, r, c, d, p)
    ensures Partition(a, q, b - {i}, r + {i}, c, d, p)
    ensures Partition(a, q, b - {i}, r, c + {i}, d, p)
    ensures Partition(a, q, b - {i}, r, c, d + {i}, p)
  {
  }

  lemma LeaveQueue(a: set<string>, q: set<string>, b: set<string>, r: set<string>,
                   c: set<string>, d: set<string>, p: set<string>, i: string)
    requires Partition(a, q, b, r, c, d, p) && i in q
    ensures i !in b && Partition(a, q - {i}, b + {i}, r, c, d, p)
  {
  }

  lemma LeaveRows(a: set<string>, q: set<string>, b: set<string>, r: set<string>,
                  c: set<string>, d: set<string>, p: set<string>, i: string)
    requires Partition(a, q, b, r, c, d, p) && i in r
    ensures i !in q
    ensures Partition(a, q + {i}, b, r - {i}, c, d, p)
    ensures Partition(a, q, b, r - {i}, c, d + {i}, p)
    ensures Partition(a, q, b, r - {i}, c, d, p + {i})
  {
  }

  ghost predicate Counted(s: System) {
    && |s.d.queue| == s.d.enqueued - s.d.dequeued
    && |s.d.queue| <= (if s.d.maxSize > 0 then s.d.maxSize else 0)
    && |s.l.rows| == s.l.added - s.l.deleted
    && s.l.replayed <= s.l.deleted
  }

  ghost predicate Past(keys: map<string, int>, now: int) {
    forall k | k in keys :: keys[k] <= now
  }

  ghost predicate KeysPast(s: System) {
    Past(s.d.keys, s.clock)
  }

  ghost predicate Inv(s: System) {
    && Unique(s.d.queue) && Unique(s.busy) && DistinctRows(s.l.rows)
    && Conserved(s)
    && Counted(s)
    && s.d.pending == Ids(s.busy)
    && KeysPast(s)
    && (!s.d.stopped ==> s.dropped == {})
  }

  lemma IdsAdd(m: multiset<Job>, j: Job)
    ensures Ids(m + multiset{j}) == Ids(m) + {j.id}
    ensures |m + multiset{j}| == |m| + 1
    ensures Unique(m) && j.id !in Ids(m) ==> Unique(m + multiset{j})
  {
    var n := m + multiset{j};
    assert forall x :: x in n <==> x in m || x == j;
    assert j in n;
    forall i | i in Ids(m) + {j.id}
      ensures i in Ids(n)
    {
      if i != j.id {
        var x :| x in m && x.id == i;
        assert x in n;
      }
    }
  }

  lemma IdsRemove(m: multiset<Job>, j: Job)
    requires Unique(m) && j in m
    ensures Unique(m - multiset{j}) && j !in m - multiset{j}
    ensures Ids(m - multiset{j}) == Ids(m) - {j.id}
    ensures j.id in Ids(m)
    ensures |m - multiset{j}| == |m| - 1
  {
    var n := m - multiset{j};
    assert forall x :: x in n <==> x in m && x != j;
    forall i | i in Ids(m) - {j.id}
      ensures i in Ids(n)
    {
      var x :| x in m && x.id == i;
      assert x in n;
    }
  }

  lemma RowsAdd(l: DeadLetters, j: Job, error: string, now: int)
    requires DistinctRows(l.rows) && j.id !in RowIds(l.rows)
    ensures DistinctRows(AddEntry(l, j, error, now).rows)
    ensures RowIds(AddEntry(l, j, error, now).rows) == RowIds(l.rows) + {j.id}
    ensures var l' := AddEntry(l, j, error, now);
            |l'.rows| - l'.added == |l.rows| - l.added && l'.deleted == l.deleted && l'.replayed == l.replayed
  {
    var e := Entry(l.nextId, j, error, now);
    var rows := l.rows + [e];
    assert forall x :: x in rows <==> x in l.rows || x == e;
    assert forall i | 0 <= i < |l.rows| :: l.rows[i] in l.rows;
    assert e in rows;
    forall i | i in RowIds(l.rows) + {j.id}
      ensures i in RowIds(rows)
    {
      if i != j.id {
        var x :| x in l.rows && x.job.id == i;
        assert x in rows;
      }
    }
  }

  lemma RowsDelete(l: DeadLetters, id: string)
    requires DistinctRows(l.rows)
    ensures DistinctRows(DeleteEntry(l, id).0.rows)
    ensures RowIds(DeleteEntry(l, id).0.rows) == RowIds(l.rows) - {id}
    ensures DeleteEntry(l, id).1 <==> id in RowIds(l.rows)
    ensures var (l', hit) := DeleteEntry(l, id);
            && |l'.rows| + l'.deleted == |l.rows| + l.deleted
            && l'.deleted == l.deleted + (if hit then 1 else 0)
            && l'.added == l.added && l'.replayed == l.replayed
  {
    LookupDistinct(l.rows, id);
    WithIdIff(l.rows, id);
    var rows := WithoutId(l.rows, id);
    if id in RowIds(l.rows) {
      var x :| x in l.rows && x.job.id == id;
      assert x in WithId(l.rows, id);
    }
    forall i | i in RowIds(l.rows) - {id}
      ensures i in RowIds(rows)
    {
      var x :| x in l.rows && x.job.id == i;
      assert x in rows;
    }
  }

  lemma PastLater(keys: map<string, int>, now: int, later: int)
    requires Past(keys, now) && now <= later
    ensures Past(keys, later)
  {
  }

  /** What a put does to the parts of the invariant that speak of the dispatcher. */
  lemma EnqueueKeeps(d: Dispatcher, j: Job, then_: int, now: int)
    requires Unique(d.queue) && j.id !in Ids(d.queue)
    requires Past(d.keys, then_) && then_ <= now
    ensures var (d', r) := Enqueue(d, j, now);
            && Unique(d'.queue)
            && Ids(d'.queue) == (if r.Accepted? then Ids(d.queue) + {j.id} else Ids(d.queue))
            && |d'.queue| - d'.enqueued == |d.queue| - d.enqueued
            && (|d'.queue| > |d.queue| ==> |d'.queue| <= d.maxSize)
            && Past(d'.keys, now)
            && d'.pending == d.pending && d'.dequeued == d.dequeued
            && d'.maxSize == d.maxSize && d'.ttl == d.ttl && d'.stopped == d.stopped
            && (r.Refused? <==> d.stopped)
    ensures Past(d.keys, now)
  {
    IdsAdd(d.queue, j);
    hide Unique, Ids;
  }

  lemma SubmitKeeps(s: System, e: Event)
    requires Inv(s) && Enabled(s, e) && e.what.Submit?
    ensures Inv(Step(s, e))
  {
    hide Unique, Ids, RowIds, DistinctRows, Past, Enqueue;
    EnqueueKeeps(s.d, e.what.job, s.clock, e.at);
  }

  lemma HandKeeps(s: System, e: Event)
    requires Inv(s) && Enabled(s, e) && e.what.Hand?
    ensures Inv(Step(s, e))
  {
    var j := e.what.job;
    HandIsQueued(s, e);
    IdsRemove(s.d.queue, j);
    IdsAdd(s.busy, j);
    PastLater(s.d.keys, s.clock, e.at);
    hide Unique, Ids, RowIds, DistinctRows, Past, Minimal, Partition;
    LeaveQueue(s.accepted, Ids(s.d.queue), Ids(s.busy), RowIds(s.l.rows), s.completed, s.dropped, s.purged, j.id);
  }

  lemma CompleteKeeps(s: System, e: Event)
    requires Inv(s) && Enabled(s, e) && e.what.Complete?
    ensures Inv(Step(s, e))
  {
    IdsRemove(s.busy, e.what.job);
  }

  lemma FailKeeps(s: System, e: Event)
    requires Inv(s) && Enabled(s, e) && e.what.Fail?
    ensures Inv(Step(s, e))
  {
    hide Unique, Ids, RowIds, DistinctRows, Past, Enqueue, Partition, AddEntry;
    var j := e.what.job;
    IdsRemove(s.busy, j);
    LeaveBusy(s.accepted, Ids(s.d.queue), Ids(s.busy), RowIds(s.l.rows), s.completed, s.dropped, s.purged, j.id);
    EnqueueKeeps(MarkComplete(s.d, j.id), IncrementAttempts(j), s.clock, e.at);
    RowsAdd(s.l, j, e.what.error, e.at);
  }

  lemma LookupIsRow(rows: seq<Entry>, id: string)
    requires DistinctRows(rows)
    ensures |WithId(rows, id)| == if id in RowIds(rows) then 1 else 0
    ensures id in RowIds(rows) ==> WithId(rows, id)[0].job.id == id && WithId(rows, id)[0] in rows
  {
    LookupDistinct(rows, id);
    WithIdIff(rows, id);
    if id in RowIds(rows) {
      var x :| x in rows && x.job.id == id;
      assert x in WithId(rows, id);
      assert WithId(rows, id)[0] in WithId(rows, id);
    }
  }

  lemma ReviveKeeps(s: System, e: Event)
    requires Inv(s) && Enabled(s, e) && e.what.Revive?
    ensures Inv(Step(s, e))
  {
    hide Unique, Ids, RowIds, DistinctRows, Past, Enqueue, Partition, DeleteEntry, WithId;
    var id := e.what.id;
    PastLater(s.d.keys, s.clock, e.at);
    LookupIsRow(s.l.rows, id);
    if id in RowIds(s.l.rows) {
      LeaveRows(s.accepted, Ids(s.d.queue), Ids(s.busy), RowIds(s.l.rows), s.completed, s.dropped, s.purged, id);
      RowsDelete(s.l, id);
      var j := Fresh(WithId(s.l.rows, id)[0].job, e.at);
      EnqueueKeeps(s.d, j, s.clock, e.at);
      var t := Step(s, e);
      assert Ids(t.d.queue) == if Enqueue(s.d, j, e.at).1.Accepted? then Ids(s.d.queue) + {id} else Ids(s.d.queue);
      assert Conserved(t);
    }
  }

  lemma PurgeKeeps(s: System, e: Event)
    requires Inv(s) && Enabled(s, e) && e.what.Purge?
    ensures Inv(Step(s, e))
  {
    var id := e.what.id;
    RowsDelete(s.l, id);
    if id in RowIds(s.l.rows) {
      LeaveRows(s.accepted, Ids(s.d.queue), Ids(s.busy), RowIds(s.l.rows), s.completed, s.dropped, s.purged, id);
    }
  }

  lemma StepKeeps(s: System, e: Event)
    requires Inv(s) && Enabled(s, e)
    ensures Inv(Step(s, e))
  {
    match e.what
    case Submit(_) => SubmitKeeps(s, e);
    case Hand(_) => HandKeeps(s, e);
    case Complete(_) => CompleteKeeps(s, e);
    case Fail(_, _) => FailKeeps(s, e);
    case Revive(_) => ReviveKeeps(s, e);
    case Purge(_) => PurgeKeeps(s, e);
    case Stop =>
  }

  lemma {:induction false} RunKeeps(s: System, run: seq<Event>)
    requires Inv(s) && Runs(s, run)
    ensures Inv(After(s, run))
    decreases |run|
  {
    if run != [] {
      StepKeeps(s, run[0]);
      RunKeeps(Step(s, run[0]), run[1..]);
    }
  }

  /** In every run from an empty system each accepted job is in exactly one place, the
      queue never exceeds its bound, the counters account for every put and every row,
      and as long as nobody stopped the dispatcher no job was lost. */
  lemma Conservation(maxSize: int, ttl: int, now: int, run: seq<Event>)
    requires Runs(Start(maxSize, ttl, now), run)
    ensures var s := After(Start(maxSize, ttl, now), run);
            && Conserved(s) && Counted(s)
            && s.d.pending == Ids(s.busy)
            && (!s.d.stopped ==> s.dropped == {})
  {
    RunKeeps(Start(maxSize, ttl, now), run);
  }

  /** A job is lost in exactly two situations, both after the dispatcher was stopped: it
      fails with attempts to spare, or it is replayed from the dead-letter queue. */
  lemma LostExactlyWhen(s: System, e: Event, id: string)
    requires Inv(s) && Enabled(s, e) && id !in s.dropped
    ensures id in Step(s, e).dropped
       <==> && s.d.stopped
            && (|| (e.what.Fail? && e.what.job.id == id && e.what.job.attempts + 1 < e.what.job.maxAttempts)
                || (e.what.Revive? && e.what.id == id && id in RowIds(s.l.rows)))
  {
    hide Enqueue, MarkFailed, Inv, WithId, DeleteEntry, Minimal;
    match e.what
    case Fail(j, _) => FateOfFailure(s.d, j, e.at);
    case Revive(other) =>
      assert DistinctRows(s.l.rows) by { InvRows(s); }
      LookupIsRow(s.l.rows, other);
      if |WithId(s.l.rows, other)| == 1 {
        var j := Fresh(WithId(s.l.rows, other)[0].job, e.at);
        EnqueueCounts(s.d, j, e.at);
      }
    case _ =>
  }

  lemma InvRows(s: System)
    requires Inv(s)
    ensures DistinctRows(s.l.rows)
  {
  }

  // ---- deduplication -------------------------------------------------------------

  datatype Put = Put(key: string, at: int)

  /** The keyed job an event would put into the queue, if it puts one. */
  ghost function Candidate(s: System, e: Event): Option<Job> {
    match e.what
    case Submit(j) => Some(j)
    case Fail(j, _) => if CanRetry(IncrementAttempts(j)) then Some(IncrementAttempts(j)) else None
    case Revive(id) => if |WithId(s.l.rows, id)| == 1 then Some(Fresh(WithId(s.l.rows, id)[0].job, e.at)) else None
    case _ => None
  }

  ghost predicate IsPut(s: System, e: Event)
    requires Enabled(s, e)
  {
    Step(s, e).d.enqueued > s.d.enqueued
  }

  /** The keyed puts of a run in order: new jobs, retries and replays alike. */
  ghost function Puts(s: System, run: seq<Event>): seq<Put>
    requires Runs(s, run)
    decreases |run|
  {
    if run == [] then []
    else
      var e := run[0];
      var c := Candidate(s, e);
      (if IsPut(s, e) && c.Some? && Keyed(c.value) then [Put(c.value.key.value, e.at)] else [])
      + Puts(Step(s, e), run[1..])
  }

  lemma FailureActsAsPut(d: Dispatcher, j: Job, now: int)
    ensures var u := IncrementAttempts(j);
            var d' := MarkFailed(d, j, now).0;
            if CanRetry(u) then
              var (p, r) := Enqueue(d, u, now);
              && d'.keys == p.keys && d'.enqueued == p.enqueued && d'.ttl == d.ttl && d'.queue == p.queue
              && d'.stopped == d.stopped && (MarkFailed(d, j, now).1 == Requeued <==> r.Accepted?)
            else
              d' == MarkComplete(d, j.id) && MarkFailed(d, j, now).1 == DeadLettered
  {
  }

  /** A step touches the dispatcher as a put of its candidate does, if it has one. */
  lemma DispatcherStep(s: System, e: Event)
    requires Enabled(s, e)
    ensures var d, c := Step(s, e).d, Candidate(s, e);
            var p := if c.Some? then Enqueue(s.d, c.value, e.at).0 else s.d;
            && d.keys == p.keys && d.ttl == p.ttl && d.enqueued == p.enqueued
            && d.queue == (if e.what.Hand? then s.d.queue - multiset{e.what.job} else p.queue)
            && d.stopped == (e.what.Stop? || p.stopped)
  {
    hide Enqueue, MarkFailed, Minimal, Replay, DeleteEntry, AddEntry, WithId, CanRetry;
    match e.what
    case Fail(j, _) =>
      FailureActsAsPut(s.d, j, e.at);
      EnqueueCounts(s.d, IncrementAttempts(j), e.at);
    case Revive(id) => ReplayActsAsPut(s.l, s.d, id, e.at);
    case _ =>
  }

  /** In particular the recorded keys. */
  lemma StepActsAsPut(s: System, e: Event)
    requires Enabled(s, e)
    ensures Step(s, e).d.ttl == s.d.ttl
    ensures Candidate(s, e).None? ==> Step(s, e).d.keys == s.d.keys && !IsPut(s, e)
    ensures Candidate(s, e).Some?
        ==> && Step(s, e).d.keys == Enqueue(s.d, Candidate(s, e).value, e.at).0.keys
            && (IsPut(s, e) <==> Enqueue(s.d, Candidate(s, e).value, e.at).1.Accepted?)
  {
    hide Enqueue, Step, Candidate, Enabled;
    DispatcherStep(s, e);
    if Candidate(s, e).Some? {
      EnqueueCounts(s.d, Candidate(s, e).value, e.at);
    }
  }

  /** What a step does to the queue: a hand-out takes one job, a put adds its candidate, and
      a stopped dispatcher takes none. */
  lemma QueueStep(s: System, e: Event)
    requires Enabled(s, e)
    ensures Step(s, e).d.queue ==
      if e.what.Hand? then s.d.queue - multiset{e.what.job}
      else if Candidate(s, e).Some? && IsPut(s, e) then s.d.queue + multiset{Candidate(s, e).value}
      else s.d.queue
    ensures s.d.stopped ==> !IsPut(s, e) && Step(s, e).d.stopped && Step(s, e).d.enqueued == s.d.enqueued
  {
    CandidateOfHand(s, e);
    hide Enqueue, Step, Candidate, Enabled;
    DispatcherStep(s, e);
    if Candidate(s, e).Some? {
      EnqueueCounts(s.d, Candidate(s, e).value, e.at);
    }
  }

  lemma CandidateOfHand(s: System, e: Event)
    ensures e.what.Hand? || e.what.Stop? ==> Candidate(s, e).None?
  {
  }

  /** Once stopped, the queue takes nothing more, whatever happens afterwards. */
  lemma {:induction false} NothingEntersAfterStop(s: System, run: seq<Event>)
    requires Runs(s, run) && s.d.stopped
    ensures After(s, run).d.stopped
    ensures After(s, run).d.enqueued == s.d.enqueued
    ensures After(s, run).d.queue <= s.d.queue
    decreases |run|
  {
    hide Step, Enabled;
    if run != [] {
      QueueStep(s, run[0]);
      NothingEntersAfterStop(Step(s, run[0]), run[1..]);
    }
  }

  lemma EnqueueKey(d: Dispatcher, j: Job, now: int, k: string)
    requires k in d.keys && d.keys[k] <= now
    ensures var (d', r) := Enqueue(d, j, now);
            && (k in d'.keys ==> d.keys[k] <= d'.keys[k])
            && (now - d.keys[k] <= d.ttl ==> k in d'.keys && d'.keys[k] == d.keys[k])
            && (k !in d'.keys ==> now - d.keys[k] > d.ttl)
            && (r.Accepted? && j.key == Some(k) && k != "" ==> now - d.keys[k] > d.ttl)
  {
  }

  lemma KeysStayPast(s: System, e: Event)
    requires KeysPast(s) && Enabled(s, e)
    ensures KeysPast(Step(s, e)) && Step(s, e).d.ttl == s.d.ttl
  {
    hide Step, Candidate, Enabled;
    StepActsAsPut(s, e);
    StepTime(s, e);
  }

  lemma StepTime(s: System, e: Event)
    requires Enabled(s, e)
    ensures s.clock <= Step(s, e).clock == e.at
  {
  }

  /** How one step treats a recorded key: it is kept, or it has expired. */
  lemma KeyStep(s: System, e: Event, k: string)
    requires KeysPast(s) && Enabled(s, e) && k in s.d.keys
    ensures KeysPast(Step(s, e)) && Step(s, e).d.ttl == s.d.ttl
    ensures k in Step(s, e).d.keys ==> s.d.keys[k] <= Step(s, e).d.keys[k]
    ensures e.at - s.d.keys[k] <= s.d.ttl ==> k in Step(s, e).d.keys && Step(s, e).d.keys[k] == s.d.keys[k]
    ensures k !in Step(s, e).d.keys ==> e.at - s.d.keys[k] > s.d.ttl
    ensures IsPut(s, e) && Candidate(s, e).Some? && Candidate(s, e).value.key == Some(k) && k != ""
        ==> e.at - s.d.keys[k] > s.d.ttl
  {
    hide Step, Candidate, Enqueue, Enabled, IsPut;
    StepActsAsPut(s, e);
    StepTime(s, e);
    KeysStayPast(s, e);
    if Candidate(s, e).Some? {
      EnqueueKey(s.d, Candidate(s, e).value, e.at, k);
    }
  }

  lemma PutRecordsKey(s: System, e: Event)
    requires Enabled(s, e) && IsPut(s, e)
    ensures Candidate(s, e).Some?
    ensures Keyed(Candidate(s, e).value)
        ==> var k := Candidate(s, e).value.key.value; k in Step(s, e).d.keys && Step(s, e).d.keys[k] == e.at
  {
    hide Step, Candidate, Enabled, IsPut;
    StepActsAsPut(s, e);
  }

  lemma {:induction false} PutsAreLater(s: System, run: seq<Event>, p: Put)
    requires Runs(s, run) && p in Puts(s, run)
    ensures s.clock <= p.at
    decreases |run|
  {
    if p in Puts(Step(s, run[0]), run[1..]) {
      PutsAreLater(Step(s, run[0]), run[1..], p);
    }
  }

  /** A recorded key keeps every later put of that key more than the time-to-live away. */
  lemma {:induction false} RecordedKeyDelays(s: System, run: seq<Event>, k: string, p: Put)
    requires KeysPast(s) && Runs(s, run) && k in s.d.keys && k != ""
    ensures p in Puts(s, run) && p.key == k ==> p.at - s.d.keys[k] > s.d.ttl
    decreases |run|
  {
    if p in Puts(s, run) && p.key == k {
      var t := Step(s, run[0]);
      KeyStep(s, run[0], k);
      if p in Puts(t, run[1..]) {
        PutsAreLater(t, run[1..], p);
        if k in t.d.keys {
          RecordedKeyDelays(t, run[1..], k, p);
        }
      }
    }
  }

  /** In every run any two puts with the same key, retries and replays included, are more
      than the time-to-live apart. */
  lemma {:induction false} PutsAreApart(s: System, run: seq<Event>, i: nat, k: nat)
    requires KeysPast(s) && Runs(s, run) && i < k < |Puts(s, run)| && Puts(s, run)[i].key == Puts(s, run)[k].key
    ensures Puts(s, run)[k].at - Puts(s, run)[i].at > s.d.ttl
    decreases |run|
  {
    hide Step, Enabled, KeysPast, Candidate, IsPut;
    var e, t, puts := run[0], Step(s, run[0]), Puts(s, run);
    var tail := Puts(t, run[1..]);
    KeysStayPast(s, e);
    if puts == tail {
      PutsAreApart(t, run[1..], i, k);
    } else {
      assert puts == [puts[0]] + tail;
      PutRecordsKey(s, e);
      if i == 0 {
        assert puts[k] == tail[k - 1];
        RecordedKeyDelays(t, run[1..], puts[0].key, puts[k]);
      } else {
        PutsAreApart(t, run[1..], i - 1, k - 1);
      }
    }
  }

  /** A recorded key survives, with its time, until the time-to-live has passed. */
  lemma {:induction false} KeyPersists(s: System, run: seq<Event>, k: string)
    requires KeysPast(s) && Runs(s, run) && k in s.d.keys
    requires After(s, run).clock - s.d.keys[k] <= s.d.ttl
    ensures k in After(s, run).d.keys && After(s, run).d.keys[k] == s.d.keys[k]
    ensures After(s, run).d.ttl == s.d.ttl
    decreases |run|
  {
    if run != [] {
      ClockAdvances(Step(s, run[0]), run[1..]);
      KeyStep(s, run[0], k);
      KeyPersists(Step(s, run[0]), run[1..], k);
    }
  }

  lemma {:induction false} ClockAdvances(s: System, run: seq<Event>)
    requires Runs(s, run)
    ensures s.clock <= After(s, run).clock
    decreases |run|
  {
    if run != [] {
      ClockAdvances(Step(s, run[0]), run[1..]);
    }
  }

  /** A keyed job that fails within the time-to-live of a put of its key is never retried:
      it goes to the dead-letter queue even with attempts left, unless the dispatcher was
      stopped meanwhile. */
  lemma EarlyFailureIsFinal(s: System, put: Event, run: seq<Event>, fail: Event)
    requires KeysPast(s) && Enabled(s, put) && IsPut(s, put)
    requires Keyed(Candidate(s, put).value)
    requires Runs(Step(s, put), run)
    requires Enabled(After(Step(s, put), run), fail) && fail.what.Fail?
    requires fail.what.job.key == Candidate(s, put).value.key
    requires fail.at - put.at <= s.d.ttl
    ensures var t := After(Step(s, put), run);
            var u := Step(t, fail);
            !t.d.stopped ==> u.d.queue == t.d.queue && fail.what.job.id in RowIds(u.l.rows)
  {
    hide Step, Enabled, KeysPast, Candidate, IsPut, Runs, RowIds;
    PutRecordsKey(s, put);
    var k := Candidate(s, put).value.key.value;
    KeysStayPast(s, put);
    var t := After(Step(s, put), run);
    StepTime(t, fail);
    KeyPersists(Step(s, put), run, k);
    if !t.d.stopped {
      BlockedFailure(t, fail);
    }
  }

  lemma BlockedFailure(s: System, e: Event)
    requires Enabled(s, e) && e.what.Fail? && Blocked(s.d, e.what.job, e.at) && !s.d.stopped
    ensures Step(s, e).d.queue == s.d.queue && e.what.job.id in RowIds(Step(s, e).l.rows)
  {
    hide Enqueue, MarkFailed;
    FateOfFailure(s.d, e.what.job, e.at);
    var rows := Step(s, e).l.rows;
    assert rows[|rows| - 1] in rows;
  }

  // ---- when a key is free again ------------------------------------------------------

  /** The event offers a job with this key to a running dispatcher: by submission, by replay,
      or by a failure with attempts to spare. */
  ghost predicate Offers(s: System, e: Event, k: string) {
    !s.d.stopped && Candidate(s, e).Some? && Candidate(s, e).value.key == Some(k)
  }

  ghost predicate NotOffered(s: System, run: seq<Event>, k: string)
    requires Runs(s, run)
    decreases |run|
  {
    run == [] || (!Offers(s, run[0], k) && NotOffered(Step(s, run[0]), run[1..], k))
  }

  /** When the key was last recorded, read off the run: an offer renews the time if the
      time-to-live has passed by then, whether or not the job was let in. */
  ghost function LastRecorded(s: System, run: seq<Event>, k: string, at: int): int
    requires Runs(s, run)
    decreases |run|
  {
    if run == [] then at
    else
      var e := run[0];
      LastRecorded(Step(s, e), run[1..], k, if Offers(s, e, k) && e.at - at > s.d.ttl then e.at else at)
  }

  ghost predicate Remembers(s: System, k: string, at: int) {
    if k in s.d.keys then s.d.keys[k] == at else s.clock - at > s.d.ttl
  }

  lemma EnqueueRemembers(d: Dispatcher, j: Job, now: int, k: string)
    ensures var (d', _) := Enqueue(d, j, now);
            var live := k in d.keys && now - d.keys[k] <= d.ttl;
            if d.stopped then d'.keys == d.keys
            else if live then k in d'.keys && d'.keys[k] == d.keys[k]
            else if j.key == Some(k) && k != "" then k in d'.keys && d'.keys[k] == now
            else k !in d'.keys
  {
  }

  lemma StepRemembers(s: System, e: Event, k: string, at: int)
    requires Enabled(s, e) && Remembers(s, k, at) && k != ""
    ensures Remembers(Step(s, e), k, if Offers(s, e, k) && e.at - at > s.d.ttl then e.at else at)
  {
    hide Step, Candidate, Enqueue, Enabled;
    StepActsAsPut(s, e);
    StepTime(s, e);
    if Candidate(s, e).Some? {
      EnqueueRemembers(s.d, Candidate(s, e).value, e.at, k);
    }
  }

  lemma {:induction false} RunRemembers(s: System, run: seq<Event>, k: string, at: int)
    requires Runs(s, run) && Remembers(s, k, at) && k != ""
    ensures Remembers(After(s, run), k, LastRecorded(s, run, k, at)) && After(s, run).d.ttl == s.d.ttl
    ensures After(s, run).clock - at <= s.d.ttl ==> LastRecorded(s, run, k, at) == at
    ensures NotOffered(s, run, k) ==> LastRecorded(s, run, k, at) == at
    decreases |run|
  {
    hide Step, Enabled, Offers, Remembers;
    if run != [] {
      var e := run[0];
      StepRemembers(s, e, k, at);
      StepTime(s, e);
      StepActsAsPut(s, e);
      ClockAdvances(Step(s, e), run[1..]);
      RunRemembers(Step(s, e), run[1..], k, if Offers(s, e, k) && e.at - at > s.d.ttl then e.at else at);
    }
  }

  /** A running dispatcher calls a job a duplicate exactly while the time-to-live since the
      last recording of its key has not passed. */
  lemma BlockedIff(s: System, run: seq<Event>, k: string, at: int, j: Job, now: int)
    requires Runs(s, run) && Remembers(s, k, at) && k != "" && j.key == Some(k)
    requires After(s, run).clock <= now
    ensures var t := After(s, run);
            && (Blocked(t.d, j, now) <==> now - LastRecorded(s, run, k, at) <= s.d.ttl)
            && (!t.d.stopped ==> (Enqueue(t.d, j, now).1 == Duplicate <==> Blocked(t.d, j, now)))
  {
    hide Step, Enabled;
    RunRemembers(s, run, k, at);
  }

  /** A job turned away because the queue was full has still used up its key. In every
      continuation a further submission of the key is called a duplicate exactly while the
      time-to-live since the key was last recorded has not passed, however much room there
      is; and that was at the refusal, unless the key was offered again after it expired. */
  lemma FullRejectionBurnsKey(s: System, first: Event, run: seq<Event>, again: Job, now: int)
    requires Enabled(s, first) && first.what.Submit? && Keyed(first.what.job)
    requires Enqueue(s.d, first.what.job, first.at).1 == QueueFull
    requires Runs(Step(s, first), run) && again.key == first.what.job.key
    requires After(Step(s, first), run).clock <= now
    ensures var t, k := After(Step(s, first), run), first.what.job.key.value;
            var last := LastRecorded(Step(s, first), run, k, first.at);
            && (!t.d.stopped ==> (Enqueue(t.d, again, now).1 == Duplicate <==> now - last <= s.d.ttl))
            && (now - first.at <= s.d.ttl || NotOffered(Step(s, first), run, k) ==> last == first.at)
  {
    var x, k := Step(s, first), first.what.job.key.value;
    assert Remembers(x, k, first.at) && x.d.ttl == s.d.ttl;
    hide Step, Enabled, Enqueue, Blocked, Remembers;
    BlockedIff(x, run, k, first.at, again, now);
    RunRemembers(x, run, k, first.at);
  }

  /** What becomes of a keyed job that fails after a put of its key, exactly: it is retried
      if attempts are left, the time-to-live since the last recording has passed and there
      is room, and goes to the dead letters otherwise, unless the dispatcher was stopped. */
  lemma KeyedFailureFate(s: System, put: Event, run: seq<Event>, fail: Event)
    requires Enabled(s, put) && IsPut(s, put) && Keyed(Candidate(s, put).value)
    requires Runs(Step(s, put), run) && Enabled(After(Step(s, put), run), fail) && fail.what.Fail?
    requires fail.what.job.key == Candidate(s, put).value.key
    ensures var t, j := After(Step(s, put), run), fail.what.job;
            var last := LastRecorded(Step(s, put), run, j.key.value, put.at);
            !t.d.stopped ==>
              (MarkFailed(t.d, j, fail.at).1 == Requeued
               <==> j.attempts + 1 < j.maxAttempts && fail.at - last > s.d.ttl && |t.d.queue| < t.d.maxSize)
  {
    hide Step, Enabled, Candidate, IsPut, Runs, MarkFailed;
    PutRecordsKey(s, put);
    StepActsAsPut(s, put);
    var k := Candidate(s, put).value.key.value;
    var t := After(Step(s, put), run);
    StepTime(t, fail);
    BlockedIff(Step(s, put), run, k, put.at, fail.what.job, fail.at);
    FateOfFailure(t.d, fail.what.job, fail.at);
  }

  // ---- priority ------------------------------------------------------------------

  lemma QueuedAfterStep(s: System, e: Event, a: Job)
    requires Enabled(s, e) && a in s.d.queue && e.what != Hand(a)
    ensures a in Step(s, e).d.queue
  {
    QueueStep(s, e);
    hide Step, Enabled, Candidate, IsPut;
  }

  /** A queued job stays queued until it is handed out. */
  lemma {:induction false} StaysQueued(s: System, run: seq<Event>, a: Job)
    requires Runs(s, run) && a in s.d.queue
    requires forall e | e in run :: e.what != Hand(a)
    ensures a in After(s, run).d.queue
    decreases |run|
  {
    hide Step, Enabled;
    if run != [] {
      assert forall e | e in run[1..] :: e in run;
      assert run[0] in run;
      QueuedAfterStep(s, run[0], a);
      StaysQueued(Step(s, run[0]), run[1..], a);
    }
  }

  lemma {:induction false} RunsSplit(s: System, run: seq<Event>, n: nat)
    requires Runs(s, run) && n < |run|
    ensures Runs(s, run[..n]) && Enabled(After(s, run[..n]), run[n])
    decreases n
  {
    if n > 0 {
      assert run[1..][..n - 1] == run[..n][1..];
      RunsSplit(Step(s, run[0]), run[1..], n - 1);
    }
  }

  /** No priority inversion: of two jobs queued together the strictly smaller one is handed
      out first in every continuation. */
  lemma NoInversion(s: System, run: seq<Event>, a: Job, b: Job, n: nat)
    requires Runs(s, run) && a in s.d.queue && b in s.d.queue && Less(a, b)
    requires n < |run| && run[n].what == Hand(b)
    ensures exists m :: 0 <= m < n && run[m].what == Hand(a)
  {
    RunsSplit(s, run, n);
    if forall m | 0 <= m < n :: run[m].what != Hand(a) {
      StaysQueued(s, run[..n], a);
      QueueOrder(a, b, b);
      assert false;
    }
  }

  /** A retried job has lost nothing by failing: every job that was queued when it failed
      and is strictly larger is handed out only after it. */
  lemma RetryIsNotOvertaken(s: System, fail: Event, run: seq<Event>, b: Job, n: nat)
    requires Enabled(s, fail) && fail.what.Fail? && MarkFailed(s.d, fail.what.job, fail.at).1 == Requeued
    requires b in s.d.queue && Less(fail.what.job, b)
    requires Runs(Step(s, fail), run) && n < |run| && run[n].what == Hand(b)
    ensures exists m :: 0 <= m < n && run[m].what == Hand(IncrementAttempts(fail.what.job))
  {
    var j, t := fail.what.job, Step(s, fail);
    FateOfFailure(s.d, j, fail.at);
    RetryKeepsPlace(j, b);
    assert t.d == MarkFailed(s.d, j, fail.at).0;
    hide Step, Enabled, Runs, MarkFailed, Less;
    assert IncrementAttempts(j) in t.d.queue && b in t.d.queue;
    NoInversion(t, run, IncrementAttempts(j), b, n);
  }

  // ---- termination ---------------------------------------------------------------

  /** How often a job with this attempt count may still be handed out. */
  function Left(j: Job): nat {
    if j.maxAttempts - j.attempts > 1 then j.maxAttempts - j.attempts else 1
  }

  ghost function Total(m: multiset<Job>): nat
    decreases |m|
  {
    if m == multiset{} then 0
    else var j :| j in m; 2 * Left(j) + Total(m - multiset{j})
  }

  lemma {:induction false} TotalRemove(m: multiset<Job>, j: Job)
    requires j in m
    ensures Total(m) == 2 * Left(j) + Total(m - multiset{j})
    decreases |m|
  {
    hide Left;
    var k :| k in m && Total(m) == 2 * Left(k) + Total(m - multiset{k});
    if k != j {
      TotalRemove(m - multiset{k}, j);
      TotalRemove(m - multiset{j}, k);
      assert m - multiset{k} - multiset{j} == m - multiset{j} - multiset{k};
    }
  }

  lemma TotalAdd(m: multiset<Job>, j: Job)
    ensures Total(m + multiset{j}) == 2 * Left(j) + Total(m)
  {
    TotalRemove(m + multiset{j}, j);
    assert m + multiset{j} - multiset{j} == m;
  }

  lemma {:induction false} TotalAtLeast(m: multiset<Job>)
    ensures Total(m) >= 2 * |m|
    decreases |m|
  {
    if m != multiset{} {
      var j :| j in m;
      TotalRemove(m, j);
      TotalAtLeast(m - multiset{j});
    }
  }

  /** Work still ahead: every queued job owes a hand-out and an outcome per try, every
      busy job has had its hand-out. */
  ghost function Measure(s: System): nat {
    TotalAtLeast(s.busy);
    Total(s.d.queue) + Total(s.busy) - |s.busy|
  }

  predicate IsWork(e: Event) {
    e.what.Hand? || e.what.Complete? || e.what.Fail?
  }

  function WorkSteps(run: seq<Event>): nat {
    if run == [] then 0 else (if IsWork(run[0]) then 1 else 0) + WorkSteps(run[1..])
  }

  /** The work an event brings in: only a submission or a replay that reaches the queue. */
  ghost function Arrival(s: System, e: Event): nat
    requires Enabled(s, e)
  {
    if IsPut(s, e) && !e.what.Fail? && Candidate(s, e).Some? then 2 * Left(Candidate(s, e).value) else 0
  }

  ghost function Arrivals(s: System, run: seq<Event>): nat
    requires Runs(s, run)
    decreases |run|
  {
    if run == [] then 0 else Arrival(s, run[0]) + Arrivals(Step(s, run[0]), run[1..])
  }

  lemma PutTotal(d: Dispatcher, j: Job, now: int)
    ensures var (d', r) := Enqueue(d, j, now);
            Total(d'.queue) == Total(d.queue) + (if r.Accepted? then 2 * Left(j) else 0)
  {
    TotalAdd(d.queue, j);
    EnqueueCounts(d, j, now);
    hide *;
  }

  lemma HandIsQueued(s: System, e: Event)
    requires Enabled(s, e) && e.what.Hand?
    ensures e.what.job in s.d.queue
  {
  }

  lemma WorkStepPays(s: System, e: Event)
    requires Enabled(s, e) && IsWork(e)
    ensures Measure(Step(s, e)) + 1 <= Measure(s)
  {
    hide Enqueue, MarkFailed, Minimal, AddEntry, Total;
    var j := e.what.job;
    match e.what
    case Hand(_) =>
      HandIsQueued(s, e);
      TotalRemove(s.d.queue, j);
      TotalAdd(s.busy, j);
    case Complete(_) =>
      TotalRemove(s.busy, j);
    case Fail(_, _) =>
      TotalRemove(s.busy, j);
      FailureActsAsPut(s.d, j, e.at);
      PutTotal(s.d, IncrementAttempts(j), e.at);
  }

  lemma OtherStepPays(s: System, e: Event)
    requires Enabled(s, e) && !IsWork(e)
    ensures Measure(Step(s, e)) <= Measure(s) + Arrival(s, e)
  {
    hide Enqueue, Minimal, WithId, DeleteEntry, Total, Left;
    match e.what
    case Submit(j) =>
      PutTotal(s.d, j, e.at);
      EnqueueCounts(s.d, j, e.at);
    case Revive(id) =>
      if |WithId(s.l.rows, id)| == 1 {
        var j := Fresh(WithId(s.l.rows, id)[0].job, e.at);
        PutTotal(s.d, j, e.at);
        EnqueueCounts(s.d, j, e.at);
      }
    case _ =>
  }

  /** Hand-outs, completions and failures are paid for: their number in any run is at most
      the measure at the start plus what arrived. Without arrivals the workers stop. */
  lemma {:induction false} WorkIsBounded(s: System, run: seq<Event>)
    requires Runs(s, run)
    ensures WorkSteps(run) + Measure(After(s, run)) <= Measure(s) + Arrivals(s, run)
    decreases |run|
  {
    if run != [] {
      if IsWork(run[0]) {
        WorkStepPays(s, run[0]);
      } else {
        OtherStepPays(s, run[0]);
      }
      WorkIsBounded(Step(s, run[0]), run[1..]);
    }
  }

  function HandsOf(run: seq<Event>, id: string): nat {
    if run == [] then 0
    else (if run[0].what.Hand? && run[0].what.job.id == id then 1 else 0) + HandsOf(run[1..], id)
  }

  /** How often the job with this id may still be handed out without a replay. */
  ghost predicate Credit(s: System, id: string, n: nat) {
    && (forall j | j in s.d.queue && j.id == id :: Left(j) <= n)
    && (forall j | j in s.busy && j.id == id :: Left(j) <= n + 1)
  }

  /** Where a step's queue and busy jobs come from. */
  lemma StepSources(s: System, e: Event)
    requires Inv(s) && Enabled(s, e)
    ensures var t := Step(s, e);
            && s.accepted <= t.accepted
            && (forall x | x in t.d.queue ::
                  || x in s.d.queue
                  || (e.what.Submit? && x == e.what.job)
                  || (e.what.Fail? && x == IncrementAttempts(e.what.job) && CanRetry(x))
                  || (e.what.Revive? && x.id == e.what.id))
            && (forall x | x in t.busy :: x in s.busy || (e.what.Hand? && x == e.what.job))
  {
    hide Enqueue, MarkFailed, Conserved, Counted, KeysPast, WithId, AddEntry, DeleteEntry, Unique, Ids;
    match e.what
    case Submit(j) => QueueAfterPut(s.d, j, e.at);
    case Fail(j, _) =>
      FailureActsAsPut(s.d, j, e.at);
      QueueAfterPut(s.d, IncrementAttempts(j), e.at);
    case Revive(id) =>
      LookupIsRow(s.l.rows, id);
      if |WithId(s.l.rows, id)| == 1 {
        QueueAfterPut(s.d, Fresh(WithId(s.l.rows, id)[0].job, e.at), e.at);
      }
    case _ =>
  }

  lemma QueueAfterPut(d: Dispatcher, j: Job, now: int)
    ensures forall x | x in Enqueue(d, j, now).0.queue :: x in d.queue || x == j
  {
  }

  /** The handed-out or failed job is gone from where it was, and it was alone there. */
  lemma StepTakes(s: System, e: Event)
    requires Inv(s) && Enabled(s, e)
    ensures e.what.Hand? ==>
        && e.what.job in s.d.queue
        && (forall x | x in Step(s, e).d.queue :: x.id != e.what.job.id)
        && (forall x | x in s.busy :: x.id != e.what.job.id)
    ensures e.what.Fail? ==>
        && e.what.job in s.busy
        && (forall x | x in s.d.queue :: x.id != e.what.job.id)
    ensures e.what.Submit? ==> e.what.job.id !in s.accepted
  {
    hide Enqueue, MarkFailed, Counted, KeysPast, AddEntry;
    if e.what.Hand? || e.what.Fail? {
      var j := e.what.job;
      assert forall x | x in s.d.queue :: x.id in Ids(s.d.queue);
      assert forall x | x in s.busy :: x.id in Ids(s.busy);
      assert Ids(s.d.queue) !! Ids(s.busy);
      if e.what.Hand? {
        HandIsQueued(s, e);
        IdsRemove(s.d.queue, j);
        assert forall x | x in Step(s, e).d.queue :: x in s.d.queue && x != j;
      }
    }
  }

  lemma CreditStep(s: System, e: Event, id: string, n: nat)
    requires Inv(s) && Enabled(s, e) && Credit(s, id, n) && id in s.accepted && e.what != Revive(id)
    ensures e.what.Hand? && e.what.job.id == id ==> n > 0 && Credit(Step(s, e), id, n - 1)
    ensures !(e.what.Hand? && e.what.job.id == id) ==> Credit(Step(s, e), id, n)
    ensures id in Step(s, e).accepted
  {
    hide Inv, Enabled, Step;
    StepSources(s, e);
    StepTakes(s, e);
  }

  lemma {:induction false} CreditBounds(s: System, run: seq<Event>, id: string, n: nat)
    requires Inv(s) && Runs(s, run) && Credit(s, id, n) && id in s.accepted
    requires forall e | e in run :: e.what != Revive(id)
    ensures HandsOf(run, id) <= n
    decreases |run|
  {
    if run != [] {
      var e := run[0];
      assert e in run;
      StepKeeps(s, e);
      CreditStep(s, e, id, n);
      assert forall x | x in run[1..] :: x in run;
      CreditBounds(Step(s, e), run[1..], id, if e.what.Hand? && e.what.job.id == id then n - 1 else n);
    }
  }

  /** A submitted job and all its retries are handed out at most
      max(1, max_attempts - attempts) times, replays aside. */
  lemma LineageIsBounded(s: System, submit: Event, run: seq<Event>)
    requires Inv(s) && Enabled(s, submit) && submit.what.Submit? && IsPut(s, submit)
    requires Runs(Step(s, submit), run)
    requires forall e | e in run :: e.what != Revive(submit.what.job.id)
    ensures HandsOf(run, submit.what.job.id) <= Left(submit.what.job)
  {
    hide Step, Runs, Unique, Conserved, Counted, KeysPast;
    var j, t := submit.what.job, Step(s, submit);
    StepKeeps(s, submit);
    NewJobCredit(s, submit);
    CreditBounds(t, run, j.id, Left(j));
  }

  lemma NewJobCredit(s: System, e: Event)
    requires Inv(s) && Enabled(s, e) && e.what.Submit? && IsPut(s, e)
    ensures Credit(Step(s, e), e.what.job.id, Left(e.what.job))
    ensures e.what.job.id in Step(s, e).accepted
  {
    StepSources(s, e);
    assert forall x | x in s.d.queue :: x.id in Ids(s.d.queue);
    assert forall x | x in s.busy :: x.id in Ids(s.busy);
  }

  /** A job replayed from the dead letters may be handed out max(1, max_attempts) times more,
      whatever it had used up before. */
  lemma ReplayedLineageIsBounded(s: System, revive: Event, run: seq<Event>, e: Entry)
    requires Inv(s) && Enabled(s, revive) && revive.what.Revive? && IsPut(s, revive)
    requires e in s.l.rows && e.job.id == revive.what.id
    requires Runs(Step(s, revive), run)
    requires forall x | x in run :: x.what != Revive(revive.what.id)
    ensures HandsOf(run, revive.what.id) <= if e.job.maxAttempts > 1 then e.job.maxAttempts else 1
  {
    hide Step, Runs, Unique, Conserved, Counted, KeysPast;
    var n := if e.job.maxAttempts > 1 then e.job.maxAttempts else 1;
    StepKeeps(s, revive);
    ReplayedCredit(s, revive, e);
    CreditBounds(Step(s, revive), run, revive.what.id, n);
  }

  lemma ReplayedCredit(s: System, revive: Event, e: Entry)
    requires Inv(s) && Enabled(s, revive) && revive.what.Revive? && IsPut(s, revive)
    requires e in s.l.rows && e.job.id == revive.what.id
    ensures Credit(Step(s, revive), e.job.id, Left(e.job.(attempts := 0, createdAt := revive.at)))
    ensures e.job.id in Step(s, revive).accepted
  {
    RevivedQueue(s, revive, e);
    RowIsElsewhere(s, e);
    BusyStays(s, revive);
    hide *;
    CreditOfOne(Step(s, revive), s.d.queue, e.job.(attempts := 0, createdAt := revive.at));
  }

  /** The only job of an id, still to be handed out. */
  lemma CreditOfOne(t: System, queue: multiset<Job>, j: Job)
    requires t.d.queue == queue + multiset{j}
    requires (forall x | x in queue :: x.id != j.id) && (forall x | x in t.busy :: x.id != j.id)
    ensures Credit(t, j.id, Left(j))
  {
    assert forall x | x in t.d.queue :: x in queue || x == j;
  }

  lemma RevivedQueue(s: System, revive: Event, e: Entry)
    requires Inv(s) && Enabled(s, revive) && revive.what.Revive? && IsPut(s, revive)
    requires e in s.l.rows && e.job.id == revive.what.id
    ensures Step(s, revive).d.queue == s.d.queue + multiset{e.job.(attempts := 0, createdAt := revive.at)}
  {
    OnlyRow(s, e);
    assert Candidate(s, revive) == Some(e.job.(attempts := 0, createdAt := revive.at));
    hide Inv, Step, Enabled, Candidate, IsPut;
    QueueStep(s, revive);
  }

  lemma RowIsElsewhere(s: System, e: Entry)
    requires Inv(s) && e in s.l.rows
    ensures forall x | x in s.d.queue :: x.id != e.job.id
    ensures forall x | x in s.busy :: x.id != e.job.id
    ensures e.job.id in s.accepted
  {
    assert e.job.id in RowIds(s.l.rows);
    assert forall x | x in s.d.queue :: x.id in Ids(s.d.queue);
    assert forall x | x in s.busy :: x.id in Ids(s.busy);
    hide Unique, Ids, RowIds, Counted, KeysPast, DistinctRows;
  }

  lemma OnlyRow(s: System, e: Entry)
    requires Inv(s) && e in s.l.rows
    ensures WithId(s.l.rows, e.job.id) == [e]
  {
    hide WithId;
    assert DistinctRows(s.l.rows) by { InvRows(s); }
    LookupDistinct(s.l.rows, e.job.id);
    WithIdIff(s.l.rows, e.job.id);
    assert e in WithId(s.l.rows, e.job.id);
  }

  lemma BusyStays(s: System, e: Event)
    requires Enabled(s, e) && e.what.Revive?
    ensures Step(s, e).busy == s.busy && Step(s, e).accepted == s.accepted
  {
    hide Replay;
  }

  // ---- the counters ---------------------------------------------------------------

  /** The puts a run attempts: submissions, failures with attempts to spare, replays of a row. */
  ghost function Attempted(s: System, run: seq<Event>): nat
    requires Runs(s, run)
    decreases |run|
  {
    if run == [] then 0
    else (if Candidate(s, run[0]).Some? then 1 else 0) + Attempted(Step(s, run[0]), run[1..])
  }

  function HandOuts(run: seq<Event>): nat {
    if run == [] then 0 else (if run[0].what.Hand? then 1 else 0) + HandOuts(run[1..])
  }

  ghost function PutsCounted(d: Dispatcher): nat {
    d.enqueued + d.rejected + d.duplicates
  }

  lemma CountersStep(s: System, e: Event)
    requires Enabled(s, e)
    ensures var d := Step(s, e).d;
            && PutsCounted(d) == PutsCounted(s.d) + (if Candidate(s, e).Some? then 1 else 0)
            && d.dequeued == s.d.dequeued + (if e.what.Hand? then 1 else 0)
  {
    hide Enqueue, Minimal, DeleteEntry, AddEntry, WithId, CanRetry, Replay, MarkFailed;
    match e.what
    case Submit(j) => EnqueueOutcome(s.d, j, e.at);
    case Fail(j, _) =>
      FailureCounts(s.d, j, e.at);
      EnqueueOutcome(MarkComplete(s.d, j.id), IncrementAttempts(j), e.at);
    case Revive(id) =>
      ReplayActsAsPut(s.l, s.d, id, e.at);
      if |WithId(s.l.rows, id)| == 1 {
        EnqueueOutcome(s.d, Fresh(WithId(s.l.rows, id)[0].job, e.at), e.at);
      }
    case _ =>
  }

  lemma FailureCounts(d: Dispatcher, j: Job, now: int)
    ensures var u, r := IncrementAttempts(j), MarkComplete(d, j.id);
            MarkFailed(d, j, now).0 == if CanRetry(u) then Enqueue(r, u, now).0 else r
  {
    hide Enqueue, CanRetry;
  }

  /** Over every run the enqueued, rejected and duplicate counters together have moved by the
      number of puts attempted, and the dequeued counter by the number of hand-outs. */
  lemma {:induction false} CountersAreRight(s: System, run: seq<Event>)
    requires Runs(s, run)
    ensures PutsCounted(After(s, run).d) == PutsCounted(s.d) + Attempted(s, run)
    ensures After(s, run).d.dequeued == s.d.dequeued + HandOuts(run)
    decreases |run|
  {
    hide Step, Enabled, Candidate;
    if run != [] {
      CountersStep(s, run[0]);
      CountersAreRight(Step(s, run[0]), run[1..]);
    }
  }

  // ---- what the dead letters hold ----------------------------------------------------

  /** Row ids are below the next one, and no two rows share one. */
  ghost predicate RowIdsFresh(l: DeadLetters) {
    && (forall e | e in l.rows :: e.rowId < l.nextId)
    && (forall i, k | 0 <= i < k < |l.rows| :: l.rows[i].rowId != l.rows[k].rowId)
  }

  lemma {:induction false} WithoutKeepsRowIds(rows: seq<Entry>, id: string)
    requires forall i, k | 0 <= i < k < |rows| :: rows[i].rowId != rows[k].rowId
    ensures var t := WithoutId(rows, id);
            forall i, k | 0 <= i < k < |t| :: t[i].rowId != t[k].rowId
  {
    if rows != [] {
      WithoutKeepsRowIds(rows[1..], id);
      WithIdIff(rows[1..], id);
      if rows[0].job.id != id {
        var out := WithoutId(rows[1..], id);
        forall i, k | 0 <= i < k < |[rows[0]] + out|
          ensures ([rows[0]] + out)[i].rowId != ([rows[0]] + out)[k].rowId
        {
          assert out[k - 1] in rows[1..];
          if i > 0 {
            assert out[i - 1].rowId != out[k - 1].rowId;
          }
        }
      }
    }
  }

  lemma DeleteKeepsRowIds(l: DeadLetters, id: string)
    requires RowIdsFresh(l)
    ensures RowIdsFresh(DeleteEntry(l, id).0)
  {
    hide WithId, WithoutId;
    WithoutKeepsRowIds(l.rows, id);
    WithIdIff(l.rows, id);
  }

  lemma StepKeepsRowIds(s: System, e: Event)
    requires Enabled(s, e) && RowIdsFresh(s.l)
    ensures RowIdsFresh(Step(s, e).l)
  {
    match e.what
    case Fail(j, error) => AddKeepsRowIds(s.l, j, error, e.at);
    case Revive(id) =>
      DeleteKeepsRowIds(s.l, id);
      hide Enqueue, DeleteEntry, WithId;
    case Purge(id) => DeleteKeepsRowIds(s.l, id);
    case _ =>
  }

  lemma AddKeepsRowIds(l: DeadLetters, j: Job, error: string, now: int)
    requires RowIdsFresh(l)
    ensures RowIdsFresh(AddEntry(l, j, error, now))
  {
    assert forall i | 0 <= i < |l.rows| :: l.rows[i] in l.rows;
  }

  lemma {:induction false} RowIdsStayFresh(s: System, run: seq<Event>)
    requires Runs(s, run) && RowIdsFresh(s.l)
    ensures RowIdsFresh(After(s, run).l)
    decreases |run|
  {
    hide Step, Enabled, RowIdsFresh;
    if run != [] {
      StepKeepsRowIds(s, run[0]);
      RowIdsStayFresh(Step(s, run[0]), run[1..]);
    }
  }

  /** A failure that is neither retried nor lost leaves one row more: the job as it was handed
      out, without the attempt that failed, its error and the time, under a row id of its own. */
  lemma DeadLetteredAsItFailed(s: System, run: seq<Event>, fail: Event)
    requires Runs(s, run) && RowIdsFresh(s.l) && Enabled(After(s, run), fail) && fail.what.Fail?
    ensures var t := After(s, run);
            var u, j := Step(t, fail), fail.what.job;
            if MarkFailed(t.d, j, fail.at).1 != DeadLettered then u.l == t.l
            else
              && |u.l.rows| == |t.l.rows| + 1 && u.l.rows[..|t.l.rows|] == t.l.rows
              && u.l.added == t.l.added + 1
              && var e := u.l.rows[|t.l.rows|];
                 && e.job == j && e.error == fail.what.error && e.at == fail.at
                 && forall x | x in t.l.rows :: x.rowId != e.rowId
  {
    RowIdsStayFresh(s, run);
    hide MarkFailed, Runs, After;
  }
}
