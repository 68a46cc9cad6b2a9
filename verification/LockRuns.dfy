/** Every interleaving of tasks that take chat and session locks and of cleanups that run
    beside them. A step is one section that no other task can interrupt. */
module LockRuns {
  import opened Locks

  /** Where a task stands in acquire_chat_lock or acquire_session_lock. Between Holding and
      the end of Inside it owns the lock; the body runs in Inside; in Leaving the lock is
      released and the entry not yet unregistered. */
  datatype Phase = Waiting | Holding | Inside | Leaving | Done | TimedOut

  /** One use of the context manager. `since` is the acquisition time its entry
      was registered with. */
  datatype Visit = Visit(key: Key, lockId: string, timeout: int, phase: Phase, since: int)

  /** `cleaners` are cleanups under way, each with the expired ids it has yet to remove;
      `swept` remembers the ids some cleanup has removed. */
  datatype World = World(
    t: Tables,
    visits: map<nat, Visit>,
    cleaners: map<nat, seq<string>>,
    swept: set<string>,
    clock: int
  )

  datatype Step =
    | Begin(v: nat, key: Key, lockId: string, timeout: int)
    | Acquire(v: nat)
    | GiveUp(v: nat)
    | Enter(v: nat, at: int)
    | Release(v: nat)
    | Forget(v: nat)
    | Snapshot(c: nat, ids: seq<string>)
    | SweepOne(c: nat)
    | Tick(now: int)

  ghost predicate InPhase(w: World, v: nat, p: Phase) {
    v in w.visits && w.visits[v].phase == p
  }

  /** A lock id is fresh when a visit begins, a lock is acquired only when it is free, and a
      task with no time to wait gives up only when the lock is taken. The time written into
      an entry was read at or before its registration. */
  ghost predicate Enabled(w: World, a: Step) {
    match a
    case Begin(v, _, lockId, _) =>
      v !in w.visits && forall u | u in w.visits :: w.visits[u].lockId != lockId
    case Acquire(v) =>
      InPhase(w, v, Waiting) && w.visits[v].key in w.t.locks && !w.t.locks[w.visits[v].key]
    case GiveUp(v) =>
      && InPhase(w, v, Waiting)
      && (w.visits[v].timeout > 0 || (w.visits[v].key in w.t.locks && w.t.locks[w.visits[v].key]))
    case Enter(v, at) => InPhase(w, v, Holding) && at <= w.clock
    case Release(v) => InPhase(w, v, Inside)
    case Forget(v) => InPhase(w, v, Leaving)
    case Snapshot(c, ids) =>
      && c !in w.cleaners
      && forall id :: id in ids <==> id in w.t.info && Expired(w.t.info[id], w.clock)
    case SweepOne(c) => c in w.cleaners && w.cleaners[c] != []
    case Tick(now) => w.clock <= now
  }

  ghost function Move(w: World, v: nat, p: Phase): map<nat, Visit>
    requires v in w.visits
  {
    w.visits[v := w.visits[v].(phase := p)]
  }

  ghost function Next(w: World, a: Step): World
    requires Enabled(w, a)
  {
    match a
    case Begin(v, key, lockId, timeout) =>
      w.(t := GetOrCreate(w.t, key), visits := w.visits[v := Visit(key, lockId, timeout, Waiting, w.clock)])
    case Acquire(v) =>
      w.(t := w.t.(locks := w.t.locks[w.visits[v].key := true]), visits := Move(w, v, Holding))
    case GiveUp(v) =>
      w.(visits := Move(w, v, TimedOut))
    case Enter(v, at) =>
      var u := w.visits[v];
      w.(t := Register(w.t, LockInfo(u.lockId, u.key, at, u.timeout)),
         visits := w.visits[v := u.(phase := Inside, since := at)])
    case Release(v) =>
      w.(t := w.t.(locks := w.t.locks[w.visits[v].key := false]), visits := Move(w, v, Leaving))
    case Forget(v) =>
      w.(t := Unregister(w.t, w.visits[v].lockId), visits := Move(w, v, Done))
    case Snapshot(c, ids) =>
      w.(cleaners := w.cleaners[c := ids])
    case SweepOne(c) =>
      var id := w.cleaners[c][0];
      w.(t := Unregister(w.t, id), cleaners := w.cleaners[c := w.cleaners[c][1..]], swept := w.swept + {id})
    case Tick(now) =>
      w.(clock := now)
  }

  ghost predicate Runs(w: World, run: seq<Step>)
    decreases |run|
  {
    run == [] || (Enabled(w, run[0]) && Runs(Next(w, run[0]), run[1..]))
  }

  ghost function After(w: World, run: seq<Step>): World
    requires Runs(w, run)
    decreases |run|
  {
    if run == [] then w else After(Next(w, run[0]), run[1..])
  }

  function Idle(now: int): World {
    World(Tables(map[], map[], map[]), map[], map[], {}, now)
  }

  // ---- the invariant -------------------------------------------------------------

  /** The visit owns the lock of its key. */
  ghost predicate Owns(w: World, v: nat, key: Key) {
    v in w.visits && w.visits[v].key == key && (w.visits[v].phase == Holding || w.visits[v].phase == Inside)
  }

  ghost predicate Exclusive(w: World) {
    && (forall v | v in w.visits :: w.visits[v].key in w.t.locks)
    && (forall v, key | Owns(w, v, key) :: key in w.t.locks && w.t.locks[key])
    && (forall u, v, key | Owns(w, u, key) && Owns(w, v, key) :: u == v)
    && (forall key | key in w.t.locks && w.t.locks[key] :: exists v :: Owns(w, v, key))
  }

  ghost predicate DistinctIds(w: World) {
    forall u, v | u in w.visits && v in w.visits && w.visits[u].lockId == w.visits[v].lockId :: u == v
  }

  /** The visit that registered this entry and has not taken it back. */
  ghost predicate Registrant(w: World, v: nat, id: string) {
    && v in w.visits && w.visits[v].lockId == id
    && (w.visits[v].phase == Inside || w.visits[v].phase == Leaving)
  }

  ghost predicate Listed(w: World) {
    && w.t.holders.Keys == w.t.locks.Keys
    && IndexAgrees(w.t)
    && (forall id | id in w.t.info :: exists v :: Registrant(w, v, id))
    && (forall v, id | Registrant(w, v, id) && id in w.t.info ::
          var u := w.visits[v]; w.t.info[id] == LockInfo(id, u.key, u.since, u.timeout))
  }

  /** The id belongs to a visit that was registered and has been so for too long. */
  ghost predicate Overdue(w: World, v: nat, id: string) {
    && v in w.visits && w.visits[v].lockId == id
    && w.visits[v].phase in {Inside, Leaving, Done}
    && w.clock > w.visits[v].since + w.visits[v].timeout
  }

  ghost predicate SweptOverdue(w: World) {
    && (forall c, id | c in w.cleaners && id in w.cleaners[c] :: exists v :: Overdue(w, v, id))
    && (forall id | id in w.swept :: exists v :: Overdue(w, v, id))
    && (forall v | InPhase(w, v, Inside) :: w.visits[v].lockId in w.t.info || w.visits[v].lockId in w.swept)
  }

  ghost predicate Inv(w: World) {
    Exclusive(w) && DistinctIds(w) && Listed(w) && SweptOverdue(w)
  }

  lemma ExclusiveKept(w: World, a: Step)
    requires Exclusive(w) && Enabled(w, a)
    ensures Exclusive(Next(w, a))
  {
    KeysStep(w, a);
    LocksStep(w, a);
    hide Next, Enabled, Owns;
    var x := Next(w, a);
    forall v, key | Owns(x, v, key)
      ensures key in x.t.locks && x.t.locks[key]
    {
      OwnedIsLocked(w, a, v, key);
    }
    forall u, v, key | Owns(x, u, key) && Owns(x, v, key)
      ensures u == v
    {
      OwnersStep(w, a, u, key);
      OwnersStep(w, a, v, key);
    }
    forall key | key in x.t.locks && x.t.locks[key]
      ensures exists v :: Owns(x, v, key)
    {
      LockedIsOwned(w, a, key);
    }
  }

  lemma OwnedIsLocked(w: World, a: Step, v: nat, key: Key)
    requires Exclusive(w) && Enabled(w, a) && Owns(Next(w, a), v, key)
    ensures Locked(Next(w, a).t, key)
  {
    LocksStep(w, a);
    hide Next, Enabled, Owns;
    OwnersStep(w, a, v, key);
    if a.Release? {
      OwnersStep(w, a, a.v, w.visits[a.v].key);
    }
  }

  lemma LockedIsOwned(w: World, a: Step, key: Key)
    requires Exclusive(w) && Enabled(w, a) && Locked(Next(w, a).t, key)
    ensures exists v :: Owns(Next(w, a), v, key)
  {
    LocksStep(w, a);
    hide Next, Enabled, Owns;
    if a.Acquire? && w.visits[a.v].key == key {
      OwnersStep(w, a, a.v, key);
    } else {
      var v :| Owns(w, v, key);
      OwnersStep(w, a, v, key);
    }
  }

  /** Which visits own a key after a step. */
  lemma OwnersStep(w: World, a: Step, v: nat, key: Key)
    requires Enabled(w, a)
    ensures a.Acquire? || a.Release? ==> a.v in w.visits
    ensures a == Release(v) ==> (Owns(w, v, key) <==> key == w.visits[v].key)
    ensures Owns(Next(w, a), v, key)
       <==> (Owns(w, v, key) && a != Release(v)) || (a == Acquire(v) && w.visits[v].key == key)
  {
    hide Register, Unregister, GetOrCreate;
  }

  /** Which keys the visits have after a step. */
  lemma KeysStep(w: World, a: Step)
    requires Enabled(w, a)
    ensures forall v | v in Next(w, a).visits ::
              if a.Begin? && v == a.v then Next(w, a).visits[v].key == a.key
              else v in w.visits && Next(w, a).visits[v].key == w.visits[v].key
  {
    hide Register, Unregister, GetOrCreate;
  }

  /** Which locks are locked after a step. */
  lemma LocksStep(w: World, a: Step)
    requires Enabled(w, a)
    ensures a.Acquire? || a.Release? ==> a.v in w.visits
    ensures a.Acquire? ==> w.visits[a.v].key in w.t.locks && !w.t.locks[w.visits[a.v].key]
    ensures Next(w, a).t.locks ==
              match a
              case Begin(_, key, _, _) => (if key in w.t.locks then w.t.locks else w.t.locks[key := false])
              case Acquire(v) => w.t.locks[w.visits[v].key := true]
              case Release(v) => w.t.locks[w.visits[v].key := false]
              case _ => w.t.locks
  {
  }

  lemma IdsKept(w: World, a: Step)
    requires DistinctIds(w) && Enabled(w, a)
    ensures DistinctIds(Next(w, a))
  {
  }

  lemma IndexKept(w: World, a: Step)
    requires DistinctIds(w) && Listed(w) && Enabled(w, a)
    requires forall v | v in w.visits :: w.visits[v].key in w.t.locks
    ensures IndexAgrees(Next(w, a).t) && Next(w, a).t.holders.Keys == Next(w, a).t.locks.Keys
  {
    hide IndexAgrees, Register, Unregister, GetOrCreate;
    match a
    case Begin(_, key, _, _) => CreateKeepsIndex(w.t, key);
    case Enter(v, at) =>
      var u := w.visits[v];
      assert forall r | Registrant(w, r, u.lockId) :: r == v;
      assert u.lockId !in w.t.info;
      RegisterKeepsIndex(w.t, LockInfo(u.lockId, u.key, at, u.timeout));
    case Forget(v) => UnregisterKeepsIndex(w.t, w.visits[v].lockId);
    case SweepOne(c) => UnregisterKeepsIndex(w.t, w.cleaners[c][0]);
    case _ => SameIndex(w.t, Next(w, a).t);
  }

  lemma SameIndex(t: Tables, u: Tables)
    requires IndexAgrees(t) && t.info == u.info && t.holders == u.holders
    ensures IndexAgrees(u)
  {
  }

  /** What a step does to the registered entries. */
  lemma InfoStep(w: World, a: Step)
    requires Enabled(w, a)
    ensures var x := Next(w, a);
            match a
            case Enter(v, at) =>
              x.t.info == w.t.info[w.visits[v].lockId
                := LockInfo(w.visits[v].lockId, w.visits[v].key, at, w.visits[v].timeout)]
            case Forget(v) => x.t.info == w.t.info - {w.visits[v].lockId}
            case SweepOne(c) => x.t.info == w.t.info - {w.cleaners[c][0]}
            case _ => x.t.info == w.t.info
  {
  }

  lemma RegistrantsKept(w: World, a: Step)
    requires Listed(w) && Enabled(w, a)
    ensures forall id | id in Next(w, a).t.info :: exists v :: Registrant(Next(w, a), v, id)
  {
    hide IndexAgrees, Register, Unregister, GetOrCreate;
    InfoStep(w, a);
    var x := Next(w, a);
    forall id | id in x.t.info
      ensures exists v :: Registrant(x, v, id)
    {
      if a.Enter? && w.visits[a.v].lockId == id {
        assert Registrant(x, a.v, id);
      } else {
        assert id in w.t.info;
        var v :| Registrant(w, v, id);
        assert Registrant(x, v, id);
      }
    }
  }

  lemma EntriesKept(w: World, a: Step, v: nat, id: string)
    requires DistinctIds(w) && Listed(w) && Enabled(w, a)
    requires Registrant(Next(w, a), v, id) && id in Next(w, a).t.info
    ensures var x := Next(w, a); var u := x.visits[v]; x.t.info[id] == LockInfo(id, u.key, u.since, u.timeout)
  {
    hide IndexAgrees, Register, Unregister, GetOrCreate;
    InfoStep(w, a);
    if !(a.Enter? && v == a.v) {
      assert Registrant(w, v, id);
    }
  }

  lemma ListedKept(w: World, a: Step)
    requires DistinctIds(w) && Listed(w) && Enabled(w, a)
    requires forall v | v in w.visits :: w.visits[v].key in w.t.locks
    ensures Listed(Next(w, a))
  {
    hide IndexAgrees, Next, Enabled, DistinctIds;
    IndexKept(w, a);
    RegistrantsKept(w, a);
    forall v, id | Registrant(Next(w, a), v, id) && id in Next(w, a).t.info
      ensures var x := Next(w, a); var u := x.visits[v]; x.t.info[id] == LockInfo(id, u.key, u.since, u.timeout)
    {
      EntriesKept(w, a, v, id);
    }
  }

  lemma OverdueStays(w: World, a: Step, v: nat, id: string)
    requires Enabled(w, a) && Overdue(w, v, id)
    ensures Overdue(Next(w, a), v, id)
  {
    hide Register, Unregister, GetOrCreate;
  }

  lemma SnapshotIsOverdue(w: World, a: Step, id: string)
    requires Listed(w) && Enabled(w, a) && a.Snapshot? && id in a.ids
    ensures exists v :: Overdue(w, v, id)
  {
    hide IndexAgrees;
    var v :| Registrant(w, v, id);
    assert Overdue(w, v, id);
  }

  lemma SweptKept(w: World, a: Step)
    requires Inv(w) && Enabled(w, a)
    ensures SweptOverdue(Next(w, a))
  {
    hide IndexAgrees, Register, Unregister, GetOrCreate, Exclusive, Listed, Overdue;
    InfoStep(w, a);
    var x := Next(w, a);
    forall c, id | c in x.cleaners && id in x.cleaners[c]
      ensures exists v :: Overdue(x, v, id)
    {
      if a.Snapshot? && c == a.c {
        SnapshotIsOverdue(w, a, id);
      } else {
        assert id in w.cleaners[c];
      }
      var v :| Overdue(w, v, id);
      OverdueStays(w, a, v, id);
    }
    forall id | id in x.swept
      ensures exists v :: Overdue(x, v, id)
    {
      if id !in w.swept {
        assert id in w.cleaners[a.c];
      }
      var v :| Overdue(w, v, id);
      OverdueStays(w, a, v, id);
    }
    forall v | InPhase(x, v, Inside)
      ensures x.visits[v].lockId in x.t.info || x.visits[v].lockId in x.swept
    {
      if !(a.Enter? && v == a.v) {
        assert InPhase(w, v, Inside);
      }
    }
  }

  lemma {:induction false} RunKeeps(w: World, run: seq<Step>)
    requires Inv(w) && Runs(w, run)
    ensures Inv(After(w, run))
    decreases |run|
  {
    if run != [] {
      ExclusiveKept(w, run[0]);
      IdsKept(w, run[0]);
      ListedKept(w, run[0]);
      SweptKept(w, run[0]);
      RunKeeps(Next(w, run[0]), run[1..]);
    }
  }

  // ---- what it gives ---------------------------------------------------------------

  /** In every interleaving at most one task is between acquire and release of a key, the
      lock object is locked exactly then, and the two indexes agree. */
  lemma MutualExclusion(now: int, run: seq<Step>, key: Key, u: nat, v: nat)
    requires Runs(Idle(now), run)
    ensures var w := After(Idle(now), run);
            && (Owns(w, u, key) && Owns(w, v, key) ==> u == v)
            && ((key in w.t.locks && w.t.locks[key]) <==> exists x :: Owns(w, x, key))
            && IndexAgrees(w.t) && w.t.holders.Keys == w.t.locks.Keys
  {
    RunKeeps(Idle(now), run);
  }

  /** Releasing never meets an unlocked lock, which the lock object would treat as an error. */
  lemma ReleaseNeverFails(now: int, run: seq<Step>, v: nat)
    requires Runs(Idle(now), run) && Enabled(After(Idle(now), run), Release(v))
    ensures var w := After(Idle(now), run); w.visits[v].key in w.t.locks && w.t.locks[w.visits[v].key]
  {
    RunKeeps(Idle(now), run);
    var w := After(Idle(now), run);
    assert Owns(w, v, w.visits[v].key);
  }

  /** A cleanup, at whatever point it runs, neither frees a lock nor moves a task. */
  lemma CleanupFreesNothing(w: World, a: Step)
    requires Enabled(w, a) && (a.Snapshot? || a.SweepOne?)
    ensures Next(w, a).t.locks == w.t.locks && Next(w, a).visits == w.visits && Next(w, a).clock == w.clock
  {
  }

  /** The entry of a visit that has registered goes, or is on the list of this cleanup. */
  ghost predicate Doomed(w: World, c: nat, id: string) {
    && c in w.cleaners && (id in w.cleaners[c] || id !in w.t.info)
    && exists v :: v in w.visits && w.visits[v].lockId == id && w.visits[v].phase in {Inside, Leaving, Done}
  }

  lemma DoomedStays(w: World, a: Step, c: nat, id: string)
    requires DistinctIds(w) && Enabled(w, a) && Doomed(w, c, id)
    ensures Doomed(Next(w, a), c, id)
  {
    hide IndexAgrees, Register, Unregister, GetOrCreate;
    InfoStep(w, a);
    var v :| v in w.visits && w.visits[v].lockId == id && w.visits[v].phase in {Inside, Leaving, Done};
    var x := Next(w, a);
    assert v in x.visits && x.visits[v].lockId == id && x.visits[v].phase in {Inside, Leaving, Done};
  }

  lemma {:induction false} DoomedGoes(w: World, run: seq<Step>, c: nat, id: string)
    requires DistinctIds(w) && Runs(w, run) && Doomed(w, c, id)
    ensures Doomed(After(w, run), c, id)
    decreases |run|
  {
    hide Next, Enabled, Doomed, DistinctIds;
    if run != [] {
      IdsKept(w, run[0]);
      DoomedStays(w, run[0], c, id);
      DoomedGoes(Next(w, run[0]), run[1..], c, id);
    }
  }

  /** Once a cleanup has come to its end, every entry that had outlived its timeout when it
      began is gone, whatever the tasks did meanwhile. */
  lemma CleanupRemovesOverdue(now: int, before: seq<Step>, a: Step, run: seq<Step>, id: string)
    requires Runs(Idle(now), before) && Enabled(After(Idle(now), before), a) && a.Snapshot?
    requires Runs(Next(After(Idle(now), before), a), run)
    ensures var w := After(Idle(now), before);
            var x := After(Next(w, a), run);
            && id in w.t.info && w.clock > w.t.info[id].acquiredAt + w.t.info[id].timeout
            && a.c in x.cleaners && x.cleaners[a.c] == []
            ==> id !in x.t.info
  {
    var w := After(Idle(now), before);
    RunKeeps(Idle(now), before);
    if id in w.t.info && w.clock > w.t.info[id].acquiredAt + w.t.info[id].timeout {
      DoomedAtOnce(w, a, id);
      IdsKept(w, a);
      hide Next, Enabled, Runs, Inv;
      DoomedGoes(Next(w, a), run, a.c, id);
    }
  }

  lemma DoomedAtOnce(w: World, a: Step, id: string)
    requires Listed(w) && Enabled(w, a) && a.Snapshot?
    requires id in w.t.info && w.clock > w.t.info[id].acquiredAt + w.t.info[id].timeout
    ensures Doomed(Next(w, a), a.c, id)
  {
    hide IndexAgrees;
    var v :| Registrant(w, v, id);
    assert v in Next(w, a).visits && Next(w, a).visits[v] == w.visits[v];
  }

  predicate IsCleanup(a: Step) {
    a.Snapshot? || a.SweepOne?
  }

  function WithoutCleanup(run: seq<Step>): seq<Step> {
    if run == [] then []
    else (if IsCleanup(run[0]) then [] else [run[0]]) + WithoutCleanup(run[1..])
  }

  /** What the tasks can notice of each other. */
  ghost predicate SameLocks(w: World, x: World) {
    w.t.locks == x.t.locks && w.visits == x.visits && w.clock == x.clock
  }

  lemma SameStep(w: World, x: World, a: Step)
    requires SameLocks(w, x) && Enabled(w, a) && !IsCleanup(a)
    ensures Enabled(x, a) && SameLocks(Next(w, a), Next(x, a))
  {
  }

  /** No task ever notices a cleanup: any run goes through without its cleanups just as well,
      with the same locks and every visit in the same phase. */
  lemma {:induction false} CleanupIsInvisible(w: World, x: World, run: seq<Step>)
    requires Runs(w, run) && SameLocks(w, x)
    ensures Runs(x, WithoutCleanup(run)) && SameLocks(After(w, run), After(x, WithoutCleanup(run)))
    decreases |run|
  {
    hide Next, Enabled;
    if run != [] {
      if IsCleanup(run[0]) {
        CleanupFreesNothing(w, run[0]);
        assert SameLocks(Next(w, run[0]), x);
        CleanupIsInvisible(Next(w, run[0]), x, run[1..]);
        assert WithoutCleanup(run) == WithoutCleanup(run[1..]);
      } else {
        SameStep(w, x, run[0]);
        CleanupIsInvisible(Next(w, run[0]), Next(x, run[0]), run[1..]);
        assert WithoutCleanup(run)[1..] == WithoutCleanup(run[1..]);
      }
    }
  }

  /** In every interleaving a lock is reported as locked exactly while some visit owns it. */
  lemma LockedIffOwned(now: int, run: seq<Step>, key: Key)
    requires Runs(Idle(now), run)
    ensures var w := After(Idle(now), run);
            Locked(w.t, key)
            <==> exists v :: v in w.visits && w.visits[v].key == key && w.visits[v].phase in {Holding, Inside}
  {
    RunKeeps(Idle(now), run);
    var w := After(Idle(now), run);
    if v :| v in w.visits && w.visits[v].key == key && w.visits[v].phase in {Holding, Inside} {
      assert Owns(w, v, key);
    }
    if Locked(w.t, key) {
      var v :| Owns(w, v, key);
      assert v in w.visits && w.visits[v].key == key && w.visits[v].phase in {Holding, Inside};
    }
  }

  /** A body that is still within its timeout is always listed, whatever cleanups ran. */
  lemma ListedUntilExpiry(now: int, run: seq<Step>, v: nat)
    requires Runs(Idle(now), run)
    ensures var w := After(Idle(now), run);
            && InPhase(w, v, Inside)
            && w.clock <= w.visits[v].since + w.visits[v].timeout
            ==>
            && w.visits[v].lockId in w.t.info
            && w.visits[v].key in w.t.holders
            && w.visits[v].lockId in w.t.holders[w.visits[v].key]
  {
    RunKeeps(Idle(now), run);
    var w := After(Idle(now), run);
    if InPhase(w, v, Inside) {
      var id := w.visits[v].lockId;
      if id in w.swept {
        var u :| Overdue(w, u, id);
        assert u == v;
      }
      if id in w.t.info {
        assert Registrant(w, v, id);
      }
    }
  }

  /** Once every task has finished nothing is locked and both indexes are empty. */
  lemma QuietWhenDone(now: int, run: seq<Step>)
    requires Runs(Idle(now), run)
    requires forall v | v in After(Idle(now), run).visits ::
               After(Idle(now), run).visits[v].phase in {Done, TimedOut}
    ensures var w := After(Idle(now), run);
            && w.t.info == map[]
            && (forall key | key in w.t.holders :: w.t.holders[key] == {})
            && (forall key | key in w.t.locks :: !w.t.locks[key])
  {
    RunKeeps(Idle(now), run);
    var w := After(Idle(now), run);
    assert forall v, id :: !Registrant(w, v, id);
    assert forall v, key :: !Owns(w, v, key);
    assert w.t.info.Keys == {};
  }

  /** The visit of `key` with id `first` has released the lock and is still listed, and so is
      another visit of the key, with id `second`. */
  ghost predicate Overlap(w: World, key: Key, u: nat, v: nat, first: string, second: string) {
    && u in w.visits && w.visits[u].key == key && w.visits[u].lockId == first
    && v in w.visits && w.visits[v].key == key && w.visits[v].lockId == second
    && first in w.t.info && second in w.t.info
    && w.visits[u].phase == Leaving && (w.visits[v].phase == Inside || w.visits[v].phase == Leaving)
  }

  ghost predicate BothListed(w: World, key: Key, id1: string, id2: string) {
    key in w.t.holders && id1 in w.t.holders[key] && id2 in w.t.holders[key]
  }

  /** Two ids are listed for a key, which has one owner at most, exactly when they belong to
      two visits of it of which one has released the lock and is still listed. */
  lemma HoldersOvercountIff(now: int, run: seq<Step>, key: Key, id1: string, id2: string)
    requires Runs(Idle(now), run) && id1 != id2
    ensures var w := After(Idle(now), run);
            BothListed(w, key, id1, id2)
            <==> exists u, v :: Overlap(w, key, u, v, id1, id2) || Overlap(w, key, u, v, id2, id1)
  {
    RunKeeps(Idle(now), run);
    var w := After(Idle(now), run);
    hide Inv, After, Runs, Overlap, BothListed;
    if BothListed(w, key, id1, id2) {
      TwoListed(w, key, id1, id2);
    }
    if u, v :| Overlap(w, key, u, v, id1, id2) || Overlap(w, key, u, v, id2, id1) {
      OverlapIsListed(w, key, u, v, id1, id2);
      OverlapIsListed(w, key, u, v, id2, id1);
    }
  }

  lemma OverlapIsListed(w: World, key: Key, u: nat, v: nat, first: string, second: string)
    requires Inv(w)
    ensures Overlap(w, key, u, v, first, second)
        ==> BothListed(w, key, first, second) && BothListed(w, key, second, first)
  {
    if Overlap(w, key, u, v, first, second) {
      assert Registrant(w, u, first) && Registrant(w, v, second);
    }
  }

  lemma TwoListed(w: World, key: Key, id1: string, id2: string)
    requires Inv(w)
    ensures id1 != id2 && BothListed(w, key, id1, id2)
        ==> exists u, v :: Overlap(w, key, u, v, id1, id2) || Overlap(w, key, u, v, id2, id1)
  {
    if id1 != id2 && BothListed(w, key, id1, id2) {
      var u :| Registrant(w, u, id1);
      var v :| Registrant(w, v, id2);
      assert w.visits[u].key == w.visits[v].key == key;
      if w.visits[u].phase == Leaving {
        assert Overlap(w, key, u, v, id1, id2);
      } else {
        assert Owns(w, u, key);
        assert !Owns(w, v, key);
        assert Overlap(w, key, v, u, id2, id1);
      }
    }
  }

  /** And it does happen: the second task is inside while the first is still listed. */
  lemma HoldersCanOvercount(key: Key)
    ensures exists run: seq<Step> :: Runs(Idle(0), run)
              && key in After(Idle(0), run).t.holders && After(Idle(0), run).t.holders[key] == {"a", "b"}
  {
    var first, second := FirstRun(key), [Enter(0, 0), Release(0), Acquire(1), Enter(1, 0)];
    FirstAcquires(key);
    SecondEnters(key, After(Idle(0), first));
    Append(Idle(0), first, second);
  }

  function FirstRun(key: Key): seq<Step> {
    [Begin(0, key, "a", 1), Begin(1, key, "b", 1), Acquire(0)]
  }

  lemma FirstAcquires(key: Key)
    ensures Runs(Idle(0), FirstRun(key))
    ensures After(Idle(0), FirstRun(key))
         == World(Tables(map[key := true], map[], map[key := {}]),
                  map[0 := Visit(key, "a", 1, Holding, 0), 1 := Visit(key, "b", 1, Waiting, 0)], map[], {}, 0)
  {
    var run := FirstRun(key);
    var w1 := Next(Idle(0), run[0]);
    assert w1.visits == map[0 := Visit(key, "a", 1, Waiting, 0)];
    var w2 := Next(w1, run[1]);
    var w3 := Next(w2, run[2]);
    Chain(w2, run[2..], w3);
    Chain(w1, run[1..], w2);
    Chain(Idle(0), run, w1);
  }

  lemma {:induction false} Append(w: World, r: seq<Step>, r': seq<Step>)
    requires Runs(w, r) && Runs(After(w, r), r')
    ensures Runs(w, r + r') && After(w, r + r') == After(After(w, r), r')
    decreases |r|
  {
    hide Next, Enabled;
    if r == [] {
      assert r + r' == r';
    } else {
      Append(Next(w, r[0]), r[1..], r');
      assert (r + r')[1..] == r[1..] + r';
    }
  }

  lemma SecondEnters(key: Key, w: World)
    requires w == World(Tables(map[key := true], map[], map[key := {}]),
                        map[0 := Visit(key, "a", 1, Holding, 0), 1 := Visit(key, "b", 1, Waiting, 0)], map[], {}, 0)
    ensures var run := [Enter(0, 0), Release(0), Acquire(1), Enter(1, 0)];
            && Runs(w, run)
            && key in After(w, run).t.holders && After(w, run).t.holders[key] == {"a", "b"}
  {
    var run := [Enter(0, 0), Release(0), Acquire(1), Enter(1, 0)];
    var w4 := Next(w, Enter(0, 0));
    assert w4.t.holders[key] == {"a"};
    var w5 := Next(w4, Release(0));
    var w6 := Next(w5, Acquire(1));
    var w7 := Next(w6, Enter(1, 0));
    assert w7.t.holders[key] == {"a", "b"};
    Chain(w6, run[3..], w7);
    Chain(w5, run[2..], w6);
    Chain(w4, run[1..], w5);
    Chain(w, run, w4);
  }

  lemma Chain(w: World, run: seq<Step>, x: World)
    requires run != [] && Enabled(w, run[0]) && x == Next(w, run[0]) && Runs(x, run[1..])
    ensures Runs(w, run) && After(w, run) == After(x, run[1..])
  {
  }
}
