/** The lock manager (app/queue/locks.py): its tables, and the object that holds them. */
module Locks {

  datatype Kind = Chat | Session

  /** The two lock dictionaries are one map here, told apart by the kind in the key. */
  datatype Key = Key(kind: Kind, id: string)

  datatype LockInfo = LockInfo(lockId: string, key: Key, acquiredAt: int, timeout: int)

  /** `locks` says of every lock ever created whether it is locked. */
  datatype Tables = Tables(
    locks: map<Key, bool>,
    info: map<string, LockInfo>,
    holders: map<Key, set<string>>
  )

  predicate Expired(i: LockInfo, now: int) {
    now > i.acquiredAt + i.timeout
  }

  function GetOrCreate(t: Tables, key: Key): Tables {
    if key in t.locks then t
    else t.(locks := t.locks[key := false], holders := t.holders[key := {}])
  }

  function Register(t: Tables, i: LockInfo): Tables {
    t.(info := t.info[i.lockId := i],
       holders := if i.key in t.holders then t.holders[i.key := t.holders[i.key] + {i.lockId}] else t.holders)
  }

  function Unregister(t: Tables, lockId: string): Tables {
    if lockId !in t.info then t
    else
      var key := t.info[lockId].key;
      t.(info := t.info - {lockId},
         holders := if key in t.holders then t.holders[key := t.holders[key] - {lockId}] else t.holders)
  }

  predicate Locked(t: Tables, key: Key) {
    key in t.locks && t.locks[key]
  }

  /** Lists exactly the registered ids, under the key each is registered for. */
  ghost predicate IndexAgrees(t: Tables) {
    && (forall id | id in t.info :: t.info[id].lockId == id && t.info[id].key in t.holders)
    && (forall key | key in t.holders ::
          forall id :: id in t.holders[key] <==> id in t.info && t.info[id].key == key)
  }

  lemma CreateKeepsIndex(t: Tables, key: Key)
    requires IndexAgrees(t) && t.holders.Keys == t.locks.Keys
    ensures var t' := GetOrCreate(t, key);
            && IndexAgrees(t') && t'.info == t.info && t'.holders.Keys == t'.locks.Keys
            && t'.locks.Keys == t.locks.Keys + {key}
  {
  }

  lemma RegisterKeepsIndex(t: Tables, i: LockInfo)
    requires IndexAgrees(t) && i.key in t.holders && i.lockId !in t.info
    ensures var t' := Register(t, i);
            IndexAgrees(t') && t'.locks == t.locks && t'.holders.Keys == t.holders.Keys
  {
  }

  lemma UnregisterKeepsIndex(t: Tables, lockId: string)
    requires IndexAgrees(t)
    ensures var t' := Unregister(t, lockId);
            && IndexAgrees(t') && t'.locks == t.locks && t'.holders.Keys == t.holders.Keys
            && t'.info == t.info - {lockId}
  {
  }

  function OfKind(info: map<string, LockInfo>, ids: set<string>, kind: Kind): set<string> {
    set id | id in ids && id in info && info[id].key.kind == kind
  }

  lemma OfKindRemove(info: map<string, LockInfo>, ids: set<string>, id: string, kind: Kind)
    requires id in ids && id in info
    ensures |OfKind(info, ids, kind)|
         == |OfKind(info, ids - {id}, kind)| + (if info[id].key.kind == kind then 1 else 0)
  {
    if info[id].key.kind == kind {
      assert OfKind(info, ids, kind) == OfKind(info, ids - {id}, kind) + {id};
    } else {
      assert OfKind(info, ids, kind) == OfKind(info, ids - {id}, kind);
    }
  }

  lemma KindsAddUp(info: map<string, LockInfo>)
    ensures |OfKind(info, info.Keys, Chat)| + |OfKind(info, info.Keys, Session)| == |info|
  {
    var c, n := OfKind(info, info.Keys, Chat), OfKind(info, info.Keys, Session);
    assert c + n == info.Keys;
    assert |c + n| == |c| + |n|;
  }

  /** The entries that have not outlived their timeout. */
  function InTime(info: map<string, LockInfo>, now: int): map<string, LockInfo> {
    map id | id in info && now <= info[id].acquiredAt + info[id].timeout :: info[id]
  }

  lemma ExpiredGo(info: map<string, LockInfo>, expired: set<string>, now: int)
    requires forall id :: id in expired <==> id in info && Expired(info[id], now)
    ensures info - expired == InTime(info, now) && |info| == |InTime(info, now)| + |expired|
  {
    assert (info - expired).Keys == InTime(info, now).Keys;
    hide Expired;
    DisjointKeys(info, expired);
  }

  lemma DisjointKeys(info: map<string, LockInfo>, ids: set<string>)
    requires ids <= info.Keys
    ensures |info| == |info - ids| + |ids|
  {
    assert info.Keys == (info - ids).Keys + ids;
    assert |info.Keys| == |(info - ids).Keys| + |ids|;
  }

  class LockManager {
    var locks: map<Key, bool>
    var info: map<string, LockInfo>
    var holders: map<Key, set<string>>

    function View(): Tables
      reads this
    {
      Tables(locks, info, holders)
    }

    constructor ()
      ensures View() == Tables(map[], map[], map[])
    {
      locks, info, holders := map[], map[], map[];
    }

    method GetOrCreateLock(key: Key)
      modifies this
      ensures View() == GetOrCreate(old(View()), key)
    {
      if key !in locks {
        locks := locks[key := false];
        holders := holders[key := {}];
      }
    }

    method RegisterLock(i: LockInfo)
      modifies this
      ensures View() == Register(old(View()), i)
    {
      info := info[i.lockId := i];
      if i.key in holders {
        holders := holders[i.key := holders[i.key] + {i.lockId}];
      }
    }

    method UnregisterLock(lockId: string)
      modifies this
      ensures View() == Unregister(old(View()), lockId)
    {
      if lockId in info {
        var key := info[lockId].key;
        info := info - {lockId};
        if key in holders {
          holders := holders[key := holders[key] - {lockId}];
        }
      }
    }

    /** Run without interference: exactly the expired entries go, no lock is touched, and
        the two indexes still agree. */
    method CleanupExpiredLocks(now: int) returns (count: nat)
      requires IndexAgrees(View())
      modifies this
      ensures IndexAgrees(View())
      ensures locks == old(locks)
      ensures info == InTime(old(info), now)
      ensures count == |old(info)| - |info|
    {
      hide IndexAgrees, InTime;
      var expired := set id | id in info && Expired(info[id], now);
      ExpiredGo(info, expired, now);
      count := UnregisterAll(expired);
    }

    method UnregisterAll(ids: set<string>) returns (count: nat)
      requires IndexAgrees(View()) && ids <= info.Keys
      modifies this
      ensures IndexAgrees(View()) && locks == old(locks)
      ensures info == old(info) - ids && count == |ids|
    {
      hide IndexAgrees, Unregister;
      var todo := ids;
      count := 0;
      while todo != {}
        invariant todo <= ids
        invariant count == |ids| - |todo|
        invariant locks == old(locks)
        invariant info == old(info) - (ids - todo)
        invariant IndexAgrees(View())
        decreases todo
      {
        var id :| id in todo;
        UnregisterKeepsIndex(View(), id);
        UnregisterLock(id);
        todo := todo - {id};
        count := count + 1;
      }
      assert ids - todo == ids;
    }

    /** The counts per kind, and that they add up to the total. */
    method GetLockCount() returns (chats: nat, sessions: nat, total: nat)
      ensures chats == |set id | id in info && info[id].key.kind == Chat|
      ensures sessions == |set id | id in info && info[id].key.kind == Session|
      ensures total == |info| == chats + sessions
    {
      KindsAddUp(info);
      assert OfKind(info, info.Keys, Chat) == set id | id in info && info[id].key.kind == Chat;
      assert OfKind(info, info.Keys, Session) == set id | id in info && info[id].key.kind == Session;
      chats, sessions, total := 0, 0, |info|;
      var todo := info.Keys;
      while todo != {}
        invariant todo <= info.Keys
        invariant chats + |OfKind(info, todo, Chat)| == |OfKind(info, info.Keys, Chat)|
        invariant sessions + |OfKind(info, todo, Session)| == |OfKind(info, info.Keys, Session)|
        decreases todo
      {
        var id :| id in todo;
        OfKindRemove(info, todo, id, Chat);
        OfKindRemove(info, todo, id, Session);
        todo := todo - {id};
        if info[id].key.kind == Chat {
          chats := chats + 1;
        } else {
          sessions := sessions + 1;
        }
      }
    }

    method IsLocked(key: Key) returns (b: bool)
      ensures b <==> Locked(View(), key)
    {
      b := key in locks && locks[key];
    }
  }
}
