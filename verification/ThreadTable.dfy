/** The table of conversation threads (app/memory/thread_store.py, app/memory/thread_state.py)
    on values, and that its activity flags behave as a map from chats to threads. */
module ThreadTable {
  import opened Wrappers
  import opened Whitespace

  datatype Thread = Thread(publicId: string, chat: string, isActive: bool, lastActive: Option<int>, updatedAt: int)

  /** One call. `newId` is the identifier drawn for a row that may have to be added.
      `written` are the identifiers whose flag the session writes when it is assigned: a
      session that already holds the value in its own copy of the row writes nothing. */
  datatype Call =
    | Create(chat: string, newId: string, now: int)
    | Activate(chat: string, ref: string, written: set<string>, now: int)
    | Resolve(chat: string, ref: string, newId: string, written: set<string>, now: int)
    | Close(chat: string, ref: string, written: set<string>, now: int)
    | Cleanup(chat: string, threshold: int, written: set<string>, now: int)

  datatype Reply = Selected(publicId: string) | NotFound | InvalidReference | Done(count: nat)

  predicate ActiveIn(t: Thread, chat: string) {
    t.chat == chat && t.isActive
  }

  predicate Named(t: Thread, chat: string, ref: string) {
    t.chat == chat && t.publicId == ref
  }

  /** The index of the first row of the chat with this identifier, or the number of rows. */
  function Find(rows: seq<Thread>, chat: string, ref: string): (i: nat)
    ensures i <= |rows| && (i < |rows| ==> Named(rows[i], chat, ref))
    ensures forall k | 0 <= k < i :: !Named(rows[k], chat, ref)
  {
    if rows == [] || Named(rows[0], chat, ref) then 0 else 1 + Find(rows[1..], chat, ref)
  }

  function Clock(o: Option<int>, other: Option<int>): int {
    match (o, other)
    case (None, None) => 0
    case (None, Some(_)) => -1
    case (Some(_), None) => 1
    case (Some(x), Some(y)) => x - y
  }

  /** s comes before the later row t in the order by last activity, update and row number,
      all descending. */
  predicate Newer(s: Thread, t: Thread) {
    Clock(s.lastActive, t.lastActive) > 0 || (s.lastActive == t.lastActive && s.updatedAt > t.updatedAt)
  }

  /** The active row of the chat that comes first in that order, or the number of rows. */
  function NewestActive(rows: seq<Thread>, chat: string): (i: nat)
    ensures i <= |rows| && (i < |rows| ==> ActiveIn(rows[i], chat))
    ensures i == |rows| ==> forall k | 0 <= k < |rows| :: !ActiveIn(rows[k], chat)
  {
    if rows == [] then 0
    else
      var n := |rows| - 1;
      var i := NewestActive(rows[..n], chat);
      if ActiveIn(rows[n], chat) then (if i < n && Newer(rows[i], rows[n]) then i else n)
      else if i < n then i else n + 1
  }

  function Deactivated(t: Thread, chat: string, now: int): Thread {
    if ActiveIn(t, chat) then t.(isActive := false, updatedAt := now) else t
  }

  function Deactivate(rows: seq<Thread>, chat: string, now: int): (r: seq<Thread>)
    ensures |r| == |rows| && forall i | 0 <= i < |r| :: r[i] == Deactivated(rows[i], chat, now)
  {
    if rows == [] then [] else [Deactivated(rows[0], chat, now)] + Deactivate(rows[1..], chat, now)
  }

  function CreateThread(rows: seq<Thread>, chat: string, newId: string, now: int): seq<Thread> {
    Deactivate(rows, chat, now) + [Thread(newId, chat, true, Some(now), now)]
  }

  /** All threads of the chat are deactivated and the one selected is set. */
  function Select(rows: seq<Thread>, chat: string, id: string, on: bool, now: int): (r: seq<Thread>)
    ensures |r| == |rows|
  {
    var i := Find(rows, chat, id);
    if i == |rows| then rows
    else Deactivate(rows, chat, now)[i := rows[i].(isActive := on, lastActive := Some(now), updatedAt := now)]
  }

  function SetActive(rows: seq<Thread>, chat: string, ref: string, written: set<string>, now: int): seq<Thread> {
    Select(rows, chat, Strip(ref), Strip(ref) in written, now)
  }

  function CloseThread(rows: seq<Thread>, chat: string, ref: string, written: set<string>, now: int)
    : (r: seq<Thread>)
    ensures |r| == |rows|
  {
    var i := Find(rows, chat, ref);
    if i == |rows| then rows
    else rows[i := rows[i].(isActive := rows[i].isActive && ref !in written, updatedAt := now)]
  }

  predicate Idle(t: Thread, chat: string, threshold: int) {
    t.chat == chat && t.lastActive.Some? && t.lastActive.value < threshold
  }

  /** The identifiers of the rows of a chat whose last activity is before the threshold. */
  function IdleIds(rows: seq<Thread>, chat: string, threshold: int): (ids: seq<string>)
    ensures forall id :: id in ids <==>
      exists i :: 0 <= i < |rows| && Idle(rows[i], chat, threshold) && rows[i].publicId == id
    ensures |ids| <= |rows|
  {
    if rows == [] then []
    else
      var n := |rows| - 1;
      var ids := IdleIds(rows[..n], chat, threshold);
      assert forall i | 0 <= i < n :: rows[..n][i] == rows[i];
      if Idle(rows[n], chat, threshold) then ids + [rows[n].publicId] else ids
  }

  function CloseAll(rows: seq<Thread>, chat: string, refs: seq<string>, written: set<string>, now: int)
    : (r: seq<Thread>)
    ensures |r| == |rows|
  {
    if refs == [] then rows
    else CloseThread(CloseAll(rows, chat, refs[..|refs| - 1], written, now), chat, refs[|refs| - 1], written, now)
  }

  predicate GoodReference(ref: string) {
    "t_" <= Strip(ref)
  }

  function Apply(rows: seq<Thread>, c: Call): seq<Thread> {
    match c
    case Create(chat, newId, now) => CreateThread(rows, chat, newId, now)
    case Activate(chat, ref, written, now) => SetActive(rows, chat, ref, written, now)
    case Resolve(chat, ref, newId, written, now) =>
      if ref != "" then (if GoodReference(ref) then SetActive(rows, chat, Strip(ref), written, now) else rows)
      else if NewestActive(rows, chat) < |rows| then rows
      else CreateThread(rows, chat, newId, now)
    case Close(chat, ref, written, now) => CloseThread(rows, chat, ref, written, now)
    case Cleanup(chat, threshold, written, now) => CloseAll(rows, chat, IdleIds(rows, chat, threshold), written, now)
  }

  function Answer(rows: seq<Thread>, c: Call): Reply {
    match c
    case Create(_, newId, _) => Selected(newId)
    case Activate(chat, ref, _, _) =>
      if Find(rows, chat, Strip(ref)) == |rows| then NotFound else Selected(Strip(ref))
    case Resolve(chat, ref, newId, _, _) =>
      if ref != "" then
        if !GoodReference(ref) then InvalidReference
        else if Find(rows, chat, Strip(Strip(ref))) == |rows| then NotFound
        else Selected(Strip(Strip(ref)))
      else
        var i := NewestActive(rows, chat);
        Selected(if i < |rows| then rows[i].publicId else newId)
    case Close(chat, ref, _, _) => Done(if Find(rows, chat, ref) == |rows| then 0 else 1)
    case Cleanup(chat, threshold, _, _) => Done(|IdleIds(rows, chat, threshold)|)
  }

  // ---- the map behind the flags -------------------------------------------------------

  ghost predicate Active(rows: seq<Thread>, chat: string, id: string) {
    exists i :: 0 <= i < |rows| && ActiveIn(rows[i], chat) && rows[i].publicId == id
  }

  predicate Maps(m: map<string, string>, chat: string, id: string) {
    chat in m && m[chat] == id
  }

  ghost predicate UniqueIds(rows: seq<Thread>) {
    forall i, k | 0 <= i < k < |rows| :: rows[i].publicId != rows[k].publicId
  }

  /** Identifiers are unique and m holds, chat by chat, the thread that is active. */
  ghost predicate Tracks(rows: seq<Thread>, m: map<string, string>) {
    UniqueIds(rows) && forall chat, id :: Maps(m, chat, id) <==> Active(rows, chat, id)
  }

  ghost predicate AtMostOneActive(rows: seq<Thread>, chat: string) {
    forall i, k | 0 <= i < k < |rows| :: !(ActiveIn(rows[i], chat) && ActiveIn(rows[k], chat))
  }

  /** A tracked table has at most one active thread in every chat. */
  lemma TrackedIsAtMostOne(rows: seq<Thread>, m: map<string, string>, chat: string)
    requires Tracks(rows, m)
    ensures AtMostOneActive(rows, chat)
    ensures chat in m <==> NewestActive(rows, chat) < |rows|
    ensures chat in m ==> rows[NewestActive(rows, chat)].publicId == m[chat]
  {
    forall i, k | 0 <= i < k < |rows| && ActiveIn(rows[i], chat) && ActiveIn(rows[k], chat) ensures false {
      assert Active(rows, chat, rows[i].publicId) && Active(rows, chat, rows[k].publicId);
    }
    var i := NewestActive(rows, chat);
    if i < |rows| {
      assert Active(rows, chat, rows[i].publicId);
      assert Maps(m, chat, rows[i].publicId);
    }
    if chat in m {
      assert Maps(m, chat, m[chat]);
      assert Active(rows, chat, m[chat]);
    }
  }

  ghost predicate Fresh(rows: seq<Thread>, c: Call) {
    (c.Create? || c.Resolve?) ==> forall i | 0 <= i < |rows| :: rows[i].publicId != c.newId
  }

  function Put(m: map<string, string>, chat: string, id: string, on: bool): map<string, string> {
    if on then m[chat := id] else m - {chat}
  }

  /** What a call does to the map; the table only says which references exist. */
  function Track(m: map<string, string>, rows: seq<Thread>, c: Call): map<string, string> {
    match c
    case Create(chat, newId, _) => m[chat := newId]
    case Activate(chat, ref, written, _) =>
      if Find(rows, chat, Strip(ref)) == |rows| then m else Put(m, chat, Strip(ref), Strip(ref) in written)
    case Resolve(chat, ref, newId, written, _) =>
      if ref == "" then (if chat in m then m else m[chat := newId])
      else
        var id := Strip(Strip(ref));
        if !GoodReference(ref) || Find(rows, chat, id) == |rows| then m else Put(m, chat, id, id in written)
    case Close(chat, ref, written, _) =>
      if Maps(m, chat, ref) && ref in written then m - {chat} else m
    case Cleanup(chat, threshold, written, _) =>
      if chat in m && m[chat] in IdleIds(rows, chat, threshold) && m[chat] in written then m - {chat} else m
  }

  // ---- one call -------------------------------------------------------------------------

  /** Rows of other chats are as they were; no row disappears or changes its chat or its
      identifier; at most one row is added, in this chat and active. */
  ghost predicate OnlyTouches(rows: seq<Thread>, t: seq<Thread>, chat: string) {
    && |rows| <= |t| <= |rows| + 1
    && (forall i | 0 <= i < |rows| :: t[i].chat == rows[i].chat && t[i].publicId == rows[i].publicId)
    && (forall i | 0 <= i < |rows| && rows[i].chat != chat :: t[i] == rows[i])
    && (forall i | |rows| <= i < |t| :: ActiveIn(t[i], chat))
  }

  lemma {:induction false} CloseAllTouches(rows: seq<Thread>, chat: string, refs: seq<string>, written: set<string>,
                                           now: int)
    ensures OnlyTouches(rows, CloseAll(rows, chat, refs, written, now), chat)
    decreases |refs|
  {
    if refs != [] {
      CloseAllTouches(rows, chat, refs[..|refs| - 1], written, now);
    }
  }

  lemma NothingTouches(rows: seq<Thread>, chat: string)
    ensures OnlyTouches(rows, rows, chat)
  {
  }

  lemma CreateTouches(rows: seq<Thread>, chat: string, newId: string, now: int)
    ensures OnlyTouches(rows, CreateThread(rows, chat, newId, now), chat)
  {
  }

  lemma CloseTouches(rows: seq<Thread>, chat: string, ref: string, written: set<string>, now: int)
    ensures OnlyTouches(rows, CloseThread(rows, chat, ref, written, now), chat)
  {
  }

  lemma ApplyTouches(rows: seq<Thread>, c: Call)
    ensures OnlyTouches(rows, Apply(rows, c), c.chat)
  {
    hide Strip, Select, NewestActive, OnlyTouches, CreateThread, CloseThread, CloseAll, IdleIds, Find;
    match c
    case Create(chat, newId, now) => CreateTouches(rows, chat, newId, now);
    case Activate(chat, ref, written, now) => SelectShape(rows, chat, Strip(ref), Strip(ref) in written, now);
    case Resolve(chat, ref, newId, written, now) =>
      SelectShape(rows, chat, Strip(Strip(ref)), Strip(Strip(ref)) in written, now);
      CreateTouches(rows, chat, newId, now);
      NothingTouches(rows, chat);
    case Close(chat, ref, written, now) => CloseTouches(rows, chat, ref, written, now);
    case Cleanup(chat, threshold, written, now) =>
      CloseAllTouches(rows, chat, IdleIds(rows, chat, threshold), written, now);
  }

  /** A change to one chat keeps the tracking of all the others. */
  lemma Retrack(rows: seq<Thread>, t: seq<Thread>, m: map<string, string>, n: map<string, string>, chat: string)
    requires Tracks(rows, m) && UniqueIds(t) && OnlyTouches(rows, t, chat)
    requires forall id :: Maps(n, chat, id) <==> Active(t, chat, id)
    requires n - {chat} == m - {chat}
    ensures Tracks(t, n)
  {
    forall other, id ensures Maps(n, other, id) <==> Active(t, other, id) {
      if other != chat {
        assert other in n <==> other in n - {chat};
        assert other in m <==> other in m - {chat};
        assert Maps(n, other, id) <==> Maps(m, other, id);
        if Active(t, other, id) {
          var i :| 0 <= i < |t| && ActiveIn(t[i], other) && t[i].publicId == id;
          assert ActiveIn(rows[i], other) && rows[i].publicId == id;
        }
        if Active(rows, other, id) {
          var i :| 0 <= i < |rows| && ActiveIn(rows[i], other) && rows[i].publicId == id;
          assert ActiveIn(t[i], other) && t[i].publicId == id;
        }
      }
    }
  }

  /** One row of the chat is singled out: it may be active, no other may. */
  lemma Singled(t: seq<Thread>, chat: string, i: nat)
    requires i < |t| && t[i].chat == chat
    requires forall k | 0 <= k < |t| && k != i :: !ActiveIn(t[k], chat)
    ensures forall id :: Active(t, chat, id) <==> t[i].isActive && t[i].publicId == id
  {
    forall id ensures Active(t, chat, id) <==> t[i].isActive && t[i].publicId == id {
      if t[i].isActive && t[i].publicId == id {
        assert ActiveIn(t[i], chat);
      }
    }
  }

  lemma CreateTracks(rows: seq<Thread>, m: map<string, string>, chat: string, newId: string, now: int)
    requires Tracks(rows, m) && forall i | 0 <= i < |rows| :: rows[i].publicId != newId
    ensures Tracks(CreateThread(rows, chat, newId, now), m[chat := newId])
  {
    var t := CreateThread(rows, chat, newId, now);
    Singled(t, chat, |rows|);
    assert m[chat := newId] - {chat} == m - {chat};
    Retrack(rows, t, m, m[chat := newId], chat);
  }

  lemma SelectTracks(rows: seq<Thread>, m: map<string, string>, chat: string, id: string, on: bool, now: int)
    requires Tracks(rows, m) && Find(rows, chat, id) < |rows|
    ensures Tracks(Select(rows, chat, id, on, now), Put(m, chat, id, on))
  {
    var t, i := Select(rows, chat, id, on, now), Find(rows, chat, id);
    var n := Put(m, chat, id, on);
    SelectShape(rows, chat, id, on, now);
    hide Select, Find, Deactivate;
    Singled(t, chat, i);
    assert n - {chat} == m - {chat};
    Retrack(rows, t, m, n, chat);
  }

  lemma SelectShape(rows: seq<Thread>, chat: string, id: string, on: bool, now: int)
    ensures var t, i := Select(rows, chat, id, on, now), Find(rows, chat, id);
            && OnlyTouches(rows, t, chat)
            && (i < |rows| ==>
                  && t[i].chat == chat && t[i].publicId == id && t[i].isActive == on
                  && forall k | 0 <= k < |t| && k != i :: !ActiveIn(t[k], chat))
  {
  }

  lemma CloseTracks(rows: seq<Thread>, m: map<string, string>, chat: string, ref: string, written: set<string>,
                    now: int)
    requires Tracks(rows, m)
    ensures Tracks(CloseThread(rows, chat, ref, written, now),
                   if Maps(m, chat, ref) && ref in written then m - {chat} else m)
  {
    var t := CloseThread(rows, chat, ref, written, now);
    var n := if Maps(m, chat, ref) && ref in written then m - {chat} else m;
    forall id ensures Maps(n, chat, id) <==> Active(t, chat, id) {
      assert Maps(m, chat, id) <==> Active(rows, chat, id);
      if Active(t, chat, id) {
        var k :| 0 <= k < |t| && ActiveIn(t[k], chat) && t[k].publicId == id;
        assert ActiveIn(rows[k], chat) && rows[k].publicId == id;
        assert id == ref ==> k == Find(rows, chat, ref);
      }
      if Maps(n, chat, id) {
        var k :| 0 <= k < |rows| && ActiveIn(rows[k], chat) && rows[k].publicId == id;
        assert ActiveIn(t[k], chat) && t[k].publicId == id;
      }
    }
    assert n - {chat} == m - {chat};
    Retrack(rows, t, m, n, chat);
  }

  lemma {:induction false} CloseAllTracks(rows: seq<Thread>, m: map<string, string>, chat: string, refs: seq<string>,
                                          written: set<string>, now: int)
    requires Tracks(rows, m)
    ensures Tracks(CloseAll(rows, chat, refs, written, now),
                   if chat in m && m[chat] in refs && m[chat] in written then m - {chat} else m)
    decreases |refs|
  {
    if refs != [] {
      var init, last := refs[..|refs| - 1], refs[|refs| - 1];
      CloseAllTracks(rows, m, chat, init, written, now);
      var n := if chat in m && m[chat] in init && m[chat] in written then m - {chat} else m;
      CloseTracks(CloseAll(rows, chat, init, written, now), n, chat, last, written, now);
      assert refs == init + [last];
    }
  }

  /** Each call does to the flags what it does to the map. */
  lemma ApplyTracks(rows: seq<Thread>, m: map<string, string>, c: Call)
    requires Tracks(rows, m) && Fresh(rows, c)
    ensures Tracks(Apply(rows, c), Track(m, rows, c))
  {
    hide Strip, IdleIds, Tracks;
    match c
    case Create(chat, newId, now) => CreateTracks(rows, m, chat, newId, now);
    case Activate(chat, ref, written, now) =>
      if Find(rows, chat, Strip(ref)) < |rows| {
        SelectTracks(rows, m, chat, Strip(ref), Strip(ref) in written, now);
      }
    case Resolve(chat, ref, newId, written, now) =>
      TrackedIsAtMostOne(rows, m, chat);
      if ref == "" && chat !in m {
        CreateTracks(rows, m, chat, newId, now);
      }
      if ref != "" && GoodReference(ref) && Find(rows, chat, Strip(Strip(ref))) < |rows| {
        SelectTracks(rows, m, chat, Strip(Strip(ref)), Strip(Strip(ref)) in written, now);
      }
    case Close(chat, ref, written, now) => CloseTracks(rows, m, chat, ref, written, now);
    case Cleanup(chat, threshold, written, now) =>
      CloseAllTracks(rows, m, chat, IdleIds(rows, chat, threshold), written, now);
  }

  // ---- histories --------------------------------------------------------------------------

  function After(rows: seq<Thread>, calls: seq<Call>): seq<Thread>
    decreases |calls|
  {
    if calls == [] then rows else After(Apply(rows, calls[0]), calls[1..])
  }

  ghost predicate Drawn(rows: seq<Thread>, calls: seq<Call>)
    decreases |calls|
  {
    calls == [] || (Fresh(rows, calls[0]) && Drawn(Apply(rows, calls[0]), calls[1..]))
  }

  function TrackAll(m: map<string, string>, rows: seq<Thread>, calls: seq<Call>): map<string, string>
    decreases |calls|
  {
    if calls == [] then m else TrackAll(Track(m, rows, calls[0]), Apply(rows, calls[0]), calls[1..])
  }

  /** Over every sequence of calls the flags are the map's, whatever the sessions leave
      unwritten; so every chat has at most one active thread all along. */
  lemma {:induction false} History(rows: seq<Thread>, m: map<string, string>, calls: seq<Call>)
    requires Tracks(rows, m) && Drawn(rows, calls)
    ensures Tracks(After(rows, calls), TrackAll(m, rows, calls))
    ensures forall chat :: AtMostOneActive(After(rows, calls), chat)
    decreases |calls|
  {
    if calls != [] {
      ApplyTracks(rows, m, calls[0]);
      History(Apply(rows, calls[0]), Track(m, rows, calls[0]), calls[1..]);
    } else {
      forall chat ensures AtMostOneActive(rows, chat) {
        TrackedIsAtMostOne(rows, m, chat);
      }
    }
  }

  /** Calls on other chats leave the threads of a chat as they are, in any table. */
  lemma {:induction false} OtherChatsStay(rows: seq<Thread>, calls: seq<Call>, chat: string)
    requires forall k | 0 <= k < |calls| :: calls[k].chat != chat
    ensures var t := After(rows, calls);
            && |rows| <= |t|
            && (forall i | 0 <= i < |rows| && rows[i].chat == chat :: t[i] == rows[i])
            && (forall i | 0 <= i < |rows| && rows[i].chat != chat :: t[i].chat != chat)
            && (forall i | |rows| <= i < |t| :: t[i].chat != chat)
    decreases |calls|
  {
    if calls != [] {
      ApplyTouches(rows, calls[0]);
      OtherChatsStay(Apply(rows, calls[0]), calls[1..], chat);
    }
  }

  /** Resolving without a reference, then anything on other chats, then resolving again:
      the second time gives the same thread and changes nothing. */
  lemma ResolveTwice(rows: seq<Thread>, m: map<string, string>, first: Call, between: seq<Call>, second: Call)
    requires Tracks(rows, m) && Drawn(rows, [first] + between)
    requires first.Resolve? && first.ref == "" && second.Resolve? && second.ref == "" && second.chat == first.chat
    requires forall k | 0 <= k < |between| :: between[k].chat != first.chat
    ensures var t := After(rows, [first] + between);
            Answer(t, second) == Answer(rows, first) && Apply(t, second) == t
  {
    hide Apply, Answer, Track, Tracks, UniqueIds, NewestActive;
    var calls, chat := [first] + between, first.chat;
    assert calls[1..] == between;
    var r, n := Apply(rows, first), Track(m, rows, first);
    ApplyTracks(rows, m, first);
    ResolveTracked(rows, m, first);
    History(r, n, between);
    OthersKeepTracked(n, r, between, chat);
    assert Maps(n, chat, n[chat]);
    ResolveTracked(After(r, between), TrackAll(n, r, between), second);
  }

  /** Without a reference the thread is the one the map holds, if it holds one. */
  lemma ResolveTracked(rows: seq<Thread>, m: map<string, string>, c: Call)
    requires Tracks(rows, m) && c.Resolve? && c.ref == ""
    ensures Answer(rows, c) == Selected(if c.chat in m then m[c.chat] else c.newId)
    ensures Maps(Track(m, rows, c), c.chat, Answer(rows, c).publicId)
    ensures c.chat in m ==> Apply(rows, c) == rows
  {
    TrackedIsAtMostOne(rows, m, c.chat);
  }

  lemma {:induction false} OthersKeepTracked(m: map<string, string>, rows: seq<Thread>, calls: seq<Call>, chat: string)
    requires forall k | 0 <= k < |calls| :: calls[k].chat != chat
    ensures forall id :: Maps(TrackAll(m, rows, calls), chat, id) <==> Maps(m, chat, id)
    decreases |calls|
  {
    if calls != [] {
      OthersKeepTracked(Track(m, rows, calls[0]), Apply(rows, calls[0]), calls[1..], chat);
    }
  }

  /** Selecting a thread leaves the chat with at most one active thread even in a table that
      had several; it is the thread selected, unless its flag was not written. */
  lemma SelectionHeals(rows: seq<Thread>, c: Call)
    requires c.Create? || (c.Activate? && Answer(rows, c).Selected?)
    ensures AtMostOneActive(Apply(rows, c), c.chat)
    ensures forall id :: Active(Apply(rows, c), c.chat, id) <==>
      Answer(rows, c) == Selected(id) && (c.Activate? ==> id in c.written)
  {
    hide Strip;
    var t := Apply(rows, c);
    var i := if c.Create? then |rows| else Find(rows, c.chat, Strip(c.ref));
    Singled(t, c.chat, i);
  }

  /** Resolving after a selection adds a thread exactly when the selected flag was not
      written; ThreadSession says when that is. */
  lemma ResolveAfterActivateAddsIff(rows: seq<Thread>, select: Call, resolve: Call)
    requires select.Activate? && Answer(rows, select).Selected?
    requires resolve.Resolve? && resolve.ref == "" && resolve.chat == select.chat
    ensures var t := Apply(rows, select);
            |Apply(t, resolve)| == |t| + 1 <==> Strip(select.ref) !in select.written
  {
    hide Strip;
    var t := Apply(rows, select);
    SelectionHeals(rows, select);
    NewestIff(t, select.chat);
    assert Active(t, select.chat, Strip(select.ref)) <==> Strip(select.ref) in select.written;
  }

  /** There is a newest active thread exactly if some thread is active. */
  lemma NewestIff(rows: seq<Thread>, chat: string)
    ensures NewestActive(rows, chat) < |rows| <==> exists id :: Active(rows, chat, id)
  {
    var i := NewestActive(rows, chat);
    if i < |rows| {
      assert Active(rows, chat, rows[i].publicId);
    }
  }

  // ---- the rows themselves ------------------------------------------------------------------

  /** Of two active rows the one further up: the later last activity, a missing one being the
      earliest, then the later update, then the larger row number. */
  ghost predicate Above(rows: seq<Thread>, i: nat, k: nat)
    requires i < |rows| && k < |rows|
  {
    var s, t := rows[i], rows[k];
    if s.lastActive != t.lastActive then
      t.lastActive.None? || (s.lastActive.Some? && s.lastActive.value > t.lastActive.value)
    else if s.updatedAt != t.updatedAt then s.updatedAt > t.updatedAt
    else i > k
  }

  /** The thread that is resolved without a reference is above every other active one. */
  lemma {:induction false} NewestIsAbove(rows: seq<Thread>, chat: string, k: nat)
    requires k < |rows| && ActiveIn(rows[k], chat)
    ensures var i := NewestActive(rows, chat);
            i < |rows| && (i == k || Above(rows, i, k))
  {
    var n := |rows| - 1;
    var init := rows[..n];
    var i := NewestActive(init, chat);
    if k < n {
      NewestIsAbove(init, chat, k);
      assert i == k || Above(rows, i, k);
      if ActiveIn(rows[n], chat) && !Newer(rows[i], rows[n]) {
        assert Above(rows, n, i);
      }
    } else if i < n {
      assert Newer(rows[i], rows[n]) ==> Above(rows, i, n);
    }
  }

  /** Creating clears the flag of every active row of the chat and adds one row; nothing else
      changes but the update times of the rows cleared. */
  lemma CreateRows(rows: seq<Thread>, chat: string, newId: string, now: int)
    ensures var t := Apply(rows, Create(chat, newId, now));
            && |t| == |rows| + 1 && t[|rows|] == Thread(newId, chat, true, Some(now), now)
            && forall k | 0 <= k < |rows| ::
                 t[k] == if rows[k].chat == chat && rows[k].isActive then rows[k].(isActive := false, updatedAt := now)
                         else rows[k]
  {
  }

  /** Selecting does the same to the other rows and touches the row selected, now. */
  lemma ActivateRows(rows: seq<Thread>, c: Call, i: nat)
    requires c.Activate? && UniqueIds(rows)
    requires i < |rows| && rows[i].chat == c.chat && rows[i].publicId == Strip(c.ref)
    ensures var t := Apply(rows, c);
            && |t| == |rows|
            && t[i] == rows[i].(isActive := Strip(c.ref) in c.written, lastActive := Some(c.now), updatedAt := c.now)
            && forall k | 0 <= k < |rows| && k != i ::
                 t[k] == if rows[k].chat == c.chat && rows[k].isActive
                         then rows[k].(isActive := false, updatedAt := c.now)
                         else rows[k]
  {
    hide Strip;
    assert Named(rows[i], c.chat, Strip(c.ref));
    assert Find(rows, c.chat, Strip(c.ref)) == i;
  }

  /** Closing touches that row only. */
  lemma CloseRows(rows: seq<Thread>, c: Call, i: nat)
    requires c.Close? && UniqueIds(rows)
    requires i < |rows| && rows[i].chat == c.chat && rows[i].publicId == c.ref
    ensures Apply(rows, c) == rows[i := rows[i].(isActive := rows[i].isActive && c.ref !in c.written,
                                                 updatedAt := c.now)]
    ensures Answer(rows, c) == Done(1)
  {
    assert Named(rows[i], c.chat, c.ref);
    assert Find(rows, c.chat, c.ref) == i;
  }

  /** Closing and selecting answer whether the chat has such a thread. */
  lemma LookupAnswers(rows: seq<Thread>, c: Call)
    ensures c.Close? ==>
      Answer(rows, c) == Done(if exists i :: 0 <= i < |rows| && rows[i].chat == c.chat && rows[i].publicId == c.ref
                              then 1 else 0)
    ensures c.Activate? ==>
      Answer(rows, c) == if exists i :: 0 <= i < |rows| && rows[i].chat == c.chat && rows[i].publicId == Strip(c.ref)
                         then Selected(Strip(c.ref)) else NotFound
    ensures (c.Close? || c.Activate?) && (Answer(rows, c) == Done(0) || Answer(rows, c) == NotFound)
        ==> Apply(rows, c) == rows
  {
    hide Strip;
    if c.Close? {
      assert forall i | 0 <= i < |rows| :: Named(rows[i], c.chat, c.ref) <==>
        rows[i].chat == c.chat && rows[i].publicId == c.ref;
    } else if c.Activate? {
      assert forall i | 0 <= i < |rows| :: Named(rows[i], c.chat, Strip(c.ref)) <==>
        rows[i].chat == c.chat && rows[i].publicId == Strip(c.ref);
    }
  }

  /** The answers to a resolution: a reference that does not begin with t_ once stripped is
      invalid, one that names no thread of the chat is not found, and both change nothing. */
  lemma ResolveAnswers(rows: seq<Thread>, c: Call)
    requires c.Resolve?
    ensures var r, id := Answer(rows, c), Strip(Strip(c.ref));
            && (r == InvalidReference <==> c.ref != "" && !("t_" <= Strip(c.ref)))
            && (r == NotFound <==>
                  && c.ref != "" && "t_" <= Strip(c.ref)
                  && forall i | 0 <= i < |rows| :: rows[i].chat != c.chat || rows[i].publicId != id)
            && (c.ref != "" && r.Selected? ==> r.publicId == id)
            && (!r.Selected? ==> Apply(rows, c) == rows)
  {
    hide Strip;
    var id := Strip(Strip(c.ref));
    assert forall i | 0 <= i < |rows| ::
      Named(rows[i], c.chat, id) <==> !(rows[i].chat != c.chat || rows[i].publicId != id);
  }

  /** The rows of the chat last active before the threshold; no activity at all is not before. */
  function IdleRows(rows: seq<Thread>, chat: string, threshold: int): set<nat> {
    set i: nat | i < |rows| && rows[i].chat == chat && rows[i].lastActive.Some? && rows[i].lastActive.value < threshold
  }

  lemma {:induction false} IdleCount(rows: seq<Thread>, chat: string, threshold: int)
    ensures |IdleIds(rows, chat, threshold)| == |IdleRows(rows, chat, threshold)|
  {
    if rows != [] {
      var n := |rows| - 1;
      IdleCount(rows[..n], chat, threshold);
      var before := IdleRows(rows[..n], chat, threshold);
      if Idle(rows[n], chat, threshold) {
        assert IdleRows(rows, chat, threshold) == before + {n};
      } else {
        assert IdleRows(rows, chat, threshold) == before;
      }
    }
  }

  /** The clean-up reports how many rows those are, and leaves every one whose flag is written
      inactive and every other row as it is. */
  lemma CleanupRows(rows: seq<Thread>, c: Call, i: nat)
    requires c.Cleanup? && UniqueIds(rows) && i < |rows|
    ensures Answer(rows, c) == Done(|IdleRows(rows, c.chat, c.threshold)|)
    ensures var t := Apply(rows, c)[i];
            if i !in IdleRows(rows, c.chat, c.threshold) then t == rows[i]
            else t == rows[i].(isActive := rows[i].isActive && rows[i].publicId !in c.written, updatedAt := c.now)
  {
    IdleCount(rows, c.chat, c.threshold);
    var ids := IdleIds(rows, c.chat, c.threshold);
    CloseAllRow(rows, c.chat, ids, c.written, c.now, i);
    if rows[i].publicId in ids && rows[i].chat == c.chat {
      var k :| 0 <= k < |rows| && Idle(rows[k], c.chat, c.threshold) && rows[k].publicId == rows[i].publicId;
      assert k == i;
    }
  }

  lemma {:induction false} CloseAllRow(rows: seq<Thread>, chat: string, refs: seq<string>, written: set<string>,
                                       now: int, i: nat)
    requires UniqueIds(rows) && i < |rows|
    ensures var t := CloseAll(rows, chat, refs, written, now)[i];
            if rows[i].chat == chat && rows[i].publicId in refs
            then t == rows[i].(isActive := rows[i].isActive && rows[i].publicId !in written, updatedAt := now)
            else t == rows[i]
    decreases |refs|
  {
    if refs != [] {
      var init, last := refs[..|refs| - 1], refs[|refs| - 1];
      assert refs == init + [last];
      CloseAllRow(rows, chat, init, written, now, i);
      CloseAllTouches(rows, chat, init, written, now);
      var t := CloseAll(rows, chat, init, written, now);
      CloseOneRow(t, chat, last, written, now, i);
    }
  }

  lemma CloseOneRow(rows: seq<Thread>, chat: string, ref: string, written: set<string>, now: int, i: nat)
    requires UniqueIds(rows) && i < |rows|
    ensures CloseThread(rows, chat, ref, written, now)[i] ==
              if rows[i].chat == chat && rows[i].publicId == ref
              then rows[i].(isActive := rows[i].isActive && ref !in written, updatedAt := now)
              else rows[i]
  {
    var k := Find(rows, chat, ref);
    assert Named(rows[i], chat, ref) ==> k == i;
  }
}
