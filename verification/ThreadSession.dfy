/** A database session over the table of threads (app/memory/thread_store.py,
    app/memory/thread_state.py, app/db/session.py): which of its assignments reach the table. */
module ThreadSession {
  import opened Wrappers
  import opened Whitespace
  import opened ThreadTable

  /** `copies` holds the activity flag of the rows the session has in memory. A commit does
      not expire them, a query does not refresh them, and the bulk update that deactivates a
      chat does not reach them; so a copy can differ from its row. */
  datatype Session = Session(rows: seq<Thread>, copies: map<string, bool>)

  datatype Operation =
    | Creates(chat: string, newId: string, now: int)
    | Selects(chat: string, ref: string, now: int)
    | Resolves(chat: string, ref: string, newId: string, now: int)
    | Closes(chat: string, ref: string, now: int)
    | CleansUp(chat: string, threshold: int, now: int)

  /** The flag the session sees: its own copy's, or the row's if it has yet to load one. */
  function CopyFlag(s: Session, i: nat): bool
    requires i < |s.rows|
  {
    var t := s.rows[i];
    if t.publicId in s.copies then s.copies[t.publicId] else t.isActive
  }

  /** Assigning the flag writes it only where the copy has the other value. */
  predicate Writes(s: Session, chat: string, id: string, on: bool) {
    var i := Find(s.rows, chat, id);
    i < |s.rows| && CopyFlag(s, i) != on
  }

  function Written(s: Session, chat: string, ids: set<string>, on: bool): set<string> {
    set id | id in ids && Writes(s, chat, id, on)
  }

  function IdleSet(s: Session, chat: string, threshold: int): set<string> {
    set id | id in IdleIds(s.rows, chat, threshold)
  }

  /** The call on the table that an operation amounts to. */
  function CallOf(s: Session, op: Operation): Call {
    match op
    case Creates(chat, newId, now) => Create(chat, newId, now)
    case Selects(chat, ref, now) => Activate(chat, ref, Written(s, chat, {Strip(ref)}, true), now)
    case Resolves(chat, ref, newId, now) =>
      Resolve(chat, ref, newId, Written(s, chat, {Strip(Strip(ref))}, true), now)
    case Closes(chat, ref, now) => Close(chat, ref, Written(s, chat, {ref}, false), now)
    case CleansUp(chat, threshold, now) =>
      Cleanup(chat, threshold, Written(s, chat, IdleSet(s, chat, threshold), false), now)
  }

  /** Selecting and creating end with a refresh, so the copy is then what the row is. */
  function Refreshed(s: Session, chat: string, id: string): map<string, bool> {
    if Find(s.rows, chat, id) == |s.rows| then s.copies else s.copies[id := Writes(s, chat, id, true)]
  }

  function CopiesAfter(s: Session, op: Operation): map<string, bool> {
    match op
    case Creates(chat, newId, now) => s.copies[newId := true]
    case Selects(chat, ref, now) => Refreshed(s, chat, Strip(ref))
    case Resolves(chat, ref, newId, now) =>
      if ref != "" then
        if GoodReference(ref) then Refreshed(s, chat, Strip(Strip(ref))) else s.copies
      else
        var i := NewestActive(s.rows, chat);
        if i < |s.rows| then s.copies[s.rows[i].publicId := CopyFlag(s, i)] else s.copies[newId := true]
    case Closes(chat, ref, now) =>
      if Find(s.rows, chat, ref) == |s.rows| then s.copies else s.copies[ref := false]
    case CleansUp(chat, threshold, now) =>
      s.copies + map id | id in IdleSet(s, chat, threshold) :: false
  }

  function Perform(s: Session, op: Operation): Session {
    Session(Apply(s.rows, CallOf(s, op)), CopiesAfter(s, op))
  }

  /** Copies that nothing refers to any more are collected. */
  function Drop(s: Session, ids: set<string>): Session {
    s.(copies := s.copies - ids)
  }

  // ---- selecting a thread -----------------------------------------------------------------

  lemma WrittenIs(s: Session, chat: string, id: string, on: bool)
    ensures id in Written(s, chat, {id}, on) <==> Writes(s, chat, id, on)
  {
  }

  /** A thread that has just been selected is active exactly if the session's copy of it was
      not: where the copy was active already, the bulk update clears the row, the assignment
      writes nothing, and the chat is left without an active thread. */
  lemma SelectedIsActiveIff(s: Session, op: Operation)
    requires op.Selects? && Find(s.rows, op.chat, Strip(op.ref)) < |s.rows|
    ensures var t := Perform(s, op).rows;
            var was := CopyFlag(s, Find(s.rows, op.chat, Strip(op.ref)));
            && (Active(t, op.chat, Strip(op.ref)) <==> !was)
            && (forall id | id != Strip(op.ref) :: !Active(t, op.chat, id))
  {
    hide Strip, Apply, Find, Active;
    WrittenIs(s, op.chat, Strip(op.ref), true);
    SelectionHeals(s.rows, CallOf(s, op));
  }

  /** Resolving after a selection adds a thread exactly if the copy was already active. */
  lemma ResolveAfterSelectAddsIff(s: Session, select: Operation, resolve: Operation)
    requires select.Selects? && Find(s.rows, select.chat, Strip(select.ref)) < |s.rows|
    requires resolve.Resolves? && resolve.ref == "" && resolve.chat == select.chat
    ensures var t := Perform(s, select);
            |Perform(t, resolve).rows| == |t.rows| + 1
            <==> CopyFlag(s, Find(s.rows, select.chat, Strip(select.ref)))
  {
    hide Strip, Apply, Find;
    WrittenIs(s, select.chat, Strip(select.ref), true);
    ResolveAfterActivateAddsIff(s.rows, CallOf(s, select), CallOf(Perform(s, select), resolve));
  }

  /** A new thread that is selected at once is lost as the active one, whether or not its
      copy has been collected meanwhile: resolving then gives yet another thread. */
  lemma CreateSelectResolve(s: Session, chat: string, id: string, other: string, gone: set<string>,
                            t1: int, t2: int, t3: int)
    requires Strip(id) == id && forall i | 0 <= i < |s.rows| :: s.rows[i].publicId != id
    ensures var created := Drop(Perform(s, Creates(chat, id, t1)), gone);
            var selected := Perform(created, Selects(chat, id, t2));
            var resolve := Resolves(chat, "", other, t3);
            && |Perform(selected, resolve).rows| == |s.rows| + 2
            && Answer(selected.rows, CallOf(selected, resolve)) == Selected(other)
  {
    hide Strip;
    var created := Drop(Perform(s, Creates(chat, id, t1)), gone);
    assert created.rows[|s.rows|].isActive && Named(created.rows[|s.rows|], chat, id);
    assert Find(created.rows, chat, id) == |s.rows|;
    var select, resolve := Selects(chat, id, t2), Resolves(chat, "", other, t3);
    assert CopyFlag(created, |s.rows|);
    ResolveAfterSelectAddsIff(created, select, resolve);
    ApplyTouches(created.rows, CallOf(created, select));
  }

  /** Switching back to an older thread works exactly if the session no longer has the copy
      it made when it created that thread. */
  lemma SwitchBackIff(s: Session, chat: string, id: string, other: string, gone: set<string>, t1: int, t2: int, t3: int)
    requires Strip(id) == id && id != other
    requires forall i | 0 <= i < |s.rows| :: s.rows[i].publicId != id && s.rows[i].publicId != other
    ensures var both := Drop(Perform(Perform(s, Creates(chat, id, t1)), Creates(chat, other, t2)), gone);
            Active(Perform(both, Selects(chat, id, t3)).rows, chat, id) <==> id in gone
  {
    hide Strip;
    var one := Perform(s, Creates(chat, id, t1));
    var both := Drop(Perform(one, Creates(chat, other, t2)), gone);
    assert Named(one.rows[|s.rows|], chat, id) && one.rows[|s.rows|].isActive;
    assert Named(both.rows[|s.rows|], chat, id) && !both.rows[|s.rows|].isActive;
    assert Find(both.rows, chat, id) == |s.rows|;
    SelectedIsActiveIff(both, Selects(chat, id, t3));
  }

  /** Closing leaves a thread active exactly if the row was and the session's copy was not, for
      then nothing is written; the copy is inactive afterwards, so that selecting works. */
  lemma ClosedUnlessStale(s: Session, op: Operation, i: nat, select: Operation)
    requires op.Closes? && UniqueIds(s.rows)
    requires i < |s.rows| && s.rows[i].chat == op.chat && s.rows[i].publicId == op.ref
    requires select.Selects? && select.chat == op.chat && Strip(select.ref) == op.ref
    ensures var t := Perform(s, op);
            && |t.rows| == |s.rows|
            && (t.rows[i].isActive <==> s.rows[i].isActive && !CopyFlag(s, i))
            && Active(Perform(t, select).rows, op.chat, op.ref)
  {
    hide Strip;
    CloseRows(s.rows, CallOf(s, op), i);
    assert Named(s.rows[i], op.chat, op.ref);
    assert Find(s.rows, op.chat, op.ref) == i;
    WrittenIs(s, op.chat, op.ref, false);
    var t := Perform(s, op);
    assert t.copies == s.copies[op.ref := false];
    FindSame(s.rows, t.rows, op.chat, op.ref);
    hide Perform;
    SelectedIsActiveIff(t, select);
  }

  /** The refresh after a selection brings the copy back in line with the row, so selecting a
      second time undoes what the first one did. */
  lemma SelectTwice(s: Session, first: Operation, second: Operation)
    requires first.Selects? && second.Selects? && second.chat == first.chat && Strip(second.ref) == Strip(first.ref)
    requires Find(s.rows, first.chat, Strip(first.ref)) < |s.rows|
    ensures var i, t := Find(s.rows, first.chat, Strip(first.ref)), Perform(s, first);
            && i < |t.rows| && CopyFlag(t, i) == t.rows[i].isActive
            && (Active(Perform(t, second).rows, first.chat, Strip(first.ref)) <==> CopyFlag(s, i))
  {
    hide Strip;
    var id, i, t := Strip(first.ref), Find(s.rows, first.chat, Strip(first.ref)), Perform(s, first);
    WrittenIs(s, first.chat, id, true);
    ApplyTouches(s.rows, CallOf(s, first));
    FindSame(s.rows, t.rows, first.chat, id);
    assert t.copies == s.copies[id := !CopyFlag(s, i)];
    assert t.rows[i].isActive == !CopyFlag(s, i);
    hide Perform;
    SelectedIsActiveIff(t, second);
  }

  /** Resolving with a reference that begins with t_ once stripped is selecting it; with any
      other it does nothing. */
  lemma ResolveIsSelect(s: Session, chat: string, ref: string, newId: string, now: int)
    requires ref != ""
    ensures "t_" <= Strip(ref) ==>
      && Perform(s, Resolves(chat, ref, newId, now)) == Perform(s, Selects(chat, Strip(ref), now))
      && Answer(s.rows, CallOf(s, Resolves(chat, ref, newId, now)))
         == Answer(s.rows, CallOf(s, Selects(chat, Strip(ref), now)))
    ensures !("t_" <= Strip(ref)) ==> Perform(s, Resolves(chat, ref, newId, now)) == s
  {
    hide Strip, Refreshed, Written, SetActive, Find;
  }

  /** Resolving to a thread that is active reads its row and changes no flag a session sees. */
  lemma ResolveKeepsFlags(s: Session, op: Operation, k: nat)
    requires UniqueIds(s.rows) && op.Resolves? && op.ref == ""
    requires NewestActive(s.rows, op.chat) < |s.rows| && k < |s.rows|
    ensures Perform(s, op).rows == s.rows && CopyFlag(Perform(s, op), k) == CopyFlag(s, k)
  {
    hide Strip, NewestActive;
  }

  // ---- any number of sessions ----------------------------------------------------------------

  /** One operation by some session, whose copies can be anything by then. */
  datatype Turn = Turn(copies: map<string, bool>, op: Operation)

  function Play(rows: seq<Thread>, turns: seq<Turn>): seq<Thread>
    decreases |turns|
  {
    if turns == [] then rows else Play(Perform(Session(rows, turns[0].copies), turns[0].op).rows, turns[1..])
  }

  function CallsOf(rows: seq<Thread>, turns: seq<Turn>): seq<Call>
    decreases |turns|
  {
    if turns == [] then []
    else
      var s := Session(rows, turns[0].copies);
      [CallOf(s, turns[0].op)] + CallsOf(Perform(s, turns[0].op).rows, turns[1..])
  }

  lemma {:induction false} PlayIsAfter(rows: seq<Thread>, turns: seq<Turn>)
    ensures Play(rows, turns) == After(rows, CallsOf(rows, turns))
    decreases |turns|
  {
    hide Apply, CallOf;
    if turns != [] {
      var s := Session(rows, turns[0].copies);
      var call, rest := CallOf(s, turns[0].op), Perform(s, turns[0].op).rows;
      PlayIsAfter(rest, turns[1..]);
      assert CallsOf(rows, turns)[1..] == CallsOf(rest, turns[1..]);
    }
  }

  /** Whatever any number of sessions do, and however stale their copies are, each chat has
      at most one active thread. */
  lemma AtMostOneAlways(rows: seq<Thread>, m: map<string, string>, turns: seq<Turn>, chat: string)
    requires Tracks(rows, m) && Drawn(rows, CallsOf(rows, turns))
    ensures AtMostOneActive(Play(rows, turns), chat)
  {
    PlayIsAfter(rows, turns);
    History(rows, m, CallsOf(rows, turns));
  }

  // ---- closing one by one ----------------------------------------------------------------------

  function CloseInOrder(s: Session, chat: string, refs: seq<string>, now: int): Session
    decreases |refs|
  {
    if refs == [] then s
    else Perform(CloseInOrder(s, chat, refs[..|refs| - 1], now), Closes(chat, refs[|refs| - 1], now))
  }

  lemma FindSame(rows: seq<Thread>, t: seq<Thread>, chat: string, id: string)
    requires |rows| == |t|
    requires forall i | 0 <= i < |rows| :: t[i].chat == rows[i].chat && t[i].publicId == rows[i].publicId
    ensures Find(t, chat, id) == Find(rows, chat, id)
  {
    assert forall i | 0 <= i < |rows| :: Named(t[i], chat, id) <==> Named(rows[i], chat, id);
  }

  /** What closing a list of references leaves: only their first rows can have changed. */
  lemma {:induction false} CloseAllFlags(rows: seq<Thread>, chat: string, refs: seq<string>, written: set<string>,
                                         now: int)
    ensures var t := CloseAll(rows, chat, refs, written, now);
            && OnlyTouches(rows, t, chat)
            && (forall id | id !in refs && Find(rows, chat, id) < |rows| ::
                  t[Find(rows, chat, id)] == rows[Find(rows, chat, id)])
            && (forall id | id in refs && id in written && Find(rows, chat, id) < |rows| ::
                  !t[Find(rows, chat, id)].isActive)
    decreases |refs|
  {
    if refs != [] {
      var init, last := refs[..|refs| - 1], refs[|refs| - 1];
      CloseAllFlags(rows, chat, init, written, now);
      CloseAllTouches(rows, chat, refs, written, now);
      assert refs == init + [last];
      FindSame(rows, CloseAll(rows, chat, init, written, now), chat, last);
    }
  }

  /** Closing one by one, with the copies changing as it goes, does what closing them all
      with the copies of the start does. */
  lemma {:induction false} CloseInOrderIs(s: Session, chat: string, refs: seq<string>, all: set<string>, now: int)
    requires forall id | id in refs :: id in all && Find(s.rows, chat, id) < |s.rows|
    ensures var t := CloseInOrder(s, chat, refs, now);
            && t.rows == CloseAll(s.rows, chat, refs, Written(s, chat, all, false), now)
            && t.copies == s.copies + (map id | id in refs :: false)
    decreases |refs|
  {
    hide Perform, CopiesAfter, Written, CloseThread, Find;
    if refs == [] {
      assert (map id | id in refs :: false) == map[];
    } else {
      var init, last := refs[..|refs| - 1], refs[|refs| - 1];
      assert refs == init + [last];
      CloseInOrderIs(s, chat, init, all, now);
      CloseOne(s, CloseInOrder(s, chat, init, now), chat, init, last, all, now);
      LastCopy(s.copies, init, last);
    }
  }

  lemma LastCopy(copies: map<string, bool>, init: seq<string>, last: string)
    ensures (copies + (map id | id in init :: false))[last := false] == copies + (map id | id in init + [last] :: false)
  {
  }

  lemma CloseOne(s: Session, t: Session, chat: string, init: seq<string>, last: string, all: set<string>, now: int)
    requires last in all && Find(s.rows, chat, last) < |s.rows|
    requires t.rows == CloseAll(s.rows, chat, init, Written(s, chat, all, false), now)
    requires t.copies == s.copies + (map id | id in init :: false)
    ensures Perform(t, Closes(chat, last, now)).rows
         == CloseThread(t.rows, chat, last, Written(s, chat, all, false), now)
    ensures Perform(t, Closes(chat, last, now)).copies == t.copies[last := false]
  {
    var w, i := Written(s, chat, all, false), Find(s.rows, chat, last);
    CloseAllFlags(s.rows, chat, init, w, now);
    FindSame(s.rows, t.rows, chat, last);
    WrittenIs(t, chat, last, false);
    hide CloseAll, Find;
    assert last in w <==> Writes(s, chat, last, false);
    if last in init {
      assert !Writes(t, chat, last, false);
    } else {
      assert Writes(t, chat, last, false) <==> Writes(s, chat, last, false);
    }
  }

  lemma CleanupIsInOrder(s: Session, chat: string, threshold: int, now: int)
    ensures CloseInOrder(s, chat, IdleIds(s.rows, chat, threshold), now) == Perform(s, CleansUp(chat, threshold, now))
    ensures |Perform(s, CleansUp(chat, threshold, now)).rows| == |s.rows|
  {
    hide IdleIds, Find, CloseAll, CloseInOrder, Written, IdleSet;
    var ids, all := IdleIds(s.rows, chat, threshold), IdleSet(s, chat, threshold);
    IdleSetIs(s, chat, threshold);
    forall id | id in ids ensures id in all && Find(s.rows, chat, id) < |s.rows| {
      IdleIsFound(s.rows, chat, threshold, id);
    }
    CloseInOrderIs(s, chat, ids, all, now);
  }

  lemma IdleSetIs(s: Session, chat: string, threshold: int)
    ensures forall id :: id in IdleSet(s, chat, threshold) <==> id in IdleIds(s.rows, chat, threshold)
    ensures (map id | id in IdleIds(s.rows, chat, threshold) :: false)
         == map id | id in IdleSet(s, chat, threshold) :: false
  {
    hide IdleIds;
  }

  lemma IdleIsFound(rows: seq<Thread>, chat: string, threshold: int, id: string)
    requires id in IdleIds(rows, chat, threshold)
    ensures Find(rows, chat, id) < |rows|
  {
    var i :| 0 <= i < |rows| && Idle(rows[i], chat, threshold) && rows[i].publicId == id;
    assert Named(rows[i], chat, id);
  }
}
