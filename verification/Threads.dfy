/** The thread store and the closing of threads (app/memory/thread_store.py,
    app/memory/thread_state.py), over the rows of one table and the copies of one session. */
module Threads {
  import opened Wrappers
  import opened Whitespace
  import opened ThreadTable
  import opened ThreadSession

  class ThreadStore {
    var rows: seq<Thread>
    var copies: map<string, bool>

    function View(): Session
      reads this
    {
      Session(rows, copies)
    }

    constructor ()
      ensures View() == Session([], map[]) && Tracks(rows, map[])
    {
      rows, copies := [], map[];
    }

    /** The update statement that clears the flag of every active thread of a chat. */
    method DeactivateAll(chat: string, now: int)
      modifies `rows
      ensures rows == Deactivate(old(rows), chat, now)
    {
      for i := 0 to |rows|
        invariant |rows| == |old(rows)|
        invariant forall k | 0 <= k < i :: rows[k] == Deactivated(old(rows)[k], chat, now)
        invariant forall k | i <= k < |rows| :: rows[k] == old(rows)[k]
      {
        if ActiveIn(rows[i], chat) {
          rows := rows[i := rows[i].(isActive := false, updatedAt := now)];
        }
      }
    }

    /** The first row with this reference, or the number of rows. */
    method Lookup(chat: string, ref: string) returns (i: nat)
      ensures i == Find(rows, chat, ref)
    {
      i := 0;
      while i < |rows| && !Named(rows[i], chat, ref)
        invariant i <= |rows|
        invariant forall k | 0 <= k < i :: !Named(rows[k], chat, ref)
      {
        i := i + 1;
      }
    }

    /** The active row that is newest in the order of the query, or the number of rows. */
    method LookupNewest(chat: string) returns (best: nat)
      ensures best == NewestActive(rows, chat)
    {
      hide ActiveIn, Newer;
      best := 0;
      for n := 0 to |rows|
        invariant best == NewestActive(rows[..n], chat)
      {
        assert rows[..n + 1][..n] == rows[..n];
        if ActiveIn(rows[n], chat) {
          if best >= n || !Newer(rows[best], rows[n]) {
            best := n;
          }
        } else if best >= n {
          best := n + 1;
        }
      }
      assert rows[..|rows|] == rows;
    }

    method CreateThread(chat: string, newId: string, now: int) returns (publicId: string)
      requires forall i | 0 <= i < |rows| :: rows[i].publicId != newId
      modifies this
      ensures View() == Perform(old(View()), Creates(chat, newId, now))
      ensures publicId == newId
      ensures AtMostOneActive(rows, chat) && Active(rows, chat, publicId)
      ensures OnlyTouches(old(rows), rows, chat)
    {
      SelectionHeals(rows, Create(chat, newId, now));
      ApplyTouches(rows, Create(chat, newId, now));
      DeactivateAll(chat, now);
      rows := rows + [Thread(newId, chat, true, Some(now), now)];
      copies := copies[newId := true];
      publicId := newId;
    }

    /** The row is loaded before the bulk update and refreshed after the commit. */
    method SetActiveThread(chat: string, ref: string, now: int) returns (reply: Reply)
      modifies this
      ensures var op := Selects(chat, ref, now);
              View() == Perform(old(View()), op) && reply == Answer(old(rows), CallOf(old(View()), op))
      ensures reply == NotFound ==> View() == old(View())
      ensures reply.Selected? ==> AtMostOneActive(rows, chat) && OnlyTouches(old(rows), rows, chat)
    {
      hide Strip, Find, AtMostOneActive, OnlyTouches;
      ghost var op := Selects(chat, ref, now);
      ghost var call := CallOf(View(), op);
      ApplyTouches(rows, call);
      WrittenIs(View(), chat, Strip(ref), true);
      if Answer(rows, call).Selected? {
        SelectionHeals(rows, call);
      }
      var id := Strip(ref);
      var i := Lookup(chat, id);
      if i == |rows| {
        return NotFound;
      }
      var held := if id in copies then copies[id] else rows[i].isActive;
      DeactivateAll(chat, now);
      if !held {
        rows := rows[i := rows[i].(isActive := true)];
      }
      rows := rows[i := rows[i].(lastActive := Some(now), updatedAt := now)];
      copies := copies[id := rows[i].isActive];
      reply := Selected(id);
    }

    method GetOrCreateActiveThread(chat: string, newId: string, now: int) returns (publicId: string)
      requires forall i | 0 <= i < |rows| :: rows[i].publicId != newId
      modifies this
      ensures var op := Resolves(chat, "", newId, now);
              && View() == Perform(old(View()), op)
              && Selected(publicId) == Answer(old(rows), CallOf(old(View()), op))
      ensures Active(rows, chat, publicId)
      ensures OnlyTouches(old(rows), rows, chat)
    {
      hide Strip, NewestActive;
      ApplyTouches(rows, CallOf(View(), Resolves(chat, "", newId, now)));
      var i := LookupNewest(chat);
      if i < |rows| {
        publicId := rows[i].publicId;
        copies := copies[publicId := if publicId in copies then copies[publicId] else rows[i].isActive];
        assert ActiveIn(rows[i], chat);
      } else {
        publicId := CreateThread(chat, newId, now);
      }
    }

    method ResolveThread(chat: string, ref: string, newId: string, now: int) returns (reply: Reply)
      requires forall i | 0 <= i < |rows| :: rows[i].publicId != newId
      modifies this
      ensures var op := Resolves(chat, ref, newId, now);
              View() == Perform(old(View()), op) && reply == Answer(old(rows), CallOf(old(View()), op))
      ensures OnlyTouches(old(rows), rows, chat)
    {
      hide Strip, Find, NewestActive, OnlyTouches;
      ApplyTouches(rows, CallOf(View(), Resolves(chat, ref, newId, now)));
      if ref != "" {
        if !("t_" <= Strip(ref)) {
          return InvalidReference;
        }
        reply := SetActiveThread(chat, Strip(ref), now);
      } else {
        var id := GetOrCreateActiveThread(chat, newId, now);
        reply := Selected(id);
      }
    }

    /** The copy is not refreshed here, and the commit leaves it as it was assigned. */
    method CloseThread(chat: string, ref: string, now: int) returns (closed: bool)
      modifies this
      ensures View() == Perform(old(View()), Closes(chat, ref, now))
      ensures closed <==> exists i :: 0 <= i < |old(rows)| && Named(old(rows)[i], chat, ref)
      ensures OnlyTouches(old(rows), rows, chat)
    {
      hide OnlyTouches;
      ApplyTouches(rows, CallOf(View(), Closes(chat, ref, now)));
      WrittenIs(View(), chat, ref, false);
      var i := Lookup(chat, ref);
      closed := i < |rows|;
      if closed {
        var held := if ref in copies then copies[ref] else rows[i].isActive;
        if held {
          rows := rows[i := rows[i].(isActive := false)];
        }
        rows := rows[i := rows[i].(updatedAt := now)];
        copies := copies[ref := false];
      }
    }

    method InactiveThreads(chat: string, threshold: int) returns (inactive: seq<string>)
      ensures inactive == IdleIds(rows, chat, threshold)
    {
      inactive := [];
      for i := 0 to |rows|
        invariant inactive == IdleIds(rows[..i], chat, threshold)
      {
        assert rows[..i + 1][..i] == rows[..i];
        if Idle(rows[i], chat, threshold) {
          inactive := inactive + [rows[i].publicId];
        }
      }
      assert rows[..|rows|] == rows;
    }

    method CleanupInactiveThreads(chat: string, threshold: int, now: int) returns (count: nat)
      modifies this
      ensures View() == Perform(old(View()), CleansUp(chat, threshold, now))
      ensures count == |IdleIds(old(rows), chat, threshold)|
      ensures OnlyTouches(old(rows), rows, chat) && |rows| == |old(rows)|
    {
      hide OnlyTouches, IdleIds, Find, CloseAll, CopiesAfter;
      ghost var before, op := View(), CleansUp(chat, threshold, now);
      ApplyTouches(rows, CallOf(before, op));
      var inactive := InactiveThreads(chat, threshold);
      for k := 0 to |inactive|
        invariant View() == CloseInOrder(before, chat, inactive[..k], now)
      {
        assert inactive[..k + 1][..k] == inactive[..k];
        var _ := CloseThread(chat, inactive[k], now);
      }
      assert inactive[..|inactive|] == inactive;
      CleanupIsInOrder(before, chat, threshold, now);
      assert rows == Apply(before.rows, CallOf(before, op));
      count := |inactive|;
    }
  }
}
