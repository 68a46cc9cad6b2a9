/** The table of memory cards with soft deletion (app/memory/memory_store_v15.py), and that
    it behaves as a map from (thread, category, key) to values. */
module MemoryTable {
  import opened Wrappers

  datatype Row = Row(
    id: nat,
    publicId: string,
    thread: int,
    category: string,
    key: string,
    value: string,
    confidence: real,
    source: Option<int>,
    deleted: bool,
    createdAt: int,
    updatedAt: int
  )

  /** The address of a card; category and key are normalised. */
  datatype Slot = Slot(thread: int, category: string, key: string)

  function SlotOf(r: Row): Slot {
    Slot(r.thread, r.category, r.key)
  }

  predicate LiveAt(r: Row, s: Slot) {
    !r.deleted && SlotOf(r) == s
  }

  predicate LiveAs(r: Row, thread: int, publicId: string) {
    !r.deleted && r.thread == thread && r.publicId == publicId
  }

  /** The index of the first live row of a slot, or the number of rows. */
  function FindSlot(rows: seq<Row>, s: Slot): (i: nat)
    ensures i <= |rows| && (i < |rows| ==> LiveAt(rows[i], s))
    ensures forall k | 0 <= k < i :: !LiveAt(rows[k], s)
  {
    if rows == [] || LiveAt(rows[0], s) then 0 else 1 + FindSlot(rows[1..], s)
  }

  function FindPublic(rows: seq<Row>, thread: int, publicId: string): (i: nat)
    ensures i <= |rows| && (i < |rows| ==> LiveAs(rows[i], thread, publicId))
    ensures forall k | 0 <= k < i :: !LiveAs(rows[k], thread, publicId)
  {
    if rows == [] || LiveAs(rows[0], thread, publicId) then 0 else 1 + FindPublic(rows[1..], thread, publicId)
  }

  /** One call on the table. `publicId` is the identifier drawn for a row that may have to
      be added; the slot and the value are already normalised. */
  datatype Call =
    | Upsert(slot: Slot, value: string, source: Option<int>, confidence: real, publicId: string, now: int)
    | SoftDelete(thread: int, publicId: string, now: int)

  function Apply(rows: seq<Row>, c: Call): seq<Row> {
    match c
    case Upsert(s, v, source, confidence, publicId, now) =>
      var i := FindSlot(rows, s);
      if i < |rows|
      then rows[i := rows[i].(value := v, confidence := confidence, source := source, updatedAt := now)]
      else rows + [Row(|rows| + 1, publicId, s.thread, s.category, s.key, v, confidence, source, false, now, now)]
    case SoftDelete(thread, publicId, now) =>
      var i := FindPublic(rows, thread, publicId);
      if i < |rows| then rows[i := rows[i].(deleted := true, updatedAt := now)] else rows
  }

  // ---- the map behind the table -----------------------------------------------------

  function Meaning(rows: seq<Row>): map<Slot, string> {
    if rows == [] then map[]
    else
      var r := rows[|rows| - 1];
      var m := Meaning(rows[..|rows| - 1]);
      if r.deleted then m else m[SlotOf(r) := r.value]
  }

  /** At most one live row per slot, and no public identifier twice. */
  ghost predicate Valid(rows: seq<Row>) {
    && (forall i, k | 0 <= i < k < |rows| && !rows[i].deleted && !rows[k].deleted ::
          SlotOf(rows[i]) != SlotOf(rows[k]))
    && (forall i, k | 0 <= i < k < |rows| :: rows[i].publicId != rows[k].publicId)
  }

  ghost predicate Fresh(rows: seq<Row>, c: Call) {
    c.Upsert? ==> forall i | 0 <= i < |rows| :: rows[i].publicId != c.publicId
  }

  /** Some live row of the slot has this value. */
  ghost predicate Holds(rows: seq<Row>, s: Slot, v: string) {
    exists i :: 0 <= i < |rows| && LiveAt(rows[i], s) && rows[i].value == v
  }

  ghost predicate Maps(m: map<Slot, string>, s: Slot, v: string) {
    s in m && m[s] == v
  }

  /** In a valid table the map holds exactly the live rows. */
  lemma {:induction false} MeaningIs(rows: seq<Row>, s: Slot, v: string)
    requires Valid(rows)
    ensures Maps(Meaning(rows), s, v) <==> Holds(rows, s, v)
  {
    if rows != [] {
      var n := |rows| - 1;
      var init := rows[..n];
      MeaningIs(init, s, v);
      if Holds(init, s, v) {
        var i :| 0 <= i < n && LiveAt(init[i], s) && init[i].value == v;
        assert LiveAt(rows[i], s) && rows[i].value == v;
        assert Holds(rows, s, v);
      }
      if LiveAt(rows[n], s) {
        assert rows[n].value == v ==> Holds(rows, s, v);
      }
      if Holds(rows, s, v) {
        var i :| 0 <= i < |rows| && LiveAt(rows[i], s) && rows[i].value == v;
        assert i < n ==> LiveAt(init[i], s) && init[i].value == v;
      }
    }
  }

  lemma SameMap(m: map<Slot, string>, n: map<Slot, string>)
    requires forall s, v :: Maps(m, s, v) <==> Maps(n, s, v)
    ensures m == n
  {
    forall s
      ensures s in m <==> s in n
      ensures s in m ==> m[s] == n[s]
    {
      if s in m {
        assert Maps(m, s, m[s]);
      }
      if s in n {
        assert Maps(n, s, n[s]);
      }
    }
  }

  lemma ApplyKeepsValid(rows: seq<Row>, c: Call)
    requires Valid(rows) && Fresh(rows, c)
    ensures Valid(Apply(rows, c))
  {
  }

  /** Every slot but the one written holds what it held. */
  lemma OthersHold(rows: seq<Row>, t: seq<Row>, i: nat, s: Slot, v: string)
    requires i < |t| && |rows| <= |t| <= |rows| + 1 && (|rows| < |t| ==> i == |rows|)
    requires forall k | 0 <= k < |rows| && k != i :: t[k] == rows[k]
    requires (i < |rows| ==> SlotOf(rows[i]) != s) && SlotOf(t[i]) != s
    ensures Holds(t, s, v) <==> Holds(rows, s, v)
  {
    if Holds(t, s, v) {
      var k :| 0 <= k < |t| && LiveAt(t[k], s) && t[k].value == v;
      assert LiveAt(rows[k], s) && rows[k].value == v;
    }
    if Holds(rows, s, v) {
      var k :| 0 <= k < |rows| && LiveAt(rows[k], s) && rows[k].value == v;
      assert LiveAt(t[k], s) && t[k].value == v;
    }
  }

  /** In a valid table a live row is all its slot holds. */
  lemma OneHolds(rows: seq<Row>, i: nat, v: string)
    requires Valid(rows) && i < |rows| && !rows[i].deleted
    ensures Holds(rows, SlotOf(rows[i]), v) <==> v == rows[i].value
  {
    assert LiveAt(rows[i], SlotOf(rows[i]));
  }

  /** Upsert is map update, whatever was stored or deleted before; a row is added exactly
      when the slot was empty. */
  lemma UpsertIsUpdate(rows: seq<Row>, c: Call)
    requires Valid(rows) && Fresh(rows, c) && c.Upsert?
    ensures Meaning(Apply(rows, c)) == Meaning(rows)[c.slot := c.value]
    ensures |Apply(rows, c)| == |rows| + (if c.slot in Meaning(rows) then 0 else 1)
  {
    var t, i := Apply(rows, c), FindSlot(rows, c.slot);
    ApplyKeepsValid(rows, c);
    assert SlotOf(t[i]) == c.slot && !t[i].deleted && t[i].value == c.value;
    var m, n := Meaning(t), Meaning(rows)[c.slot := c.value];
    forall s, v
      ensures Maps(m, s, v) <==> Maps(n, s, v)
    {
      MeaningIs(t, s, v);
      MeaningIs(rows, s, v);
      if s == c.slot {
        OneHolds(t, i, v);
      } else {
        OthersHold(rows, t, i, s, v);
      }
    }
    SameMap(m, n);
    if i < |rows| {
      MeaningIs(rows, c.slot, rows[i].value);
      OneHolds(rows, i, rows[i].value);
    } else if c.slot in Meaning(rows) {
      MeaningIs(rows, c.slot, Meaning(rows)[c.slot]);
    }
  }

  /** Soft deletion is map removal: of the slot of the row named, if it is live and of that
      thread; otherwise the table does not change. */
  lemma SoftDeleteIsRemoval(rows: seq<Row>, c: Call)
    requires Valid(rows) && c.SoftDelete?
    ensures var i := FindPublic(rows, c.thread, c.publicId);
            if i < |rows| then
              && SlotOf(rows[i]) in Meaning(rows)
              && Meaning(Apply(rows, c)) == Meaning(rows) - {SlotOf(rows[i])}
            else Apply(rows, c) == rows
  {
    var t, i := Apply(rows, c), FindPublic(rows, c.thread, c.publicId);
    if i < |rows| {
      ApplyKeepsValid(rows, c);
      var slot := SlotOf(rows[i]);
      var m, n := Meaning(t), Meaning(rows) - {slot};
      MeaningIs(rows, slot, rows[i].value);
      OneHolds(rows, i, rows[i].value);
      NoneHolds(rows, t, i);
      forall s, v
        ensures Maps(m, s, v) <==> Maps(n, s, v)
      {
        MeaningIs(t, s, v);
        MeaningIs(rows, s, v);
        if s != slot {
          OthersHold(rows, t, i, s, v);
        }
      }
      SameMap(m, n);
    }
  }

  lemma NoneHolds(rows: seq<Row>, t: seq<Row>, i: nat)
    requires Valid(rows) && i < |rows| && !rows[i].deleted && |t| == |rows| && t[i].deleted
    requires forall k | 0 <= k < |rows| && k != i :: t[k] == rows[k]
    ensures forall v :: !Holds(t, SlotOf(rows[i]), v)
  {
  }

  /** An upsert touches one row only: the live row of its slot, which keeps its identifiers and
      its creation time, or a row added for it, live and created now. */
  lemma UpsertRow(rows: seq<Row>, c: Call) returns (i: nat)
    requires c.Upsert?
    ensures var t := Apply(rows, c);
            && i < |t| && |t| == (if i < |rows| then |rows| else |rows| + 1)
            && (forall k | 0 <= k < |rows| && k != i :: t[k] == rows[k])
            && (i < |rows| <==> exists k: nat :: k < |rows| && LiveAt(rows[k], c.slot))
            && (i < |rows| ==>
                  && LiveAt(rows[i], c.slot)
                  && t[i] == rows[i].(value := c.value, confidence := c.confidence, source := c.source,
                                      updatedAt := c.now))
            && (i == |rows| ==>
                  t[i] == Row(|rows| + 1, c.publicId, c.slot.thread, c.slot.category, c.slot.key, c.value,
                              c.confidence, c.source, false, c.now, c.now))
  {
    i := FindSlot(rows, c.slot);
  }

  /** A soft deletion marks one row only, the live row of that thread and identifier, at the
      time of the call, and keeps all the rest of it. */
  lemma SoftDeleteRow(rows: seq<Row>, c: Call, i: nat)
    requires Valid(rows) && c.SoftDelete? && i < |rows| && rows[i].publicId == c.publicId
    ensures var t := Apply(rows, c);
            if rows[i].deleted || rows[i].thread != c.thread then t == rows
            else t == rows[i := rows[i].(deleted := true, updatedAt := c.now)]
  {
    var k := FindPublic(rows, c.thread, c.publicId);
    assert k < |rows| ==> k == i;
  }

  // ---- histories -----------------------------------------------------------------------

  ghost predicate Drawn(rows: seq<Row>, calls: seq<Call>)
    decreases |calls|
  {
    calls == [] || (Fresh(rows, calls[0]) && Drawn(Apply(rows, calls[0]), calls[1..]))
  }

  function After(rows: seq<Row>, calls: seq<Call>): seq<Row>
    decreases |calls|
  {
    if calls == [] then rows else After(Apply(rows, calls[0]), calls[1..])
  }

  /** One call keeps every row in its place, and deleted ones as they are. */
  lemma RowsStay(rows: seq<Row>, c: Call)
    ensures var t := Apply(rows, c);
            && |rows| <= |t|
            && (forall i | 0 <= i < |rows| :: SlotOf(t[i]) == SlotOf(rows[i]) && t[i].publicId == rows[i].publicId)
            && (forall i | 0 <= i < |rows| && rows[i].deleted :: t[i] == rows[i])
  {
  }

  /** Over every sequence of calls, as long as drawn identifiers are new, each slot has at
      most one live row, no row disappears, none changes its slot or identifier, and a
      deleted row never changes again. */
  lemma {:induction false} History(rows: seq<Row>, calls: seq<Call>)
    requires Valid(rows) && Drawn(rows, calls)
    ensures var t := After(rows, calls);
            && Valid(t) && |rows| <= |t|
            && (forall i | 0 <= i < |rows| :: SlotOf(t[i]) == SlotOf(rows[i]) && t[i].publicId == rows[i].publicId)
            && (forall i | 0 <= i < |rows| && rows[i].deleted :: t[i] == rows[i])
    decreases |calls|
  {
    hide Apply, Valid, Fresh;
    if calls != [] {
      ApplyKeepsValid(rows, calls[0]);
      RowsStay(rows, calls[0]);
      History(Apply(rows, calls[0]), calls[1..]);
    }
  }

  // ---- counts ----------------------------------------------------------------------------

  predicate CountedIn(r: Row, thread: int, category: string) {
    !r.deleted && r.thread == thread && r.category == category
  }

  function Count(rows: seq<Row>, thread: int, category: string): nat {
    if rows == [] then 0
    else Count(rows[..|rows| - 1], thread, category) + (if CountedIn(rows[|rows| - 1], thread, category) then 1 else 0)
  }

  /** The rows of a thread and category that are not deleted. */
  function LiveIn(rows: seq<Row>, thread: int, category: string): set<nat> {
    set i: nat | i < |rows| && !rows[i].deleted && rows[i].thread == thread && rows[i].category == category
  }

  lemma {:induction false} CountIs(rows: seq<Row>, thread: int, category: string)
    ensures Count(rows, thread, category) == |LiveIn(rows, thread, category)|
  {
    if rows != [] {
      var n := |rows| - 1;
      CountIs(rows[..n], thread, category);
      var before := LiveIn(rows[..n], thread, category);
      if CountedIn(rows[n], thread, category) {
        assert LiveIn(rows, thread, category) == before + {n};
      } else {
        assert LiveIn(rows, thread, category) == before;
      }
    }
  }

  lemma CountsAre(rows: seq<Row>, thread: int)
    ensures forall c :: Count(rows, thread, c) == |LiveIn(rows, thread, c)|
    ensures forall c :: Count(rows, thread, c) > 0 <==> LiveIn(rows, thread, c) != {}
  {
    forall c
      ensures Count(rows, thread, c) == |LiveIn(rows, thread, c)|
    {
      CountIs(rows, thread, c);
    }
  }

  function LiveCount(rows: seq<Row>, thread: int): nat {
    if rows == [] then 0
    else
      var r := rows[|rows| - 1];
      LiveCount(rows[..|rows| - 1], thread) + (if !r.deleted && r.thread == thread then 1 else 0)
  }

  ghost function Sum(m: map<string, nat>): nat
    decreases |m|
  {
    if m == map[] then 0
    else var k :| k in m; m[k] + Sum(m - {k})
  }

  lemma {:induction false} SumRemove(m: map<string, nat>, k: string)
    requires k in m
    ensures Sum(m) == m[k] + Sum(m - {k})
    decreases |m|
  {
    var j :| j in m && Sum(m) == m[j] + Sum(m - {j});
    if j != k {
      SumRemove(m - {j}, k);
      SumRemove(m - {k}, j);
      assert m - {j} - {k} == m - {k} - {j};
    }
  }

  lemma SumOfNone()
    ensures Sum(map[]) == 0
  {
  }

  lemma SumBump(m: map<string, nat>, k: string)
    ensures Sum(m[k := (if k in m then m[k] else 0) + 1]) == Sum(m) + 1
  {
    var n := m[k := (if k in m then m[k] else 0) + 1];
    SumRemove(n, k);
    if k in m {
      SumRemove(m, k);
      assert n - {k} == m - {k};
    } else {
      assert n - {k} == m;
    }
  }

  lemma LastSlotIsNew(rows: seq<Row>)
    requires Valid(rows) && rows != [] && !rows[|rows| - 1].deleted
    ensures SlotOf(rows[|rows| - 1]) !in Meaning(rows[..|rows| - 1])
  {
    var n := |rows| - 1;
    var init, slot := rows[..n], SlotOf(rows[n]);
    assert forall i | 0 <= i < n :: init[i] == rows[i] && !LiveAt(init[i], slot);
    if slot in Meaning(init) {
      MeaningIs(init, slot, Meaning(init)[slot]);
      assert false;
    }
  }

  function SlotsOf(rows: seq<Row>, thread: int): set<Slot> {
    set s | s in Meaning(rows) && s.thread == thread
  }

  lemma SlotsStep(rows: seq<Row>, thread: int)
    requires rows != []
    ensures var r, before := rows[|rows| - 1], SlotsOf(rows[..|rows| - 1], thread);
            SlotsOf(rows, thread) == if !r.deleted && r.thread == thread then before + {SlotOf(r)} else before
  {
  }

  /** The live rows of a thread are as many as the slots the map has for it. */
  lemma {:induction false} LiveCountIsSlots(rows: seq<Row>, thread: int)
    requires Valid(rows)
    ensures LiveCount(rows, thread) == |SlotsOf(rows, thread)|
  {
    if rows != [] {
      LiveCountIsSlots(rows[..|rows| - 1], thread);
      SlotsStep(rows, thread);
      if !rows[|rows| - 1].deleted {
        LastSlotIsNew(rows);
      }
    }
  }

  // ---- the store ---------------------------------------------------------------------------

  /** `normalize` strips and lower-cases, `trim` only strips; both are left open. */
  class MemoryStore {
    var rows: seq<Row>
    const normalize: string -> string
    const trim: string -> string

    constructor (normalize: string -> string, trim: string -> string)
      ensures rows == [] && this.normalize == normalize && this.trim == trim
    {
      this.normalize, this.trim := normalize, trim;
      rows := [];
    }

    method UpsertMemory(thread: int, category: string, key: string, value: string, source: Option<int>,
                        confidence: real, publicId: string, now: int)
      returns (row: Row, added: bool)
      requires Valid(rows)
      requires forall i | 0 <= i < |rows| :: rows[i].publicId != publicId
      modifies this
      ensures var slot := Slot(thread, normalize(category), normalize(key));
              && rows == Apply(old(rows), Upsert(slot, trim(value), source, confidence, publicId, now))
              && Valid(rows)
              && Meaning(rows) == Meaning(old(rows))[slot := trim(value)]
              && (added <==> slot !in Meaning(old(rows)))
              && row in rows && LiveAt(row, slot) && row.value == trim(value)
    {
      var slot := Slot(thread, normalize(category), normalize(key));
      ghost var call := Upsert(slot, trim(value), source, confidence, publicId, now);
      UpsertIsUpdate(rows, call);
      ApplyKeepsValid(rows, call);
      var i := 0;
      while i < |rows| && !LiveAt(rows[i], slot)
        invariant i <= |rows|
        invariant forall k | 0 <= k < i :: !LiveAt(rows[k], slot)
      {
        i := i + 1;
      }
      added := i == |rows|;
      if added {
        row := Row(|rows| + 1, publicId, thread, slot.category, slot.key, trim(value), confidence, source,
                   false, now, now);
        rows := rows + [row];
      } else {
        row := rows[i].(value := trim(value), confidence := confidence, source := source, updatedAt := now);
        rows := rows[i := row];
      }
      assert rows[i] == row;
    }

    method SoftDeleteMemory(thread: int, publicId: string, now: int) returns (deleted: bool)
      requires Valid(rows)
      modifies this
      ensures rows == Apply(old(rows), SoftDelete(thread, trim(publicId), now)) && Valid(rows)
      ensures deleted <==> exists i :: 0 <= i < |old(rows)| && LiveAs(old(rows)[i], thread, trim(publicId))
      ensures deleted ==> exists s: Slot ::
        s.thread == thread && s in Meaning(old(rows)) && Meaning(rows) == Meaning(old(rows)) - {s}
    {
      var id := trim(publicId);
      SoftDeleteIsRemoval(rows, SoftDelete(thread, id, now));
      ApplyKeepsValid(rows, SoftDelete(thread, id, now));
      var i := 0;
      while i < |rows| && !LiveAs(rows[i], thread, id)
        invariant i <= |rows|
        invariant forall k | 0 <= k < i :: !LiveAs(rows[k], thread, id)
      {
        i := i + 1;
      }
      if i == |rows| {
        return false;
      }
      rows := rows[i := rows[i].(deleted := true, updatedAt := now)];
      return true;
    }

    /** Counts the live rows of a thread per category: no category is missing or empty, each
        count is right, and together they are the slots the map has for the thread. */
    method StatsByCategory(thread: int) returns (stats: map<string, nat>)
      requires Valid(rows)
      ensures forall c :: c in stats <==> LiveIn(rows, thread, c) != {}
      ensures forall c | c in stats :: stats[c] == |LiveIn(rows, thread, c)|
      ensures Sum(stats) == |SlotsOf(rows, thread)|
    {
      hide SlotsOf, LiveIn, Sum, Valid;
      CountsAre(rows, thread);
      SumOfNone();
      stats := map[];
      for i := 0 to |rows|
        invariant forall c :: c in stats <==> Count(rows[..i], thread, c) > 0
        invariant forall c | c in stats :: stats[c] == Count(rows[..i], thread, c)
        invariant Sum(stats) == LiveCount(rows[..i], thread)
      {
        var r := rows[i];
        assert rows[..i + 1][..i] == rows[..i];
        if !r.deleted && r.thread == thread {
          SumBump(stats, r.category);
          stats := stats[r.category := (if r.category in stats then stats[r.category] else 0) + 1];
        }
      }
      assert rows[..|rows|] == rows;
      LiveCountIsSlots(rows, thread);
    }
  }
}
