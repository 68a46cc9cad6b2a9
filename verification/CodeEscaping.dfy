/** The adapter's escaper that leaves code alone (app/interfaces/adapters.py). */
module CodeEscaping {
  import opened Escaping

  predicate FenceAt(s: string, i: nat) {
    i + 3 <= |s| && s[i] == '`' && s[i + 1] == '`' && s[i + 2] == '`'
  }

  /** The first backtick from `from` on, or the length. */
  function FindTick(s: string, from: nat): (r: nat)
    requires from <= |s|
    ensures from <= r <= |s| && (r < |s| ==> s[r] == '`')
    ensures forall k | from <= k < r :: s[k] != '`'
    decreases |s| - from
  {
    if from == |s| || s[from] == '`' then from else FindTick(s, from + 1)
  }

  /** The first fence of three backticks from `from` on, or the length. */
  function FindFence(s: string, from: nat): (r: nat)
    requires from <= |s|
    ensures from <= r <= |s| && (r < |s| ==> FenceAt(s, r))
    ensures forall k | from <= k < r :: !FenceAt(s, k)
    decreases |s| - from
  {
    if from == |s| || FenceAt(s, from) then from else FindFence(s, from + 1)
  }

  /** A stretch of text that is escaped, or one that is passed on as it is. */
  datatype Segment = Plain(text: string) | Verbatim(text: string)

  /** Outside code: everything up to the next backtick is escaped. */
  function Outside(s: string): seq<Segment>
    decreases |s|, 1
  {
    var b := FindTick(s, 0);
    if b == |s| then [Plain(s)]
    else if FenceAt(s, b) then [Plain(s[..b])] + Block(s[b..])
    else [Plain(s[..b])] + Inline(s[b..])
  }

  /** Inline code runs to the next backtick, or to the end. */
  function Inline(s: string): seq<Segment>
    requires s != ""
    decreases |s|, 0
  {
    var c := FindTick(s, 1);
    if c == |s| then [Verbatim(s)] else [Verbatim(s[..c + 1])] + Outside(s[c + 1..])
  }

  /** A block runs to the closing fence, and what follows is passed on as well, up to and
      including one more fence, or to the end. */
  function Block(s: string): seq<Segment>
    requires FenceAt(s, 0)
    decreases |s|, 0
  {
    var f := FindFence(s, 3);
    if f == |s| then [Verbatim(s)]
    else
      var g := FindFence(s, f + 3);
      if g == |s| then [Verbatim(s[..f]), Verbatim(s[f..])]
      else [Verbatim(s[..f]), Verbatim(s[f..g + 3])] + Outside(s[g + 3..])
  }

  function Flatten(segments: seq<Segment>): string {
    if segments == [] then "" else segments[0].text + Flatten(segments[1..])
  }

  function Render(segments: seq<Segment>): string {
    if segments == [] then ""
    else (if segments[0].Plain? then Escape(segments[0].text, SPECIALS) else segments[0].text)
         + Render(segments[1..])
  }

  /** `t` is `s` with backslashes put before some of its special characters. */
  predicate OnlyEscapes(s: string, t: string) {
    if s == "" then t == ""
    else if t != "" && t[0] == s[0] && OnlyEscapes(s[1..], t[1..]) then true
    else s[0] in SPECIALS && |t| > 1 && t[0] == '\\' && t[1] == s[0] && OnlyEscapes(s[1..], t[2..])
  }

  // ---- the segments are the text ------------------------------------------------------

  lemma FlattenCons(x: Segment, rest: seq<Segment>)
    ensures Flatten([x] + rest) == x.text + Flatten(rest)
    ensures Render([x] + rest) == (if x.Plain? then Escape(x.text, SPECIALS) else x.text) + Render(rest)
  {
    assert ([x] + rest)[1..] == rest;
  }

  lemma FlattenTwo(x: Segment, y: Segment, rest: seq<Segment>)
    requires x.Verbatim? && y.Verbatim?
    ensures Flatten([x, y] + rest) == x.text + (y.text + Flatten(rest))
    ensures Render([x, y] + rest) == x.text + (y.text + Render(rest))
  {
    assert [x, y] + rest == [x] + ([y] + rest);
    FlattenCons(x, [y] + rest);
    FlattenCons(y, rest);
  }

  lemma OneSegment(x: Segment)
    ensures Flatten([x]) == x.text
    ensures Render([x]) == if x.Plain? then Escape(x.text, SPECIALS) else x.text
  {
    FlattenCons(x, []);
    assert [x] + [] == [x];
  }

  /** Cut into segments and put together again, a text is what it was. */
  lemma {:induction false} SegmentsAreTheText(s: string)
    ensures Flatten(Outside(s)) == s
    decreases |s|, 1
  {
    var b := FindTick(s, 0);
    if b == |s| {
      OneSegment(Plain(s));
    } else {
      assert s == s[..b] + s[b..];
      if FenceAt(s, b) {
        BlockIsTheText(s[b..]);
        FlattenCons(Plain(s[..b]), Block(s[b..]));
      } else {
        InlineIsTheText(s[b..]);
        FlattenCons(Plain(s[..b]), Inline(s[b..]));
      }
    }
  }

  lemma {:induction false} InlineIsTheText(s: string)
    requires s != ""
    ensures Flatten(Inline(s)) == s
    decreases |s|, 0
  {
    var c := FindTick(s, 1);
    if c == |s| {
      OneSegment(Verbatim(s));
    } else {
      SegmentsAreTheText(s[c + 1..]);
      FlattenCons(Verbatim(s[..c + 1]), Outside(s[c + 1..]));
      assert s == s[..c + 1] + s[c + 1..];
    }
  }

  lemma {:induction false} BlockIsTheText(s: string)
    requires FenceAt(s, 0)
    ensures Flatten(Block(s)) == s
    decreases |s|, 0
  {
    hide FenceAt, Outside, Flatten;
    FenceFits(s, 0);
    var f := FindFence(s, 3);
    if f == |s| {
      OneSegment(Verbatim(s));
    } else {
      FenceFits(s, f);
      var g := FindFence(s, f + 3);
      if g == |s| {
        FlattenTwo(Verbatim(s[..f]), Verbatim(s[f..]), []);
        EmptyFlatten();
        assert [Verbatim(s[..f]), Verbatim(s[f..])] + [] == [Verbatim(s[..f]), Verbatim(s[f..])];
        assert s == s[..f] + (s[f..] + "");
      } else {
        FenceFits(s, g);
        SegmentsAreTheText(s[g + 3..]);
        FlattenTwo(Verbatim(s[..f]), Verbatim(s[f..g + 3]), Outside(s[g + 3..]));
        assert s == s[..f] + (s[f..g + 3] + s[g + 3..]);
      }
    }
  }

  lemma EmptyFlatten()
    ensures Flatten([]) == "" && Render([]) == ""
  {
  }

  lemma FenceFits(s: string, i: nat)
    requires FenceAt(s, i)
    ensures i + 3 <= |s|
  {
  }

  // ---- nothing is lost or reordered -----------------------------------------------------

  lemma {:induction false} SameOnlyEscapes(s: string)
    ensures OnlyEscapes(s, s)
  {
    if s != "" {
      SameOnlyEscapes(s[1..]);
    }
  }

  lemma {:induction false} EscapeOnlyEscapes(s: string)
    ensures OnlyEscapes(s, Escape(s, SPECIALS))
  {
    if s != "" {
      EscapeOnlyEscapes(s[1..]);
      var t := Escape(s, SPECIALS);
      if s[0] in SPECIALS {
        assert t[2..] == Escape(s[1..], SPECIALS);
      } else {
        assert t[1..] == Escape(s[1..], SPECIALS);
      }
    }
  }

  lemma {:induction false} OnlyEscapesConcat(s: string, t: string, s': string, t': string)
    requires OnlyEscapes(s, t) && OnlyEscapes(s', t')
    ensures OnlyEscapes(s + s', t + t')
  {
    if s == "" {
      assert s + s' == s' && t + t' == t';
    } else {
      assert (s + s')[1..] == s[1..] + s';
      if t[0] == s[0] && OnlyEscapes(s[1..], t[1..]) {
        OnlyEscapesConcat(s[1..], t[1..], s', t');
        assert (t + t')[1..] == t[1..] + t';
      } else {
        OnlyEscapesConcat(s[1..], t[2..], s', t');
        assert (t + t')[2..] == t[2..] + t';
      }
    }
  }

  lemma {:induction false} RenderOnlyEscapes(segments: seq<Segment>)
    ensures OnlyEscapes(Flatten(segments), Render(segments))
  {
    if segments != [] {
      var x := segments[0];
      RenderOnlyEscapes(segments[1..]);
      if x.Plain? {
        EscapeOnlyEscapes(x.text);
        OnlyEscapesConcat(x.text, Escape(x.text, SPECIALS), Flatten(segments[1..]), Render(segments[1..]));
      } else {
        SameOnlyEscapes(x.text);
        OnlyEscapesConcat(x.text, x.text, Flatten(segments[1..]), Render(segments[1..]));
      }
    }
  }

  /** The output is the input with backslashes put before special characters, and nothing
      else: no character is lost, changed or moved. */
  lemma NothingLost(text: string)
    ensures OnlyEscapes(text, Render(Outside(text)))
  {
    SegmentsAreTheText(text);
    RenderOnlyEscapes(Outside(text));
  }

  // ---- the escaper -------------------------------------------------------------------

  function Join(parts: seq<string>): string {
    if parts == [] then "" else Join(parts[..|parts| - 1]) + parts[|parts| - 1]
  }

  lemma JoinAdd(parts: seq<string>, part: string)
    ensures Join(parts + [part]) == Join(parts) + part
  {
    assert (parts + [part])[..|parts|] == parts;
  }

  datatype Mode = InText | InInline | InBlock

  /** What is still to come out when `s` starts at the segment being read. */
  ghost function Pending(mode: Mode, s: string): string {
    match mode
    case InText => Render(Outside(s))
    case InInline => if s != "" then Render(Inline(s)) else ""
    case InBlock => if FenceAt(s, 0) then Render(Block(s)) else ""
  }

  /** The segment being read is text[from..i]; nothing in it ends it. */
  ghost predicate Reading(mode: Mode, text: string, from: nat, i: nat) {
    && from <= i <= |text|
    && (mode == InText ==> forall k | from <= k < i :: text[k] != '`')
    && (mode == InInline ==> from < i && text[from] == '`' && forall k | from < k < i :: text[k] != '`')
    && (mode == InBlock ==> FenceAt(text, from) && from + 3 <= i && forall k | from + 3 <= k < i :: !FenceAt(text, k))
  }

  lemma FenceShift(text: string, from: nat, k: nat)
    requires from <= |text|
    ensures FenceAt(text[from..], k) <==> FenceAt(text, from + k)
  {
  }

  lemma TickShift(text: string, from: nat, at: nat)
    requires from <= at <= |text|
    ensures FindTick(text[from..], at - from) == FindTick(text, at) - from
  {
    var s := text[from..];
    assert forall k | 0 <= k < |s| :: s[k] == text[from + k];
  }

  lemma FenceFindShift(text: string, from: nat, at: nat)
    requires from <= at <= |text|
    ensures FindFence(text[from..], at - from) == FindFence(text, at) - from
  {
    hide FenceAt;
    var r, r' := FindFence(text[from..], at - from), FindFence(text, at);
    FenceShift(text, from, r);
    FenceShift(text, from, r' - from);
  }

  /** Text ends at a backtick, which opens a block or inline code, or at the end. */
  lemma TextEnds(text: string, from: nat, i: nat)
    requires Reading(InText, text, from, i)
    ensures i == |text| ==> Pending(InText, text[from..]) == Escape(text[from..i], SPECIALS)
    ensures i < |text| && FenceAt(text, i)
        ==> Pending(InText, text[from..]) == Escape(text[from..i], SPECIALS) + Pending(InBlock, text[i..])
    ensures i < |text| && text[i] == '`' && !FenceAt(text, i)
        ==> Pending(InText, text[from..]) == Escape(text[from..i], SPECIALS) + Pending(InInline, text[i..])
  {
    hide Escape, Inline, Block, Flatten;
    var s := text[from..];
    TickShift(text, from, from);
    if i == |text| {
      assert text[from..i] == s;
      OneSegment(Plain(s));
    } else if text[i] == '`' {
      var b := i - from;
      assert FindTick(s, 0) == b;
      assert s[..b] == text[from..i] && s[b..] == text[i..];
      FenceShift(text, from, b);
      FenceShift(text, i, 0);
      if FenceAt(text, i) {
        FlattenCons(Plain(s[..b]), Block(s[b..]));
      } else {
        FlattenCons(Plain(s[..b]), Inline(s[b..]));
      }
    }
  }

  lemma InlineEnds(text: string, from: nat, i: nat)
    requires Reading(InInline, text, from, i)
    ensures i == |text| ==> Pending(InInline, text[from..]) == text[from..i]
    ensures i < |text| && text[i] == '`'
        ==> Pending(InInline, text[from..]) == text[from..i + 1] + Pending(InText, text[i + 1..])
  {
    hide Escape, Outside, Block, Flatten;
    var s := text[from..];
    TickShift(text, from, from + 1);
    if i == |text| {
      assert text[from..i] == s;
      OneSegment(Verbatim(s));
    } else if text[i] == '`' {
      var c := i - from;
      assert FindTick(s, 1) == c;
      assert s[..c + 1] == text[from..i + 1] && s[c + 1..] == text[i + 1..];
      FlattenCons(Verbatim(s[..c + 1]), Outside(s[c + 1..]));
    }
  }

  lemma BlockRenderOpen(s: string)
    requires FenceAt(s, 0) && FindFence(s, 3) == |s|
    ensures Render(Block(s)) == s
  {
    hide FindFence, Render;
    OneSegment(Verbatim(s));
  }

  lemma BlockRenderLast(s: string, f: nat)
    requires FenceAt(s, 0) && f == FindFence(s, 3) < |s| && f + 3 <= |s| == FindFence(s, f + 3)
    ensures Render(Block(s)) == s[..f] + s[f..]
  {
    hide FindFence, Render;
    FlattenTwo(Verbatim(s[..f]), Verbatim(s[f..]), []);
    EmptyFlatten();
    assert [Verbatim(s[..f]), Verbatim(s[f..])] + [] == [Verbatim(s[..f]), Verbatim(s[f..])];
    assert s[f..] + "" == s[f..];
  }

  lemma BlockRenderNext(s: string, f: nat, next: nat)
    requires FenceAt(s, 0) && f == FindFence(s, 3) && f + 3 <= |s|
    requires FindFence(s, f + 3) < |s| && next == FindFence(s, f + 3) + 3 <= |s|
    ensures Render(Block(s)) == s[..f] + (s[f..next] + Render(Outside(s[next..])))
  {
    hide FindFence, Render, Outside;
    FlattenTwo(Verbatim(s[..f]), Verbatim(s[f..next]), Outside(s[next..]));
  }

  lemma SliceShift(text: string, from: nat, i: nat, k: nat)
    requires from <= i <= k <= |text|
    ensures var s := text[from..];
            s[..i - from] == text[from..i] && s[i - from..k - from] == text[i..k] && s[k - from..] == text[k..]
  {
  }

  lemma RenderShifted(text: string, from: nat, i: nat, next: nat)
    requires from <= i && i + 3 <= next <= |text| && FenceAt(text[from..], 0)
    requires FindFence(text[from..], 3) == i - from && FindFence(text[from..], i - from + 3) == next - 3 - from
    ensures Render(Block(text[from..])) == text[from..i] + (text[i..next] + Render(Outside(text[next..])))
  {
    hide *;
    SliceShift(text, from, i, next);
    BlockRenderNext(text[from..], i - from, next - from);
  }

  lemma LastShifted(text: string, from: nat, i: nat)
    requires from <= i && i + 3 <= |text| && FenceAt(text[from..], 0)
    requires FindFence(text[from..], 3) == i - from && FindFence(text[from..], i - from + 3) == |text| - from
    ensures Render(Block(text[from..])) == text[from..i] + text[i..]
  {
    hide *;
    SliceShift(text, from, i, i);
    BlockRenderLast(text[from..], i - from);
  }

  /** The block that starts at `from` is first met by a fence at i. */
  lemma BlockPlaces(text: string, from: nat, i: nat)
    requires Reading(InBlock, text, from, i) && (i < |text| ==> FenceAt(text, i))
    ensures from + 3 <= i <= |text| && FenceAt(text[from..], 0) && FindFence(text[from..], 3) == i - from
    ensures Pending(InBlock, text[from..]) == Render(Block(text[from..]))
    ensures i < |text| ==> i + 3 <= |text| && FindFence(text[from..], i - from + 3) == FindFence(text, i + 3) - from
    ensures i < |text| && FindFence(text, i + 3) < |text| ==> FindFence(text, i + 3) + 3 <= |text|
  {
    hide Block, Render, FindFence;
    FenceFindShift(text, from, from + 3);
    if i < |text| {
      FenceFindShift(text, from, i + 3);
    }
  }

  /** A block that is not closed runs to the end. */
  lemma BlockOpen(text: string, from: nat)
    requires Reading(InBlock, text, from, |text|)
    ensures from <= |text| && Pending(InBlock, text[from..]) == text[from..|text|]
  {
    BlockPlaces(text, from, |text|);
    hide *;
    BlockRenderOpen(text[from..]);
    SliceShift(text, from, |text|, |text|);
  }

  /** A block closed at i, with what follows passed on to the next fence, or to the end. */
  lemma BlockEnds(text: string, from: nat, i: nat, next: nat)
    requires Reading(InBlock, text, from, i) && FenceAt(text, i) && from <= i && i + 3 <= |text|
    requires next == AfterBlock(text, i)
    ensures Pending(InBlock, text[from..]) == text[from..i] + (text[i..next] + Pending(InText, text[next..]))
  {
    NextFence(text, i + 3, next);
    hide *;
    if FindFence(text, i + 3) < |text| {
      BlockMore(text, from, i, next);
    } else {
      BlockNoMore(text, from, i);
    }
  }

  lemma BlockMore(text: string, from: nat, i: nat, next: nat)
    requires Reading(InBlock, text, from, i) && FenceAt(text, i) && from <= i && i + 3 <= |text|
    requires FindFence(text, i + 3) < |text| && next == FindFence(text, i + 3) + 3
    ensures next <= |text|
    ensures Pending(InBlock, text[from..]) == text[from..i] + (text[i..next] + Pending(InText, text[next..]))
  {
    BlockPlaces(text, from, i);
    hide *;
    TextIsPending(text[next..]);
    RenderShifted(text, from, i, next);
  }

  lemma BlockNoMore(text: string, from: nat, i: nat)
    requires Reading(InBlock, text, from, i) && FenceAt(text, i) && from <= i
    requires i + 3 <= |text| == FindFence(text, i + 3)
    ensures Pending(InBlock, text[from..])
         == text[from..i] + (text[i..|text|] + Pending(InText, text[|text|..]))
  {
    BlockPlaces(text, from, i);
    hide *;
    LastShifted(text, from, i);
    NothingLeft(text);
    ToTheEnd(text, i);
  }

  /** Where reading goes on once a block has been closed at i. */
  function AfterBlock(text: string, i: nat): (next: nat)
    requires i + 3 <= |text|
    ensures i + 3 <= next <= |text|
  {
    var g := FindFence(text, i + 3);
    if g == |text| then g else g + 3
  }

  lemma NextFence(s: string, c: nat, next: nat)
    requires 3 <= c <= |s| && next == AfterBlock(s, c - 3)
    ensures next == if FindFence(s, c) == |s| then |s| else FindFence(s, c) + 3
    ensures c <= next <= |s|
  {
  }

  lemma ToTheEnd(s: string, a: nat)
    requires a <= |s|
    ensures s[a..|s|] + "" == s[a..]
  {
  }

  lemma TextIsPending(s: string)
    ensures Pending(InText, s) == Render(Outside(s))
  {
  }

  lemma ReadingStarts(text: string, i: nat)
    requires i <= |text|
    ensures Reading(InText, text, i, i)
    ensures FenceAt(text, i) ==> i + 3 <= |text| && Reading(InBlock, text, i, i + 3)
    ensures i < |text| && text[i] == '`' ==> Reading(InInline, text, i, i + 1)
  {
  }

  lemma ReadingGoesOn(mode: Mode, text: string, from: nat, i: nat)
    requires Reading(mode, text, from, i)
    ensures from <= i <= |text|
    ensures i < |text| && (if mode == InBlock then !FenceAt(text, i) else text[i] != '`')
        ==> Reading(mode, text, from, i + 1)
    ensures FenceAt(text, i) ==> i + 3 <= |text| && text[i] == '`'
  {
  }

  /** What is out and what is pending make up the whole result. */
  ghost predicate Progress(parts: seq<string>, mode: Mode, text: string, from: nat) {
    from <= |text| && Join(parts) + Pending(mode, text[from..]) == Render(Outside(text))
  }

  lemma Begin(text: string)
    ensures Progress([], InText, text, 0) && Reading(InText, text, 0, 0)
  {
    assert text[0..] == text;
  }

  lemma LeaveText(parts: seq<string>, text: string, from: nat, i: nat)
    requires Reading(InText, text, from, i) && Progress(parts, InText, text, from)
    requires i < |text| && text[i] == '`'
    ensures Progress(parts + [Escape(text[from..i], SPECIALS)], if FenceAt(text, i) then InBlock else InInline, text, i)
  {
    hide Escape, Outside, Render, Pending, FenceAt, Join;
    TextEnds(text, from, i);
    JoinAdd(parts, Escape(text[from..i], SPECIALS));
  }

  lemma LeaveInline(parts: seq<string>, text: string, from: nat, i: nat)
    requires Reading(InInline, text, from, i) && Progress(parts, InInline, text, from)
    requires i < |text| && text[i] == '`'
    ensures Progress(parts + [text[from..i + 1]], InText, text, i + 1)
  {
    hide Escape, Outside, Render, Pending, FenceAt, Join;
    InlineEnds(text, from, i);
    JoinAdd(parts, text[from..i + 1]);
  }

  lemma LeaveBlock(parts: seq<string>, text: string, from: nat, i: nat)
    requires Reading(InBlock, text, from, i) && Progress(parts, InBlock, text, from)
    requires FenceAt(text, i)
    ensures var next := AfterBlock(text, i);
            Progress(parts + [text[from..i]] + [text[i..next]], InText, text, next)
  {
    ReadingGoesOn(InBlock, text, from, i);
    hide Escape, Outside, Render, Pending, Join, FenceAt, Reading, AfterBlock;
    var next := AfterBlock(text, i);
    BlockEnds(text, from, i, next);
    JoinAdd(parts, text[from..i]);
    JoinAdd(parts + [text[from..i]], text[i..next]);
    Regroup(Join(parts), text[from..i], text[i..next], Pending(InText, text[next..]));
  }

  lemma Regroup(a: string, b: string, c: string, d: string)
    ensures a + (b + (c + d)) == a + b + c + d
    ensures c + "" == c
  {
  }

  lemma NothingLeft(text: string)
    ensures Pending(InText, text[|text|..]) == ""
  {
    TextEnds(text, |text|, |text|);
  }

  lemma Finished(parts: seq<string>, text: string, from: nat, mode: Mode)
    requires Reading(mode, text, from, |text|) && Progress(parts, mode, text, from)
    ensures var last := text[from..|text|];
            && Join(parts + [if mode == InText then Escape(last, SPECIALS) else last]) == Render(Outside(text))
            && (last == "" ==> Join(parts) == Render(Outside(text)))
  {
    var last := text[from..|text|];
    JoinAdd(parts, if mode == InText then Escape(last, SPECIALS) else last);
    match mode
    case InText => TextEnds(text, from, |text|);
    case InInline => InlineEnds(text, from, |text|);
    case InBlock => BlockOpen(text, from);
  }

  lemma SliceJoin(text: string, a: nat, b: nat, c: nat)
    requires a <= b <= c <= |text|
    ensures text[a..b] + text[b..c] == text[a..c]
    ensures c == b + 1 ==> text[b..c] == [text[b]]
    ensures text[b..] == text[b..|text|]
  {
  }

  function ModeOf(inBlock: bool, inInline: bool): Mode {
    if inBlock then InBlock else if inInline then InInline else InText
  }

  /** From a closing fence on, everything up to and including the next fence. */
  method CloseBlock(text: string, i: nat) returns (passed: string, next: nat)
    requires i + 3 <= |text|
    ensures next == AfterBlock(text, i) && passed == text[i..next]
  {
    hide FindFence, FenceAt;
    passed := text[i..i + 3];
    next := i + 3;
    var end := FindFence(text, next);
    if end == |text| {
      passed := passed + text[next..];
      next := |text|;
    } else {
      FenceFits(text, end);
      passed := passed + text[next..end + 3];
      next := end + 3;
    }
    SliceJoin(text, i, i + 3, next);
  }

  /** The character-by-character scan puts out exactly the rendered segments. */
  method EscapePreservingCode(text: string) returns (r: string)
    ensures r == Render(Outside(text))
    ensures OnlyEscapes(text, r)
  {
    hide Render, Outside, Escape, Join, OnlyEscapes, Reading, FenceAt, FindFence, Progress, AfterBlock;
    NothingLost(text);
    Begin(text);
    var parts: seq<string> := [];
    var current, i: nat := "", 0;
    var inBlock, inInline := false, false;
    ghost var from: nat := 0;
    while i < |text|
      invariant !(inBlock && inInline) && from <= i <= |text|
      invariant Reading(ModeOf(inBlock, inInline), text, from, i) && current == text[from..i]
      invariant Progress(parts, ModeOf(inBlock, inInline), text, from)
      decreases |text| - i
    {
      ReadingGoesOn(ModeOf(inBlock, inInline), text, from, i);
      ReadingStarts(text, i);
      if FenceAt(text, i) && !inInline {
        if inBlock {
          LeaveBlock(parts, text, from, i);
          ReadingStarts(text, AfterBlock(text, i));
          parts := parts + [current];
          current, i := CloseBlock(text, i);
          parts := parts + [current];
          current := "";
          inBlock := false;
          from := i;
        } else {
          LeaveText(parts, text, from, i);
          var escaped := EscapeMarkdownV2(current);
          parts := parts + [escaped];
          current := text[i..i + 3];
          from := i;
          i := i + 3;
          inBlock := true;
        }
        continue;
      }
      if text[i] == '`' && !inBlock {
        if inInline {
          LeaveInline(parts, text, from, i);
          ReadingStarts(text, i + 1);
          SliceJoin(text, from, i, i + 1);
          parts := parts + [current + "`"];
          current := "";
          inInline := false;
          from := i + 1;
        } else {
          LeaveText(parts, text, from, i);
          var escaped := EscapeMarkdownV2(current);
          parts := parts + [escaped];
          SliceJoin(text, i, i, i + 1);
          current := "`";
          inInline := true;
          from := i;
        }
        i := i + 1;
        continue;
      }
      SliceJoin(text, from, i, i + 1);
      current := current + [text[i]];
      i := i + 1;
    }
    Finished(parts, text, from, ModeOf(inBlock, inInline));
    if current != "" {
      if inBlock || inInline {
        parts := parts + [current];
      } else {
        var escaped := EscapeMarkdownV2(current);
        parts := parts + [escaped];
      }
    }
    r := Join(parts);
  }
}
