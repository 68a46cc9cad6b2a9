/** What the adapter's escaper promises, escaping outside code and nothing inside it, and when
    its output is that (app/interfaces/adapters.py). */
module CodePromise {
  import opened Wrappers
  import opened Escaping
  import opened CodeEscaping

  /** Where the code that starts at b ends, if it is closed. */
  function CodeEnd(s: string, b: nat): (r: Option<nat>)
    requires b < |s|
    ensures r.Some? ==> b < r.value <= |s|
  {
    if FenceAt(s, b) then
      var f := FindFence(s, b + 3);
      if f == |s| then None else Some(f + 3)
    else
      var c := FindTick(s, b + 1);
      if c == |s| then None else Some(c + 1)
  }

  /** Escape text, leave inline code and blocks alone, and read on after a block's closing
      fence as before it. */
  function Promised(s: string): seq<Segment>
    decreases |s|
  {
    var b := FindTick(s, 0);
    if b == |s| then [Plain(s)]
    else
      match CodeEnd(s, b)
      case None => [Plain(s[..b]), Verbatim(s[b..])]
      case Some(end) => [Plain(s[..b]), Verbatim(s[b..end])] + Promised(s[end..])
  }

  /** Reading the text as the code does, some block comes to its closing fence. */
  predicate ClosesBlock(s: string)
    decreases |s|
  {
    var b := FindTick(s, 0);
    b < |s| && CodeEnd(s, b).Some? && (FenceAt(s, b) || ClosesBlock(s[CodeEnd(s, b).value..]))
  }

  lemma FlattenPair(x: Segment, y: Segment, rest: seq<Segment>)
    requires x.Plain? && y.Verbatim?
    ensures Flatten([x, y] + rest) == x.text + (y.text + Flatten(rest))
    ensures Render([x, y] + rest) == Escape(x.text, SPECIALS) + (y.text + Render(rest))
  {
    assert [x, y] + rest == [x] + ([y] + rest);
    FlattenCons(x, [y] + rest);
    FlattenCons(y, rest);
  }

  lemma {:induction false} PromisedIsTheText(s: string)
    ensures Flatten(Promised(s)) == s
    decreases |s|
  {
    hide FindTick, CodeEnd, Flatten, Escape, Render;
    var b := FindTick(s, 0);
    if b == |s| {
      OneSegment(Plain(s));
    } else {
      match CodeEnd(s, b)
      case None =>
        FlattenPair(Plain(s[..b]), Verbatim(s[b..]), []);
        EmptyFlatten();
        assert [Plain(s[..b]), Verbatim(s[b..])] + [] == [Plain(s[..b]), Verbatim(s[b..])];
        assert s == s[..b] + (s[b..] + "");
      case Some(end) =>
        PromisedIsTheText(s[end..]);
        FlattenPair(Plain(s[..b]), Verbatim(s[b..end]), Promised(s[end..]));
        assert s == s[..b] + (s[b..end] + s[end..]);
    }
  }

  /** The promised output, one step at a time. */
  lemma PromisedStep(s: string, b: nat)
    requires b == FindTick(s, 0)
    ensures b == |s| ==> Render(Promised(s)) == Escape(s, SPECIALS)
    ensures b < |s| && CodeEnd(s, b).None? ==> Render(Promised(s)) == Escape(s[..b], SPECIALS) + s[b..]
    ensures b < |s| && CodeEnd(s, b).Some? ==>
      var end := CodeEnd(s, b).value;
      Render(Promised(s)) == Escape(s[..b], SPECIALS) + (s[b..end] + Render(Promised(s[end..])))
  {
    hide FindTick, CodeEnd, Escape, Render;
    if b == |s| {
      OneSegment(Plain(s));
    } else {
      match CodeEnd(s, b)
      case None =>
        FlattenPair(Plain(s[..b]), Verbatim(s[b..]), []);
        EmptyFlatten();
        assert [Plain(s[..b]), Verbatim(s[b..])] + [] == [Plain(s[..b]), Verbatim(s[b..])];
        assert s[b..] + "" == s[b..];
      case Some(end) =>
        FlattenPair(Plain(s[..b]), Verbatim(s[b..end]), Promised(s[end..]));
    }
  }

  // ---- where the two part -------------------------------------------------------------------

  /** The text after the first block that is closed. */
  function Rest(s: string): string
    requires ClosesBlock(s)
    decreases |s|
  {
    var b := FindTick(s, 0);
    var after := s[CodeEnd(s, b).value..];
    if FenceAt(s, b) then after else Rest(after)
  }

  /** The output up to there, which is as promised. */
  function RenderedHead(s: string): string
    requires ClosesBlock(s)
    decreases |s|
  {
    var b := FindTick(s, 0);
    var end := CodeEnd(s, b).value;
    Escape(s[..b], SPECIALS) + (s[b..end] + if FenceAt(s, b) then "" else RenderedHead(s[end..]))
  }

  /** What the code puts out for the text after a closed block: all of it as it is, up to and
      including the next fence. */
  function CodeTail(rest: string): string {
    var g := FindFence(rest, 0);
    if g == |rest| then rest else rest[..g + 3] + Render(Outside(rest[g + 3..]))
  }

  lemma FenceIsTick(s: string, b: nat)
    ensures FenceAt(s, b) ==> b + 3 <= |s| && s[b] == '`'
  {
  }

  lemma TextStep(s: string, b: nat)
    requires b == FindTick(s, 0)
    ensures b == |s| ==> Render(Outside(s)) == Escape(s, SPECIALS)
    ensures b < |s| && FenceAt(s, b) ==> Render(Outside(s)) == Escape(s[..b], SPECIALS) + Pending(InBlock, s[b..])
    ensures b < |s| && !FenceAt(s, b) ==> Render(Outside(s)) == Escape(s[..b], SPECIALS) + Pending(InInline, s[b..])
  {
    hide Escape, Outside, Render, FenceAt;
    TextEnds(s, 0, b);
    assert s[0..] == s && s[0..b] == s[..b] && s[..|s|] == s;
  }

  lemma InlineStep(s: string, b: nat)
    requires b < |s| && s[b] == '`' && !FenceAt(s, b)
    ensures Pending(InInline, s[b..]) ==
      match CodeEnd(s, b)
      case None => s[b..]
      case Some(end) => s[b..end] + Render(Outside(s[end..]))
  {
    hide Escape, Outside, Render, FenceAt;
    var c := FindTick(s, b + 1);
    InlineEnds(s, b, c);
    assert s[b..|s|] == s[b..];
  }

  lemma BlockStep(s: string, b: nat)
    requires b < |s| && FenceAt(s, b)
    ensures Pending(InBlock, s[b..]) ==
      match CodeEnd(s, b)
      case None => s[b..]
      case Some(end) => s[b..end] + CodeTail(s[end..])
  {
    hide Escape, Outside, Render, FenceAt, Pending, CodeTail;
    FenceIsTick(s, b);
    var f := FindFence(s, b + 3);
    if f < |s| {
      BlockClosed(s, b, f);
    } else {
      BlockOpen(s, b);
      assert s[b..|s|] == s[b..];
    }
  }

  lemma BlockClosed(s: string, b: nat, f: nat)
    requires Reading(InBlock, s, b, f) && FenceAt(s, f)
    ensures f + 3 <= |s| && Pending(InBlock, s[b..]) == s[b..f + 3] + CodeTail(s[f + 3..])
  {
    ReadingGoesOn(InBlock, s, b, f);
    var next := AfterBlock(s, f);
    BlockEnds(s, b, f, next);
    TextIsPending(s[next..]);
    TailAt(s, f + 3, next);
    hide *;
    Split(s, b, f, f + 3, next, Render(Outside(s[next..])));
  }

  lemma TailAt(s: string, c: nat, next: nat)
    requires 3 <= c <= |s| && next == AfterBlock(s, c - 3)
    ensures CodeTail(s[c..]) == s[c..next] + Render(Outside(s[next..]))
  {
    NextFence(s, c, next);
    FenceFindShift(s, c, c);
    TailIs(s[c..], FindFence(s, c) - c);
    hide *;
    NothingLeft(s);
    TextIsPending(s[next..]);
    SliceOfSlice(s, c, next);
    ToTheEnd(s, c);
  }

  lemma TailIs(rest: string, h: nat)
    requires h == FindFence(rest, 0)
    ensures h == |rest| ==> CodeTail(rest) == rest
    ensures h < |rest| ==> h + 3 <= |rest| && CodeTail(rest) == rest[..h + 3] + Render(Outside(rest[h + 3..]))
  {
    FenceIsTick(rest, h);
    hide *;
    if h == |rest| {
      TailEnds(rest);
    } else {
      TailPasses(rest, h);
    }
  }

  lemma TailEnds(rest: string)
    requires FindFence(rest, 0) == |rest|
    ensures CodeTail(rest) == rest
  {
    hide FindFence, Outside, Render, FenceAt;
  }

  lemma TailPasses(rest: string, h: nat)
    requires h == FindFence(rest, 0) && h + 3 <= |rest|
    ensures CodeTail(rest) == rest[..h + 3] + Render(Outside(rest[h + 3..]))
  {
    hide FindFence, Outside, Render, FenceAt;
  }

  lemma SliceOfSlice(s: string, c: nat, d: nat)
    requires c <= d <= |s|
    ensures s[c..][..d - c] == s[c..d] && s[c..][d - c..] == s[d..]
  {
  }

  /** A slice cut at b and a slice cut at c, followed by the same. */
  lemma Split(s: string, a: nat, b: nat, c: nat, d: nat, t: string)
    requires a <= b <= c <= d <= |s|
    ensures s[a..b] + (s[b..d] + t) == s[a..c] + (s[c..d] + t)
  {
    assert s[a..b] + s[b..d] == s[a..d];
    assert s[a..c] + s[c..d] == s[a..d];
    assert s[a..b] + (s[b..d] + t) == s[a..d] + t;
    assert s[a..c] + (s[c..d] + t) == s[a..d] + t;
  }

  /** Without a closed block the output is the promised one; with one, both go the same way
      up to its closing fence, and from there each has its own. */
  lemma {:induction false} Readings(s: string)
    ensures !ClosesBlock(s) ==> Render(Outside(s)) == Render(Promised(s))
    ensures ClosesBlock(s) ==>
      && Render(Outside(s)) == RenderedHead(s) + CodeTail(Rest(s))
      && Render(Promised(s)) == RenderedHead(s) + Render(Promised(Rest(s)))
    decreases |s|
  {
    hide FindTick, FenceAt, CodeEnd, Outside, Promised, Render, Escape, Pending, CodeTail;
    var b := FindTick(s, 0);
    TextStep(s, b);
    PromisedStep(s, b);
    if b < |s| {
      if FenceAt(s, b) {
        BlockStep(s, b);
      } else {
        InlineStep(s, b);
      }
      if CodeEnd(s, b).Some? {
        var end := CodeEnd(s, b).value;
        var head, code := Escape(s[..b], SPECIALS), s[b..end];
        if FenceAt(s, b) {
          Regrouped(head, code, "", CodeTail(s[end..]));
          Regrouped(head, code, "", Render(Promised(s[end..])));
        } else {
          Readings(s[end..]);
          if ClosesBlock(s[end..]) {
            Regrouped(head, code, RenderedHead(s[end..]), CodeTail(Rest(s[end..])));
            Regrouped(head, code, RenderedHead(s[end..]), Render(Promised(Rest(s[end..]))));
          }
        }
      }
    }
  }

  lemma Regrouped(a: string, b: string, c: string, d: string)
    ensures a + (b + (c + d)) == (a + (b + c)) + d
    ensures c == "" ==> c + d == d
  {
  }

  lemma SameTail(head: string, t: string, u: string)
    ensures head + t == head + u <==> t == u
  {
    assert (head + t)[|head|..] == t;
    assert (head + u)[|head|..] == u;
  }

  // ---- the condition on the text --------------------------------------------------------------

  predicate NoSpecials(s: string) {
    forall c | c in s :: c !in SPECIALS
  }

  /** Every special character lies in inline code or in a block. */
  predicate OnlyCodeSpecials(s: string)
    decreases |s|
  {
    var b := FindTick(s, 0);
    NoSpecials(s[..b]) && (b < |s| && CodeEnd(s, b).Some? ==> OnlyCodeSpecials(s[CodeEnd(s, b).value..]))
  }

  /** A text with something to escape, escaped, and the text as it is differ whatever follows;
      one with nothing to escape is its own escape. */
  lemma {:induction false} EscapedDiffers(s: string, t: string, u: string)
    ensures NoSpecials(s) ==> Escape(s, SPECIALS) == s
    ensures !NoSpecials(s) ==> Escape(s, SPECIALS) + t != s + u
  {
    hide NoSpecials;
    NoSpecialsStep(s);
    if s != "" {
      SpecialsDistinct();
      EscapedDiffers(s[1..], t, u);
      var e := Escape(s[1..], SPECIALS);
      if s[0] in SPECIALS {
        assert (['\\', s[0]] + e + t)[0] == '\\' && (s + u)[0] == s[0];
      } else {
        assert Escape(s, SPECIALS) + t == [s[0]] + (e + t);
        assert s + u == [s[0]] + (s[1..] + u);
        SameTail([s[0]], e + t, s[1..] + u);
      }
    }
  }

  lemma NoSpecialsStep(s: string)
    ensures NoSpecials(s) <==> s == "" || (s[0] !in SPECIALS && NoSpecials(s[1..]))
  {
    if s != "" {
      assert forall c :: c in s <==> c == s[0] || c in s[1..];
    }
  }

  /** A text is promised to come out as it is exactly if it has its specials in code only. */
  lemma {:induction false} PromisedVerbatimIff(s: string)
    ensures Render(Promised(s)) == s <==> OnlyCodeSpecials(s)
    decreases |s|
  {
    hide FindTick, CodeEnd, Promised, Render, Escape, NoSpecials;
    var b := FindTick(s, 0);
    PromisedStep(s, b);
    var head := s[..b];
    assert s == head + s[b..];
    if b == |s| {
      assert head == s;
      EscapedDiffers(s, "", "");
      assert Escape(s, SPECIALS) + "" == Escape(s, SPECIALS) && s + "" == s;
    } else {
      match CodeEnd(s, b)
      case None => EscapedDiffers(head, s[b..], s[b..]);
      case Some(end) =>
        var code, tail := s[b..end], s[end..];
        PromisedVerbatimIff(tail);
        assert s[b..] == code + tail;
        EscapedDiffers(head, code + Render(Promised(tail)), code + tail);
        SameTail(head, code + Render(Promised(tail)), code + tail);
        SameTail(code, Render(Promised(tail)), tail);
    }
  }

  /** The output is the promised one for every text in which no block is closed. Where one
      is, what counts is the rest of the text after it: if no fence follows there, the promise
      is kept exactly if the rest has its special characters in code only; if one does, the
      rest must be promised to come out as it is up to that fence and, behind it, as the code
      reads it from there. */
  lemma PromiseKeptIff(s: string)
    ensures !ClosesBlock(s) ==> Render(Outside(s)) == Render(Promised(s))
    ensures ClosesBlock(s) && FindFence(Rest(s), 0) == |Rest(s)|
        ==> (Render(Outside(s)) == Render(Promised(s)) <==> OnlyCodeSpecials(Rest(s)))
    ensures ClosesBlock(s) && FindFence(Rest(s), 0) < |Rest(s)|
        ==> var rest := Rest(s);
            var next := FindFence(rest, 0) + 3;
            next <= |rest| &&
            (Render(Outside(s)) == Render(Promised(s))
             <==> Render(Promised(rest)) == rest[..next] + Render(Outside(rest[next..])))
  {
    hide Outside, Promised, Render, RenderedHead, Rest, ClosesBlock, FindFence, OnlyCodeSpecials;
    Readings(s);
    if ClosesBlock(s) {
      var rest := Rest(s);
      FenceIsTick(rest, FindFence(rest, 0));
      SameTail(RenderedHead(s), CodeTail(rest), Render(Promised(rest)));
      PromisedVerbatimIff(rest);
    }
  }

  // ---- texts with any number of blocks -------------------------------------------------------

  ghost predicate NoTick(s: string) {
    forall k | 0 <= k < |s| :: s[k] != '`'
  }

  /** Stretches without a backtick, with a fence between each two. */
  function Fenced(stretches: seq<string>): string {
    if stretches == [] then ""
    else if |stretches| == 1 then stretches[0]
    else stretches[0] + ("```" + Fenced(stretches[1..]))
  }

  ghost predicate NoTicks(stretches: seq<string>) {
    forall i | 0 <= i < |stretches| :: NoTick(stretches[i])
  }

  /** The stretches with every `period`-th one escaped, the first of them after `wait` others. */
  function EveryNth(stretches: seq<string>, wait: nat, period: nat): string
    requires period > 0
  {
    if stretches == [] then ""
    else
      var piece := if wait == 0 then Escape(stretches[0], SPECIALS) else stretches[0];
      if |stretches| == 1 then piece
      else piece + ("```" + EveryNth(stretches[1..], if wait == 0 then period - 1 else wait - 1, period))
  }

  // ---- where the fences are -----------------------------------------------------------------

  /** The first fence behind a stretch without backticks. */
  lemma FenceBehind(head: string, t: string, x: string)
    requires NoTick(t)
    ensures FindFence(head + t, |head|) == |head + t|
    ensures FindFence(head + (t + ("```" + x)), |head|) == |head| + |t|
  {
    var s, u := head + t, head + (t + ("```" + x));
    assert forall k | |head| <= k < |s| :: s[k] == t[k - |head|];
    assert forall k | |head| <= k < |head| + |t| :: u[k] == t[k - |head|];
    assert FenceAt(u, |head| + |t|);
  }

  lemma TickBehind(t: string, x: string)
    requires NoTick(t)
    ensures FindTick(t, 0) == |t|
    ensures FindTick(t + ("```" + x), 0) == |t| && FenceAt(t + ("```" + x), |t|)
  {
    var s := t + ("```" + x);
    assert forall k | 0 <= k < |t| :: s[k] == t[k];
    assert s[|t|] == '`' && s[|t| + 1] == '`' && s[|t| + 2] == '`';
  }

  lemma Cut(a: string, b: string)
    ensures (a + b)[..|a|] == a && (a + b)[|a|..] == b
  {
  }

  lemma CodeText(t: string)
    requires NoTick(t)
    ensures Render(Outside(t)) == Escape(t, SPECIALS) == Render(Promised(t))
  {
    TickBehind(t, "");
    hide *;
    TextStep(t, |t|);
    PromisedStep(t, |t|);
  }

  lemma CodeFirst(t: string, x: string)
    requires NoTick(t)
    ensures Render(Outside(t + ("```" + x))) == Escape(t, SPECIALS) + Pending(InBlock, "```" + x)
  {
    TickBehind(t, x);
    hide *;
    TextStep(t + ("```" + x), |t|);
    Cut(t, "```" + x);
  }

  lemma CodeBlockOpen(t: string)
    requires NoTick(t)
    ensures Pending(InBlock, "```" + t) == "```" + t
  {
    var s := "```" + t;
    FenceBehind("```", t, "");
    assert FenceAt(s, 0) && CodeEnd(s, 0) == None;
    hide *;
    BlockStep(s, 0);
    assert s[0..] == s;
  }

  /** A closed block, its fences and what is behind it. */
  lemma BlockShape(t: string, x: string)
    requires NoTick(t)
    ensures var s, head := "```" + (t + ("```" + x)), "```" + (t + "```");
            && s == head + x && FenceAt(s, 0) && CodeEnd(s, 0) == Some(|head|)
  {
    FenceBehind("```", t, x);
    Assoc("```", t, "```", x);
  }

  lemma Assoc(a: string, b: string, c: string, d: string)
    ensures a + (b + (c + d)) == (a + (b + c)) + d
    ensures a + (b + (c + d)) == (a + b) + (c + d)
  {
  }

  lemma CodeBlockClosed(t: string, x: string)
    requires NoTick(t)
    ensures Pending(InBlock, "```" + (t + ("```" + x))) == "```" + (t + ("```" + CodeTail(x)))
  {
    BlockShape(t, x);
    hide *;
    var s, head := "```" + (t + ("```" + x)), "```" + (t + "```");
    BlockStep(s, 0);
    Cut(head, x);
    assert s[0..] == s && s[0..|head|] == s[..|head|];
    Assoc("```", t, "```", CodeTail(x));
  }

  lemma TailWithoutFence(t: string)
    requires NoTick(t)
    ensures CodeTail(t) == t
  {
    FenceBehind("", t, "");
    assert "" + t == t;
    TailIs(t, |t|);
  }

  lemma TailWithFence(t: string, x: string)
    requires NoTick(t)
    ensures CodeTail(t + ("```" + x)) == t + ("```" + Render(Outside(x)))
  {
    FirstFence(t, x);
    hide *;
    TailIs(t + ("```" + x), |t|);
    CutFence(t, x, Render(Outside(x)));
  }

  lemma FirstFence(t: string, x: string)
    requires NoTick(t)
    ensures FindFence(t + ("```" + x), 0) == |t|
  {
    hide FenceAt, FindFence, NoTick;
    FenceBehind("", t, x);
    assert "" + (t + ("```" + x)) == t + ("```" + x);
  }

  lemma CutFence(a: string, c: string, d: string)
    ensures var s := a + ("```" + c);
            s[..|a| + 3] + d == a + ("```" + d) && s[|a| + 3..] == c
  {
    CutTwo(a, "```", c, d);
  }

  lemma CutTwo(a: string, b: string, c: string, d: string)
    ensures var s := a + (b + c);
            s[..|a| + |b|] == a + b && s[|a| + |b|..] == c
    ensures (a + b) + d == a + (b + d)
  {
  }

  lemma PromisedOpen(t: string, u: string)
    requires NoTick(t) && NoTick(u)
    ensures Render(Promised(t + ("```" + u))) == Escape(t, SPECIALS) + ("```" + u)
  {
    OpenShape(t, u);
    hide *;
    PromisedStep(t + ("```" + u), |t|);
    Cut(t, "```" + u);
  }

  lemma OpenShape(t: string, u: string)
    requires NoTick(t) && NoTick(u)
    ensures var s := t + ("```" + u); FindTick(s, 0) == |t| && CodeEnd(s, |t|) == None
  {
    TickBehind(t, u);
    FenceBehind(t + "```", u, "");
    assert t + "```" + u == t + ("```" + u);
  }

  /** Text, a closed block, and what is behind it. */
  lemma ClosedShape(t: string, u: string, x: string)
    requires NoTick(t) && NoTick(u)
    ensures var s, code := t + ("```" + (u + ("```" + x))), "```" + (u + "```");
            FindTick(s, 0) == |t| && CodeEnd(s, |t|) == Some(|t| + |code|)
  {
    var s := t + ("```" + (u + ("```" + x)));
    TickBehind(t, u + ("```" + x));
    FenceBehind(t + "```", u, x);
    assert t + "```" + (u + ("```" + x)) == s;
  }

  lemma PromisedPieces(t: string, code: string, x: string)
    requires var s := t + (code + x);
             FindTick(s, 0) == |t| < |s| && CodeEnd(s, |t|) == Some(|t| + |code|)
    ensures Render(Promised(t + (code + x))) == Escape(t, SPECIALS) + (code + Render(Promised(x)))
  {
    hide *;
    PromisedStep(t + (code + x), |t|);
    Cut3(t, code, x);
  }

  lemma PromisedClosed(t: string, u: string, x: string)
    requires NoTick(t) && NoTick(u)
    ensures Render(Promised(t + ("```" + (u + ("```" + x)))))
         == Escape(t, SPECIALS) + ("```" + (u + ("```" + Render(Promised(x)))))
  {
    ClosedShape(t, u, x);
    hide *;
    Assoc("```", u, "```", x);
    PromisedPieces(t, "```" + (u + "```"), x);
    Assoc("```", u, "```", Render(Promised(x)));
  }

  lemma Cut3(a: string, b: string, c: string)
    ensures var s := a + (b + c);
            s[..|a|] == a && s[|a|..|a| + |b|] == b && s[|a| + |b|..] == c
  {
  }

  // ---- which stretches are escaped -------------------------------------------------------------

  /** The code escapes every third stretch. */
  lemma {:induction false} CodeEscapesThirds(ts: seq<string>)
    requires NoTicks(ts)
    ensures Render(Outside(Fenced(ts))) == EveryNth(ts, 0, 3)
    decreases |ts|
  {
    NoTicksTail(ts);
    hide Escape, Outside, Render, Pending, CodeTail, NoTicks;
    if |ts| <= 1 {
      CodeText(Fenced(ts));
    } else {
      CodeFirst(ts[0], Fenced(ts[1..]));
      if |ts| == 2 {
        CodeBlockOpen(ts[1]);
      } else {
        CodeBlockClosed(ts[1], Fenced(ts[2..]));
        assert EveryNth(ts[1..], 2, 3) == ts[1] + ("```" + EveryNth(ts[2..], 1, 3));
        if |ts| == 3 {
          TailWithoutFence(ts[2]);
          assert Fenced(ts[2..]) == ts[2] == EveryNth(ts[2..], 1, 3);
        } else {
          CodeEscapesThirds(ts[3..]);
          TailWithFence(ts[2], Fenced(ts[3..]));
          assert Fenced(ts[2..]) == ts[2] + ("```" + Fenced(ts[3..]));
          assert EveryNth(ts[2..], 1, 3) == ts[2] + ("```" + EveryNth(ts[3..], 0, 3));
        }
      }
    }
  }

  /** The promise is to escape every second one. */
  lemma {:induction false} PromiseEscapesSeconds(ts: seq<string>)
    requires NoTicks(ts)
    ensures Render(Promised(Fenced(ts))) == EveryNth(ts, 0, 2)
    decreases |ts|
  {
    NoTicksTail(ts);
    hide Escape, Promised, Render, NoTicks;
    if |ts| <= 1 {
      CodeText(Fenced(ts));
    } else if |ts| == 2 {
      PromisedOpen(ts[0], ts[1]);
    } else {
      PromiseEscapesSeconds(ts[2..]);
      PromisedClosed(ts[0], ts[1], Fenced(ts[2..]));
    }
  }

  lemma NoTicksTail(ts: seq<string>)
    requires NoTicks(ts)
    ensures forall i | 0 <= i < |ts| :: NoTick(ts[i])
    ensures |ts| <= 1 ==> NoTick(Fenced(ts))
    ensures |ts| >= 2 ==> NoTicks(ts[2..]) && ts[1..][0] == ts[1] && ts[1..][1..] == ts[2..]
    ensures |ts| >= 3 ==> NoTicks(ts[3..]) && ts[2..][0] == ts[2] && ts[2..][1..] == ts[3..]
  {
  }

  /** How many stretches are still to come before the next multiple of the period. */
  function Wait(n: nat, period: nat): nat
    requires period > 0
  {
    if n % period == 0 then 0 else period - n % period
  }

  lemma NoWait()
    ensures Wait(0, 2) == 0 && Wait(0, 3) == 0
  {
  }

  lemma WaitStep(n: nat)
    ensures Wait(n + 1, 2) == if Wait(n, 2) == 0 then 1 else Wait(n, 2) - 1
    ensures Wait(n + 1, 3) == if Wait(n, 3) == 0 then 2 else Wait(n, 3) - 1
    ensures (Wait(n, 3) == 0) != (Wait(n, 2) == 0) <==> n % 6 in {2, 3, 4}
  {
    Wait2(n);
    Wait3(n);
    Wait6(n);
    hide Wait;
  }

  lemma Wait2(n: nat)
    ensures Wait(n + 1, 2) == if Wait(n, 2) == 0 then 1 else Wait(n, 2) - 1
  {
  }

  lemma Wait3(n: nat)
    ensures Wait(n + 1, 3) == if Wait(n, 3) == 0 then 2 else Wait(n, 3) - 1
  {
  }

  lemma Wait6(n: nat)
    ensures (Wait(n, 3) == 0) != (Wait(n, 2) == 0) <==> n % 6 in {2, 3, 4}
  {
    Remainders(n);
    SixCases(n % 6);
  }

  lemma SixCases(r: nat)
    requires r < 6
    ensures (r % 3 == 0) != (r % 2 == 0) <==> r in {2, 3, 4}
  {
    assert r in {0, 1, 2, 3, 4, 5};
  }

  lemma Remainders(n: nat)
    ensures n % 6 < 6 && n % 2 == n % 6 % 2 && n % 3 == n % 6 % 3
  {
    Remainder2(3 * (n / 6), n % 6);
    Remainder3(2 * (n / 6), n % 6);
  }

  lemma Remainder2(q: nat, r: nat)
    ensures (2 * q + r) % 2 == r % 2
  {
  }

  lemma Remainder3(q: nat, r: nat)
    ensures (3 * q + r) % 3 == r % 3
  {
  }

  /** Every stretch with two, three or four fences before it, modulo six and with n fences
      before the first stretch, has no special character. */
  ghost predicate HarmlessFrom(ts: seq<string>, n: nat) {
    forall i | 0 <= i < |ts| && (n + i) % 6 in {2, 3, 4} :: NoSpecials(ts[i])
  }

  lemma HarmlessStep(ts: seq<string>, n: nat)
    requires ts != []
    ensures HarmlessFrom(ts, n) <==> (n % 6 in {2, 3, 4} ==> NoSpecials(ts[0])) && HarmlessFrom(ts[1..], n + 1)
  {
    assert forall i | 1 <= i < |ts| :: ts[i] == ts[1..][i - 1] && n + i == n + 1 + (i - 1);
    assert forall i | 0 <= i < |ts| - 1 :: ts[1..][i] == ts[i + 1] && n + 1 + i == n + (i + 1);
  }

  /** Escaping every third and every second stretch comes to the same exactly if no stretch
      that only one of them escapes has anything to escape. */
  lemma {:induction false} ThirdsAndSecondsIff(ts: seq<string>, n: nat)
    ensures EveryNth(ts, Wait(n, 3), 3) == EveryNth(ts, Wait(n, 2), 2) <==> HarmlessFrom(ts, n)
    decreases |ts|
  {
    if ts != [] {
      WaitStep(n);
      HarmlessStep(ts, n);
      ThirdsAndSecondsIff(ts[1..], n + 1);
      hide Escape, NoSpecials, Wait, HarmlessFrom;
      var e, t := Escape(ts[0], SPECIALS), ts[0];
      var x, y := EveryNth(ts[1..], Wait(n + 1, 3), 3), EveryNth(ts[1..], Wait(n + 1, 2), 2);
      EscapedDiffers(t, "", "");
      EscapedDiffers(t, "```" + x, "```" + y);
      EscapedDiffers(t, "```" + y, "```" + x);
      SameTail(e, "```" + x, "```" + y);
      SameTail(t, "```" + x, "```" + y);
      SameTail("```", x, y);
    }
  }

  /** A text of stretches between fences, any number of them: the code goes wrong every three
      fences, so the output is the promised one exactly if every stretch with two, three or
      four fences before it, modulo six, has no special character. */
  lemma FencedPromiseKeptIff(ts: seq<string>)
    requires NoTicks(ts)
    ensures Render(Outside(Fenced(ts))) == Render(Promised(Fenced(ts)))
       <==> HarmlessFrom(ts, 0)
  {
    CodeEscapesThirds(ts);
    PromiseEscapesSeconds(ts);
    NoWait();
    hide *;
    ThirdsAndSecondsIff(ts, 0);
  }

  /** A full stop after a block, for one, is not escaped. */
  lemma StopAfterBlockIsBare()
    ensures Render(Outside("```a```.")) != Render(Promised("```a```."))
  {
    var ts := ["", "a", "."];
    assert Fenced(ts[2..]) == "." && Fenced(ts[1..]) == "a```." && Fenced(ts) == "```a```.";
    assert !NoSpecials(ts[2]) by {
      assert '.' in "." && SPECIALS[16] == '.';
    }
    assert 2 % 6 == 2;
    FencedPromiseKeptIff(ts);
  }

  // ---- inline code --------------------------------------------------------------------------

  function Ticked(c: string): string {
    "`" + c + "`"
  }

  lemma TickShape(t: string, c: string, x: string)
    requires NoTick(t) && NoTick(c) && !FenceAt(t + (Ticked(c) + x), |t|)
    ensures var s := t + (Ticked(c) + x);
            && FindTick(s, 0) == |t| < |s| && s[|t|] == '`'
            && CodeEnd(s, |t|) == Some(|t| + |Ticked(c)|)
  {
    var s := t + (Ticked(c) + x);
    assert forall k | 0 <= k < |t| :: s[k] == t[k];
    assert s[|t|] == '`';
    assert forall k | |t| + 1 <= k < |t| + 1 + |c| :: s[k] == c[k - |t| - 1];
    assert s[|t| + 1 + |c|] == '`';
  }

  lemma InlinePieces(t: string, code: string, x: string)
    requires var s := t + (code + x);
             && FindTick(s, 0) == |t| < |s| && s[|t|] == '`' && !FenceAt(s, |t|)
             && CodeEnd(s, |t|) == Some(|t| + |code|)
    ensures Render(Outside(t + (code + x))) == Escape(t, SPECIALS) + (code + Render(Outside(x)))
  {
    hide *;
    var s := t + (code + x);
    TextStep(s, |t|);
    InlineStep(s, |t|);
    Cut3(t, code, x);
  }

  /** Inline code comes out as it is, between text that is escaped, and what follows it is read
      as text again; that is what is promised as well. */
  lemma InlineIsVerbatim(t: string, c: string, x: string)
    requires NoTick(t) && NoTick(c) && !FenceAt(t + (Ticked(c) + x), |t|)
    ensures Render(Outside(t + (Ticked(c) + x))) == Escape(t, SPECIALS) + (Ticked(c) + Render(Outside(x)))
    ensures Render(Promised(t + (Ticked(c) + x))) == Escape(t, SPECIALS) + (Ticked(c) + Render(Promised(x)))
  {
    hide *;
    TickShape(t, c, x);
    InlinePieces(t, Ticked(c), x);
    PromisedPieces(t, Ticked(c), x);
  }
}
