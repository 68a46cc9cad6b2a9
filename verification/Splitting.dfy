/** Splitting a long text into messages: the sender's and the adapter's splitter, which are
    the same code (app/interfaces/telegram_sender.py, app/interfaces/adapters.py), and the
    formatter's (app/agent/result_formatter.py). */
module Splitting {
  import opened Whitespace

  /** The characters at which the splitters break a line by themselves. */
  predicate IsBreak(c: char) {
    c == ' ' || c == '\n'
  }

  /** The last index of a character, or -1. */
  function RFind(s: string, c: char): (p: int)
    ensures -1 <= p < |s| && (p >= 0 ==> s[p] == c)
    ensures forall i | p < i < |s| :: s[i] != c
  {
    if s == "" then -1 else if s[|s| - 1] == c then |s| - 1 else RFind(s[..|s| - 1], c)
  }

  /** The last index of a paragraph break, or -1. */
  function RFindParagraph(s: string): (p: int)
    ensures -1 <= p && (p >= 0 ==> p + 1 < |s| && s[p] == '\n' && s[p + 1] == '\n')
    ensures forall i | p < i < |s| - 1 :: !(s[i] == '\n' && s[i + 1] == '\n')
  {
    if |s| < 2 then -1
    else if s[|s| - 2] == '\n' && s[|s| - 1] == '\n' then |s| - 2
    else RFindParagraph(s[..|s| - 1])
  }

  /** The end of the last sentence mark with the whitespace after it, or -1. */
  function LastSentenceEnd(s: string): (p: int)
    ensures -1 <= p <= |s| && (p >= 0 ==> p >= 2 && IsSpace(s[p - 1]))
  {
    if |s| < 2 then -1
    else
      var later := LastSentenceEnd(s[1..]);
      if later >= 0 then later + 1
      else if (s[0] == '.' || s[0] == '!' || s[0] == '?') && IsSpace(s[1])
      then 1 + LStripStart(s[1..])
      else -1
  }

  function SplitPoint(text: string, limit: nat): nat
    requires limit <= |text|
  {
    var head := text[..limit];
    if RFindParagraph(head) > limit / 2 then RFindParagraph(head) + 2
    else if RFind(head, '\n') > limit / 2 then RFind(head, '\n') + 1
    else if RFind(head, ' ') > limit / 2 then RFind(head, ' ') + 1
    else limit
  }

  function ChunkPoint(text: string, limit: nat): nat
    requires limit <= |text|
  {
    var head := text[..limit];
    if RFindParagraph(head) > limit / 2 then RFindParagraph(head) + 2
    else if RFind(head, '\n') > limit / 2 then RFind(head, '\n') + 1
    else if LastSentenceEnd(head) > limit / 2 then LastSentenceEnd(head)
    else if RFind(head, ' ') > limit / 2 then RFind(head, ' ') + 1
    else limit
  }

  /** A split point lies in the second half, within the limit, and either right after
      whitespace or at the limit with no break in the second half. */
  ghost predicate GoodSplit(text: string, limit: nat, p: nat, spare: bool) {
    && limit / 2 < p <= limit <= |text|
    && (!spare || IsSpace(text[p - 1]) || (p == limit && forall i | limit / 2 < i < limit :: !IsBreak(text[i])))
  }

  lemma SplitPointIsGood(text: string, limit: nat)
    requires 1 <= limit <= |text|
    ensures GoodSplit(text, limit, SplitPoint(text, limit), true)
  {
    var head, p := text[..limit], SplitPoint(text, limit);
    assert forall i | 0 <= i < limit :: head[i] == text[i];
    assert p == limit || head[p - 1] == '\n' || head[p - 1] == ' ';
  }

  lemma ChunkPointIsGood(text: string, limit: nat)
    requires 1 <= limit <= |text|
    ensures GoodSplit(text, limit, ChunkPoint(text, limit), true)
  {
    var head, p := text[..limit], ChunkPoint(text, limit);
    assert forall i | 0 <= i < limit :: head[i] == text[i];
    assert p == limit || IsSpace(head[p - 1]);
  }

  ghost predicate ParagraphAt(text: string, limit: nat, i: nat) {
    i + 1 < limit <= |text| && text[i] == '\n' && text[i + 1] == '\n'
  }

  ghost predicate CharAt(text: string, limit: nat, i: nat, c: char) {
    i < limit <= |text| && text[i] == c
  }

  /** A sentence mark at i with the whitespace after it, which ends at e or is cut off there. */
  ghost predicate SentenceAt(text: string, limit: nat, i: nat, e: nat) {
    && i + 1 < e <= limit <= |text|
    && (text[i] == '.' || text[i] == '!' || text[i] == '?')
    && (forall k | i < k < e :: IsSpace(text[k]))
    && (e == limit || !IsSpace(text[e]))
  }

  ghost predicate SentenceEndsAt(text: string, limit: nat, e: nat) {
    exists i: nat :: SentenceAt(text, limit, i, e)
  }

  ghost predicate IsLastParagraph(text: string, limit: nat, p: nat) {
    p >= 2 && ParagraphAt(text, limit, p - 2) && forall i: nat | ParagraphAt(text, limit, i) :: i + 2 <= p
  }

  ghost predicate IsLastChar(text: string, limit: nat, p: nat, c: char) {
    p >= 1 && CharAt(text, limit, p - 1, c) && forall i: nat | CharAt(text, limit, i, c) :: i + 1 <= p
  }

  ghost predicate IsLastSentence(text: string, limit: nat, p: nat) {
    SentenceEndsAt(text, limit, p) && forall e: nat | SentenceEndsAt(text, limit, e) :: e <= p
  }

  /** The order of preference, on the text: after the last paragraph break beyond the middle,
      else after the last newline there, else, for the formatter, at the last sentence end
      there, else after the last space, else at the limit itself. */
  ghost predicate Preferred(text: string, limit: nat, p: nat, sentences: bool) {
    var half := limit / 2;
    if exists i: nat | i > half :: ParagraphAt(text, limit, i) then IsLastParagraph(text, limit, p)
    else if exists i: nat | i > half :: CharAt(text, limit, i, '\n') then IsLastChar(text, limit, p, '\n')
    else if sentences && exists e: nat | e > half :: SentenceEndsAt(text, limit, e) then IsLastSentence(text, limit, p)
    else if exists i: nat | i > half :: CharAt(text, limit, i, ' ') then IsLastChar(text, limit, p, ' ')
    else p == limit
  }

  lemma PreferredIsUnique(text: string, limit: nat, p: nat, q: nat, sentences: bool)
    requires Preferred(text, limit, p, sentences) && Preferred(text, limit, q, sentences)
    ensures p == q
  {
    hide ParagraphAt, CharAt, SentenceEndsAt;
  }

  lemma SplitPreference(text: string, limit: nat)
    requires 1 <= limit <= |text|
    ensures Preferred(text, limit, SplitPoint(text, limit), false)
  {
    LastParagraph(text, limit);
    LastChar(text, limit, '\n');
    LastChar(text, limit, ' ');
    hide RFind, RFindParagraph, ParagraphAt, CharAt;
  }

  lemma ChunkPreference(text: string, limit: nat)
    requires 1 <= limit <= |text|
    ensures Preferred(text, limit, ChunkPoint(text, limit), true)
  {
    LastParagraph(text, limit);
    LastChar(text, limit, '\n');
    LastChar(text, limit, ' ');
    LastSentence(text, limit);
    hide RFind, RFindParagraph, LastSentenceEnd, ParagraphAt, CharAt, SentenceEndsAt;
  }

  lemma LastSentence(text: string, limit: nat)
    requires limit <= |text|
    ensures var p := LastSentenceEnd(text[..limit]);
            && (p >= 0 ==> SentenceEndsAt(text, limit, p))
            && forall e: nat | SentenceEndsAt(text, limit, e) :: e <= p
  {
    hide LastSentenceEnd;
    var head := text[..limit];
    LastSentenceOf(head);
    var p := LastSentenceEnd(head);
    if p >= 0 {
      var i: nat :| SentenceAt(head, limit, i, p);
      assert SentenceAt(text, limit, i, p);
    }
    forall e: nat | SentenceEndsAt(text, limit, e)
      ensures e <= p
    {
      var i: nat :| SentenceAt(text, limit, i, e);
      assert SentenceAt(head, limit, i, e);
      assert SentenceEndsAt(head, limit, e);
    }
  }

  /** The last sentence end of a text is the last one of its tail, if that has one. */
  lemma {:induction false} LastSentenceOf(s: string)
    ensures var p := LastSentenceEnd(s);
            && (p >= 0 ==> SentenceEndsAt(s, |s|, p))
            && forall e: nat | SentenceEndsAt(s, |s|, e) :: e <= p
  {
    if |s| >= 2 {
      LastSentenceOf(s[1..]);
      var later := LastSentenceEnd(s[1..]);
      if later >= 0 {
        var i: nat :| SentenceAt(s[1..], |s| - 1, i, later);
        SentenceShift(s, i, later);
      } else if (s[0] == '.' || s[0] == '!' || s[0] == '?') && IsSpace(s[1]) {
        SentenceFirst(s);
      }
      forall e: nat | SentenceEndsAt(s, |s|, e)
        ensures e <= LastSentenceEnd(s)
      {
        var i: nat :| SentenceAt(s, |s|, i, e);
        if i > 0 {
          SentenceShift(s, i - 1, e - 1);
          assert SentenceEndsAt(s[1..], |s| - 1, e - 1);
        } else {
          SentenceOfFirst(s, e);
        }
      }
    }
  }

  lemma SentenceShift(s: string, i: nat, e: nat)
    requires s != ""
    ensures SentenceAt(s[1..], |s| - 1, i, e) <==> SentenceAt(s, |s|, i + 1, e + 1)
    ensures SentenceAt(s[1..], |s| - 1, i, e) ==> SentenceEndsAt(s, |s|, e + 1)
  {
    assert forall k | 0 <= k < |s| - 1 :: s[1..][k] == s[k + 1];
    assert forall k | 1 <= k < |s| :: s[k] == s[1..][k - 1];
  }

  lemma SentenceFirst(s: string)
    requires |s| >= 2 && (s[0] == '.' || s[0] == '!' || s[0] == '?') && IsSpace(s[1])
    ensures SentenceAt(s, |s|, 0, 1 + LStripStart(s[1..]))
  {
    hide IsSpace, LStripStart;
    var b := LStripStart(s[1..]);
    assert forall k | 1 <= k < |s| :: s[k] == s[1..][k - 1];
  }

  /** If the first character ends a sentence, that is its end, or a later sentence ends later. */
  lemma SentenceOfFirst(s: string, e: nat)
    requires |s| >= 2 && SentenceAt(s, |s|, 0, e)
    requires LastSentenceEnd(s[1..]) >= 0 ==> SentenceEndsAt(s[1..], |s| - 1, LastSentenceEnd(s[1..]))
    ensures e <= LastSentenceEnd(s)
  {
    var later := LastSentenceEnd(s[1..]);
    assert s[1] == s[1..][0];
    assert IsSpace(s[1]);
    SentenceFirst(s);
    if later >= 0 {
      var i: nat :| SentenceAt(s[1..], |s| - 1, i, later);
      SentenceShift(s, i, later);
      MarksAreVisible(s[i + 1]);
    }
  }

  lemma MarksAreVisible(c: char)
    ensures c == '.' || c == '!' || c == '?' ==> !IsSpace(c)
  {
  }

  lemma LastParagraph(text: string, limit: nat)
    requires limit <= |text|
    ensures var p := RFindParagraph(text[..limit]);
            && (p >= 0 ==> ParagraphAt(text, limit, p))
            && forall i: nat | i > p :: !ParagraphAt(text, limit, i)
  {
    hide RFindParagraph;
    var head := text[..limit];
    assert forall i | 0 <= i < limit :: head[i] == text[i];
  }

  lemma LastChar(text: string, limit: nat, c: char)
    requires limit <= |text|
    ensures var p := RFind(text[..limit], c);
            && (p >= 0 ==> CharAt(text, limit, p, c))
            && forall i: nat | i > p :: !CharAt(text, limit, i, c)
  {
    hide RFind;
    var head := text[..limit];
    assert forall i | 0 <= i < limit :: head[i] == text[i];
  }

  // ---- the splitting itself, on the text ----------------------------------------------

  /** The sender and the adapter, or the formatter, which can be told to ignore boundaries. */
  datatype Splitter = Sender | Formatter(boundaries: bool)

  /** What is left without trailing, without leading, without any outer whitespace. */
  ghost predicate RightStripped(s: string, r: string) {
    |r| <= |s| && r == s[..|r|] && Blank(s, |r|, |s|) && (r == "" || !IsSpace(r[|r| - 1]))
  }

  ghost predicate LeftStripped(s: string, r: string) {
    |r| <= |s| && r == s[|s| - |r|..] && Blank(s, 0, |s| - |r|) && (r == "" || !IsSpace(r[0]))
  }

  ghost predicate Stripped(s: string, r: string) {
    exists t :: LeftStripped(s, t) && RightStripped(t, r)
  }

  ghost predicate CutsAt(w: Splitter, rest: string, limit: nat, p: nat) {
    && p <= |rest|
    && match w
       case Sender => Preferred(rest, limit, p, false)
       case Formatter(boundaries) => if boundaries then Preferred(rest, limit, p, true) else p == limit
  }

  ghost predicate Trims(w: Splitter, head: string, chunk: string, tail: string, next: string) {
    if w.Sender? then RightStripped(head, chunk) && LeftStripped(tail, next)
    else Stripped(head, chunk) && Stripped(tail, next)
  }

  function Put(w: Splitter, chunk: string, more: seq<string>): seq<string> {
    if w.Formatter? && chunk == "" then more else [chunk] + more
  }

  /** One cut: the preferred point, the chunk before it and what remains after it. */
  ghost predicate Cut(w: Splitter, rest: string, limit: nat, p: nat, chunk: string, next: string) {
    CutsAt(w, rest, limit, p) && Trims(w, rest[..p], chunk, rest[p..], next) && |next| < |rest|
  }

  /** The chunks of a text: itself while it fits, else the chunk of one cut and the chunks of
      what remains. */
  ghost predicate SplitsInto(w: Splitter, rest: string, limit: nat, chunks: seq<string>)
    decreases |rest|
  {
    if rest == "" then chunks == []
    else if |rest| <= limit then chunks == [rest]
    else
      exists p, chunk, next, more ::
        Cut(w, rest, limit, p, chunk, next) && chunks == Put(w, chunk, more) &&
        |next| < |rest| && SplitsInto(w, next, limit, more)
  }

  lemma RightStrippedIsShortest(s: string, r: string, k: nat)
    requires RightStripped(s, r) && Blank(s, k, |s|)
    ensures |r| <= k
  {
    assert r != "" ==> s[|r| - 1] == r[|r| - 1];
  }

  lemma RightStrippedIsUnique(s: string, r: string, t: string)
    requires RightStripped(s, r) && RightStripped(s, t)
    ensures r == t
  {
    RightStrippedIsShortest(s, r, |t|);
    RightStrippedIsShortest(s, t, |r|);
  }

  lemma LeftStrippedIsShortest(s: string, r: string, k: nat)
    requires LeftStripped(s, r) && k <= |s| && Blank(s, 0, |s| - k)
    ensures |r| <= k
  {
    assert r != "" ==> s[|s| - |r|] == r[0];
  }

  lemma LeftStrippedIsUnique(s: string, r: string, t: string)
    requires LeftStripped(s, r) && LeftStripped(s, t)
    ensures r == t
  {
    LeftStrippedIsShortest(s, r, |t|);
    LeftStrippedIsShortest(s, t, |r|);
  }

  lemma TrimsIsUnique(w: Splitter, head: string, tail: string, c: string, n: string, d: string, m: string)
    requires Trims(w, head, c, tail, n) && Trims(w, head, d, tail, m)
    ensures c == d && n == m
  {
    hide RightStripped, LeftStripped;
    if w.Sender? {
      RightStrippedIsUnique(head, c, d);
      LeftStrippedIsUnique(tail, n, m);
    } else {
      StrippedIsUnique(head, c, d);
      StrippedIsUnique(tail, n, m);
    }
  }

  lemma StrippedIsUnique(s: string, r: string, t: string)
    requires Stripped(s, r) && Stripped(s, t)
    ensures r == t
  {
    hide RightStripped, LeftStripped;
    var x :| LeftStripped(s, x) && RightStripped(x, r);
    var y :| LeftStripped(s, y) && RightStripped(y, t);
    LeftStrippedIsUnique(s, x, y);
    RightStrippedIsUnique(x, r, t);
  }

  lemma CutIsUnique(w: Splitter, rest: string, limit: nat, p: nat, c: string, n: string, q: nat, d: string, m: string)
    requires Cut(w, rest, limit, p, c, n) && Cut(w, rest, limit, q, d, m)
    ensures c == d && n == m
  {
    hide Preferred, Trims;
    if w.Sender? {
      PreferredIsUnique(rest, limit, p, q, false);
    } else if w.boundaries {
      PreferredIsUnique(rest, limit, p, q, true);
    }
    TrimsIsUnique(w, rest[..p], rest[p..], c, n, d, m);
  }

  /** A text has one splitting only, for each splitter and limit. */
  lemma {:induction false} SplittingIsUnique(w: Splitter, rest: string, limit: nat, chunks: seq<string>,
                                             other: seq<string>)
    requires SplitsInto(w, rest, limit, chunks) && SplitsInto(w, rest, limit, other)
    ensures chunks == other
    decreases |rest|
  {
    hide Cut;
    if |rest| > limit && rest != "" {
      var p, c, n, more :| Cut(w, rest, limit, p, c, n) && chunks == Put(w, c, more) &&
        |n| < |rest| && SplitsInto(w, n, limit, more);
      var q, d, m, others :| Cut(w, rest, limit, q, d, m) && other == Put(w, d, others) &&
        |m| < |rest| && SplitsInto(w, m, limit, others);
      CutIsUnique(w, rest, limit, p, c, n, q, d, m);
      SplittingIsUnique(w, n, limit, more, others);
    }
  }

  /** Whatever the rest is split into, put behind `chunks`, is what the text is split into. */
  ghost predicate LeavesOver(w: Splitter, text: string, limit: nat, chunks: seq<string>, rest: string) {
    forall more :: SplitsInto(w, rest, limit, more) ==> SplitsInto(w, text, limit, chunks + more)
  }

  lemma AllIsLeft(w: Splitter, text: string, limit: nat)
    ensures LeavesOver(w, text, limit, [], text)
  {
    forall more | SplitsInto(w, text, limit, more)
      ensures SplitsInto(w, text, limit, [] + more)
    {
      assert [] + more == more;
    }
  }

  function Behind(w: Splitter, chunks: seq<string>, chunk: string): seq<string> {
    if w.Formatter? && chunk == "" then chunks else chunks + [chunk]
  }

  lemma BehindIsPut(w: Splitter, chunks: seq<string>, chunk: string, more: seq<string>)
    ensures Behind(w, chunks, chunk) + more == chunks + Put(w, chunk, more)
  {
  }

  lemma LessIsLeft(w: Splitter, text: string, limit: nat, chunks: seq<string>, rest: string,
                   p: nat, chunk: string, next: string)
    requires LeavesOver(w, text, limit, chunks, rest) && |rest| > limit && Cut(w, rest, limit, p, chunk, next)
    ensures LeavesOver(w, text, limit, Behind(w, chunks, chunk), next)
  {
    hide SplitsInto, Cut, Behind, Put;
    forall more | SplitsInto(w, next, limit, more)
      ensures SplitsInto(w, text, limit, Behind(w, chunks, chunk) + more)
    {
      CutSplits(w, rest, limit, p, chunk, next, more);
      BehindIsPut(w, chunks, chunk, more);
    }
  }

  lemma CutSplits(w: Splitter, rest: string, limit: nat, p: nat, chunk: string, next: string, more: seq<string>)
    requires |rest| > limit && Cut(w, rest, limit, p, chunk, next)
    ensures SplitsInto(w, next, limit, more) ==> SplitsInto(w, rest, limit, Put(w, chunk, more))
  {
    assert |next| < |rest|;
    hide Cut;
  }

  lemma LeftOver(w: Splitter, text: string, limit: nat, chunks: seq<string>, rest: string)
    requires LeavesOver(w, text, limit, chunks, rest) && |rest| <= limit
    ensures rest == "" ==> SplitsInto(w, text, limit, chunks)
    ensures rest != "" ==> SplitsInto(w, text, limit, chunks + [rest])
  {
    if rest == "" {
      assert SplitsInto(w, rest, limit, []);
      assert chunks + [] == chunks;
    } else {
      assert SplitsInto(w, rest, limit, [rest]);
    }
  }

  lemma SenderCuts(rest: string, limit: nat)
    requires 1 <= limit < |rest|
    ensures var p := SplitPoint(rest, limit);
            && limit / 2 < p <= limit
            && Cut(Sender, rest, limit, p, rest[..p][..RStripEnd(rest[..p])], rest[p..][LStripStart(rest[p..])..])
  {
    SplitPointIsGood(rest, limit);
    SplitPreference(rest, limit);
    hide SplitPoint, Preferred, IsSpace, RStripEnd, LStripStart;
    var p := SplitPoint(rest, limit);
    var e, b := RStripEnd(rest[..p]), LStripStart(rest[p..]);
    assert RightStripped(rest[..p], rest[..p][..e]);
    assert LeftStripped(rest[p..], rest[p..][b..]);
  }

  lemma StripIsStripped(s: string)
    ensures Stripped(s, Strip(s)) && |Strip(s)| <= |s|
  {
    hide IsSpace, RStripEnd, LStripStart;
    var t := s[LStripStart(s)..];
    assert LeftStripped(s, t);
    assert RightStripped(t, t[..RStripEnd(t)]);
  }

  lemma FormatterCuts(rest: string, limit: nat, boundaries: bool)
    requires 1 <= limit < |rest|
    ensures var p := if boundaries then ChunkPoint(rest, limit) else limit;
            && 0 < p <= limit
            && Cut(Formatter(boundaries), rest, limit, p, Strip(rest[..p]), Strip(rest[p..]))
  {
    ChunkPointIsGood(rest, limit);
    ChunkPreference(rest, limit);
    hide ChunkPoint, Preferred, IsSpace, Strip, Stripped;
    var p := if boundaries then ChunkPoint(rest, limit) else limit;
    StripIsStripped(rest[..p]);
    StripIsStripped(rest[p..]);
  }

  lemma EndsAreVisible(rest: string, p: nat)
    requires 0 < p <= |rest|
    ensures var chunk, next := rest[..p][..RStripEnd(rest[..p])], rest[p..][LStripStart(rest[p..])..];
            && NoTrailing(chunk) && (NoLeading(rest) ==> NoLeading(chunk))
            && (next != "" ==> NoLeading(next))
  {
    hide IsSpace;
    assert rest[..p][0] == rest[0];
  }

  /** One round of the sender. */
  lemma SenderRound(text: string, limit: nat, chunks: seq<string>, rest: string)
    requires 1 <= limit < |rest| && LeavesOver(Sender, text, limit, chunks, rest)
    ensures var p := SplitPoint(rest, limit);
            && p <= |rest|
            && LeavesOver(Sender, text, limit, chunks + [rest[..p][..RStripEnd(rest[..p])]],
                          rest[p..][LStripStart(rest[p..])..])
  {
    hide SplitPoint, LeavesOver, Cut, RStripEnd, LStripStart, IsSpace;
    SenderCuts(rest, limit);
    var p := SplitPoint(rest, limit);
    LessIsLeft(Sender, text, limit, chunks, rest, p, rest[..p][..RStripEnd(rest[..p])],
               rest[p..][LStripStart(rest[p..])..]);
  }

  /** One round of the formatter. */
  lemma FormatterRound(text: string, limit: nat, boundaries: bool, chunks: seq<string>, rest: string)
    requires 1 <= limit < |rest| && LeavesOver(Formatter(boundaries), text, limit, chunks, rest)
    ensures var p := if boundaries then ChunkPoint(rest, limit) else limit;
            && p <= |rest|
            && LeavesOver(Formatter(boundaries), text, limit,
                          if Strip(rest[..p]) == "" then chunks else chunks + [Strip(rest[..p])], Strip(rest[p..]))
  {
    hide ChunkPoint, LeavesOver, Cut, Strip;
    FormatterCuts(rest, limit, boundaries);
    var p := if boundaries then ChunkPoint(rest, limit) else limit;
    LessIsLeft(Formatter(boundaries), text, limit, chunks, rest, p, Strip(rest[..p]), Strip(rest[p..]));
  }

  // ---- what a splitting must satisfy ----------------------------------------------

  ghost function EndBefore(chunks: seq<string>, starts: seq<nat>, i: nat): nat
    requires i <= |chunks| == |starts|
  {
    if i == 0 then 0 else starts[i - 1] + |chunks[i - 1]|
  }

  ghost function StartOf(starts: seq<nat>, i: nat, upto: nat): nat
    requires i <= |starts|
  {
    if i == |starts| then upto else starts[i]
  }

  /** The first `upto` characters of the text are the chunks in order, each where `starts`
      says, with nothing but whitespace before, between and after them. */
  ghost predicate Covers(text: string, chunks: seq<string>, starts: seq<nat>, upto: nat) {
    && |starts| == |chunks| && upto <= |text|
    && (forall i | 0 <= i < |chunks| ::
          starts[i] + |chunks[i]| <= |text| && text[starts[i]..starts[i] + |chunks[i]|] == chunks[i])
    && (forall i: nat | i <= |chunks| :: Blank(text, EndBefore(chunks, starts, i), StartOf(starts, i, upto)))
  }

  /** A maximal run without breaks. */
  ghost predicate Word(text: string, a: nat, b: nat) {
    && a <= b <= |text|
    && (forall i | a <= i < b :: !IsBreak(text[i]))
    && (a == 0 || IsBreak(text[a - 1]))
    && (b == |text| || IsBreak(text[b]))
  }

  /** A cut between two visible characters only happens inside a long word. */
  ghost predicate SparesWords(text: string, cut: nat, limit: nat, spare: bool) {
    spare && 0 < cut < |text| && !IsSpace(text[cut - 1]) && !IsSpace(text[cut]) ==>
      forall a: nat, b: nat | Word(text, a, b) && a < cut < b :: b - a >= limit - limit / 2
  }

  ghost predicate SparesAll(text: string, chunks: seq<string>, starts: seq<nat>, limit: nat, spare: bool)
    requires |chunks| == |starts|
  {
    forall i: nat | 1 <= i <= |chunks| :: SparesWords(text, EndBefore(chunks, starts, i), limit, spare)
  }

  /** Every chunk fits, the text is the chunks with whitespace around them, no short word
      is cut, and every chunk but the last used up more than half the limit. */
  ghost predicate GoodSplitting(text: string, chunks: seq<string>, limit: nat, spare: bool) {
    && (forall i | 0 <= i < |chunks| :: |chunks[i]| <= limit)
    && (|chunks| - 1) * (limit / 2 + 1) <= |text|
    && exists starts: seq<nat> ::
         Covers(text, chunks, starts, |text|) && SparesAll(text, chunks, starts, limit, spare)
  }

  /** The same for the part of the text that has been split so far. */
  ghost predicate SplitSoFar(text: string, chunks: seq<string>, starts: seq<nat>, upto: nat, limit: nat, spare: bool) {
    && Covers(text, chunks, starts, upto)
    && SparesAll(text, chunks, starts, limit, spare)
    && (forall i | 0 <= i < |chunks| :: |chunks[i]| <= limit)
    && |chunks| * (limit / 2 + 1) <= upto
  }

  ghost predicate NoLeading(s: string) {
    s != "" && !IsSpace(s[0])
  }

  ghost predicate NoTrailing(s: string) {
    s == "" || !IsSpace(s[|s| - 1])
  }

  lemma Extend(text: string, chunks: seq<string>, starts: seq<nat>, upto: nat, s: nat, c: string, upto': nat)
    requires Covers(text, chunks, starts, upto)
    requires Blank(text, upto, s) && s + |c| <= |text| && text[s..s + |c|] == c && Blank(text, s + |c|, upto')
    ensures Covers(text, chunks + [c], starts + [s], upto')
  {
    var chunks', starts' := chunks + [c], starts + [s];
    forall i: nat | i <= |chunks'|
      ensures Blank(text, EndBefore(chunks', starts', i), StartOf(starts', i, upto'))
    {
      if i <= |chunks| {
        assert EndBefore(chunks', starts', i) == EndBefore(chunks, starts, i);
        assert Blank(text, EndBefore(chunks, starts, i), StartOf(starts, i, upto));
      }
    }
  }

  lemma Widen(text: string, chunks: seq<string>, starts: seq<nat>, upto: nat, upto': nat)
    requires Covers(text, chunks, starts, upto) && Blank(text, upto, upto')
    ensures Covers(text, chunks, starts, upto')
  {
    forall i: nat | i <= |chunks|
      ensures Blank(text, EndBefore(chunks, starts, i), StartOf(starts, i, upto'))
    {
      assert Blank(text, EndBefore(chunks, starts, i), StartOf(starts, i, upto));
    }
  }

  lemma AddChunk(text: string, chunks: seq<string>, starts: seq<nat>, upto: nat, limit: nat,
                 s: nat, c: string, upto': nat, spare: bool)
    requires SplitSoFar(text, chunks, starts, upto, limit, spare)
    requires Blank(text, upto, s) && s + |c| <= |text| && text[s..s + |c|] == c && Blank(text, s + |c|, upto')
    requires |c| <= limit && SparesWords(text, s + |c|, limit, spare) && upto + limit / 2 < upto'
    ensures SplitSoFar(text, chunks + [c], starts + [s], upto', limit, spare)
  {
    hide SparesWords;
    Extend(text, chunks, starts, upto, s, c, upto');
    SparesMore(text, chunks, starts, limit, s, c, spare);
    OneMore(|chunks|, limit / 2 + 1);
  }

  lemma SparesMore(text: string, chunks: seq<string>, starts: seq<nat>, limit: nat, s: nat, c: string, spare: bool)
    requires |chunks| == |starts| && SparesAll(text, chunks, starts, limit, spare)
    requires SparesWords(text, s + |c|, limit, spare)
    ensures SparesAll(text, chunks + [c], starts + [s], limit, spare)
  {
    hide SparesWords;
    forall i: nat | 1 <= i <= |chunks + [c]|
      ensures SparesWords(text, EndBefore(chunks + [c], starts + [s], i), limit, spare)
    {
      if i <= |chunks| {
        assert EndBefore(chunks + [c], starts + [s], i) == EndBefore(chunks, starts, i);
      }
    }
  }

  lemma OneMore(n: int, h: int)
    ensures (n + 1) * h == n * h + h
  {
  }

  lemma BlankSpares(text: string, cut: nat, limit: nat, spare: bool)
    requires Blank(text, cut, |text|)
    ensures SparesWords(text, cut, limit, spare)
  {
  }

  /** The last chunk takes what is left. */
  lemma Finish(text: string, chunks: seq<string>, starts: seq<nat>, upto: nat, limit: nat, c: string, spare: bool)
    requires SplitSoFar(text, chunks, starts, upto, limit, spare)
    requires upto + |c| <= |text| && text[upto..upto + |c|] == c && Blank(text, upto + |c|, |text|) && |c| <= limit
    ensures GoodSplitting(text, chunks + [c], limit, spare)
  {
    BlankSpares(text, upto + |c|, limit, spare);
    hide SparesWords;
    Extend(text, chunks, starts, upto, upto, c, |text|);
    SparesMore(text, chunks, starts, limit, upto, c, spare);
  }

  lemma AllSplit(text: string, chunks: seq<string>, starts: seq<nat>, limit: nat, spare: bool)
    requires SplitSoFar(text, chunks, starts, |text|, limit, spare)
    ensures GoodSplitting(text, chunks, limit, spare)
  {
    OneMore(|chunks| - 1, limit / 2 + 1);
  }

  /** Cutting the rest of a text at a good split point spares its words. */
  lemma CutSparesWords(text: string, off: nat, to: nat, limit: nat, p: nat, spare: bool)
    requires off <= to <= |text| && 1 <= limit && GoodSplit(text[off..to], limit, p, spare)
    ensures SparesWords(text, off + RStripEnd(text[off..to][..p]), limit, spare)
  {
    var rest := text[off..to];
    var e := RStripEnd(rest[..p]);
    var cut := off + e;
    assert forall i | 0 <= i < |rest| :: rest[i] == text[off + i];
    assert e < p ==> IsSpace(text[cut]) by {
      assert e < p ==> rest[..p][e] == rest[e];
    }
    assert e == p ==> text[cut - 1] == rest[p - 1];
    if spare && !IsSpace(rest[p - 1]) {
      assert forall i | off + limit / 2 < i < off + limit :: text[i] == rest[i - off] && !IsBreak(text[i]);
    }
  }

  lemma SplitBounds(text: string, limit: nat, p: nat, spare: bool)
    requires GoodSplit(text, limit, p, spare)
    ensures limit / 2 < p <= limit <= |text|
  {
  }

  /** Where the first p characters of what remains leave their text, and the blanks behind. */
  lemma CutPlaces(text: string, off: nat, p: nat, e: nat, b: nat)
    requires off + p <= |text|
    requires e == RStripEnd(text[off..][..p]) && b == LStripStart(text[off..][p..])
    ensures e <= p && off + p + b <= |text|
    ensures text[off..][..p][..e] == text[off..off + e]
    ensures Blank(text, off, off) && Blank(text, off + e, off + p + b)
  {
    hide IsSpace, LStripStart, RStripEnd;
    var rest := text[off..];
    assert forall i | e <= i < p :: rest[..p][i] == text[off + i];
    assert forall i | 0 <= i < b :: rest[p..][i] == text[off + p + i];
  }

  /** One round of the sender's loop. */
  lemma Round(text: string, chunks: seq<string>, starts: seq<nat>, off: nat, limit: nat,
              p: nat, e: nat, b: nat, spare: bool)
    requires 1 <= limit < |text| - off && SplitSoFar(text, chunks, starts, off, limit, spare)
    requires GoodSplit(text[off..], limit, p, spare)
    requires e == RStripEnd(text[off..][..p]) && b == LStripStart(text[off..][p..])
    ensures SplitSoFar(text, chunks + [text[off..][..p][..e]], starts + [off], off + p + b, limit, spare)
  {
    hide *;
    SplitBounds(text[off..], limit, p, spare);
    CutPlaces(text, off, p, e, b);
    assert text[off..|text|] == text[off..];
    CutSparesWords(text, off, |text|, limit, p, spare);
    AddChunk(text, chunks, starts, off, limit, off, text[off..][..p][..e], off + p + b, spare);
  }

  lemma Nothing(text: string, limit: nat, spare: bool)
    ensures SplitSoFar(text, [], [], 0, limit, spare) && Blank(text, |text|, |text|)
  {
  }

  /** The splitter of the Telegram sender and adapter: trailing whitespace goes from each
      chunk, leading whitespace from what remains. */
  method SplitMessage(text: string, limit: nat) returns (chunks: seq<string>)
    requires limit >= 1
    ensures GoodSplitting(text, chunks, limit, true)
    ensures |text| <= limit ==> chunks == [text]
    ensures forall i | 0 < i < |chunks| :: NoLeading(chunks[i])
    ensures forall i | 0 <= i < |chunks| - 1 :: NoTrailing(chunks[i])
    ensures |text| > limit ==> SplitsInto(Sender, text, limit, chunks)
  {
    hide SplitSoFar, GoodSplitting, SparesWords, SplitPoint, IsSpace, LStripStart, RStripEnd, SplitsInto, LeavesOver,
         Cut, NoLeading, NoTrailing;
    chunks := [];
    ghost var off: nat, starts: seq<nat> := 0, [];
    Nothing(text, limit, true);
    if |text| <= limit {
      Finish(text, chunks, starts, off, limit, text, true);
      assert chunks + [text] == [text];
      return [text];
    }
    var remaining := text;
    AllIsLeft(Sender, text, limit);
    while remaining != ""
      invariant LeavesOver(Sender, text, limit, chunks, remaining)
      invariant off <= |text| && remaining == text[off..]
      invariant SplitSoFar(text, chunks, starts, off, limit, true)
      invariant |chunks| > 0 && remaining != "" ==> NoLeading(remaining)
      invariant forall i | 0 < i < |chunks| :: NoLeading(chunks[i])
      invariant forall i | 0 <= i < |chunks| :: NoTrailing(chunks[i])
      decreases |remaining|
    {
      if |remaining| <= limit {
        Finish(text, chunks, starts, off, limit, remaining, true);
        LeftOver(Sender, text, limit, chunks, remaining);
        return chunks + [remaining];
      }
      var p := SplitPoint(remaining, limit);
      SplitPointIsGood(remaining, limit);
      var e, b := RStripEnd(remaining[..p]), LStripStart(remaining[p..]);
      Round(text, chunks, starts, off, limit, p, e, b, true);
      SenderRound(text, limit, chunks, remaining);
      EndsAreVisible(remaining, p);
      chunks, starts := chunks + [remaining[..p][..e]], starts + [off];
      remaining := remaining[p..][b..];
      off := off + p + b;
    }
    AllSplit(text, chunks, starts, limit, true);
    LeftOver(Sender, text, limit, chunks, "");
  }

  // ---- the formatter's chunks --------------------------------------------------------

  lemma SliceBlank(text: string, from: nat, to: nat, i: nat, j: nat)
    requires from <= to <= |text| && Blank(text[from..to], i, j)
    ensures Blank(text, from + i, from + j)
  {
    forall k | from + i <= k < from + j
      ensures IsSpace(text[k])
    {
      assert text[from..to][k - from] == text[k];
    }
  }

  lemma SliceSlice(text: string, from: nat, to: nat, i: nat, j: nat)
    requires from <= to <= |text| && i <= j <= to - from
    ensures text[from..to][i..j] == text[from + i..from + j]
  {
    var a, b := text[from..to][i..j], text[from + i..from + j];
    assert |a| == |b|;
    assert forall k | 0 <= k < |a| :: a[k] == b[k];
    assert a == b;
  }

  lemma BlankJoin(s: string, a: nat, b: nat, c: nat)
    requires Blank(s, a, b) && Blank(s, b, c)
    ensures Blank(s, a, c)
  {
  }

  lemma StripShape(s: string)
    ensures var b, n := LStripStart(s), |Strip(s)|;
            && b + n <= |s| && Strip(s) == s[b..b + n]
            && Blank(s, b + n, |s|)
            && (n > 0 ==> b + n == RStripEnd(s))
  {
    hide IsSpace, LStripStart, RStripEnd;
    var b := LStripStart(s);
    var tail := s[b..|s|];
    assert tail == s[b..];
    var n := RStripEnd(tail);
    SliceSlice(s, b, |s|, 0, n);
    SliceBlank(s, b, |s|, n, |s| - b);
    if n > 0 {
      assert tail[n - 1] == s[b + n - 1];
      RStripUnique(s, b + n);
    }
  }

  /** Where stripping a piece text[from..to] leaves its content. */
  lemma StripPlaces(text: string, from: nat, to: nat)
    requires from <= to <= |text|
    ensures var piece := text[from..to];
            var b, c := LStripStart(piece), Strip(piece);
            && from + b + |c| <= to && c == text[from + b..from + b + |c|]
            && Blank(text, from, from + b) && Blank(text, from + b + |c|, to)
            && (c != "" ==> b + |c| == RStripEnd(piece))
  {
    hide Strip, IsSpace, LStripStart, RStripEnd;
    var piece := text[from..to];
    var b, c := LStripStart(piece), Strip(piece);
    StripShape(piece);
    SliceBlank(text, from, to, 0, b);
    SliceBlank(text, from, to, b + |c|, |piece|);
    SliceSlice(text, from, to, b, b + |c|);
  }

  lemma {:induction false} RStripUnique(s: string, e: nat)
    requires e <= |s| && Blank(s, e, |s|) && (e > 0 ==> !IsSpace(s[e - 1]))
    ensures RStripEnd(s) == e
  {
    if e < |s| {
      RStripUnique(s[..|s| - 1], e);
    }
  }

  lemma SplitWiden(text: string, chunks: seq<string>, starts: seq<nat>, upto: nat, upto': nat, limit: nat,
                  spare: bool)
    requires SplitSoFar(text, chunks, starts, upto, limit, spare) && Blank(text, upto, upto')
    ensures SplitSoFar(text, chunks, starts, upto', limit, spare)
  {
    Widen(text, chunks, starts, upto, upto');
  }

  /** One round of the formatter's loop, on the part text[off..to] that remains. */
  lemma ChunkRound(text: string, chunks: seq<string>, starts: seq<nat>, off: nat, to: nat, limit: nat,
                   p: nat, spare: bool)
    requires off <= to <= |text| && 1 <= limit < to - off
    requires SplitSoFar(text, chunks, starts, off, limit, spare) && GoodSplit(text[off..to], limit, p, spare)
    ensures var chunk := Strip(text[off..to][..p]);
            var s := off + LStripStart(text[off..to][..p]);
            if chunk == "" then SplitSoFar(text, chunks, starts, off + p, limit, spare)
            else SplitSoFar(text, chunks + [chunk], starts + [s], off + p, limit, spare)
  {
    hide Strip, IsSpace, LStripStart, RStripEnd, SplitSoFar, SparesWords, Blank;
    assert text[off..to][..p] == text[off..off + p];
    var chunk := Strip(text[off..off + p]);
    var s := off + LStripStart(text[off..off + p]);
    CutSparesWords(text, off, to, limit, p, spare);
    StripPlaces(text, off, off + p);
    if chunk == "" {
      BlankJoin(text, off, s, off + p);
      SplitWiden(text, chunks, starts, off, off + p, limit, spare);
    } else {
      AddChunk(text, chunks, starts, off, limit, s, chunk, off + p, spare);
    }
  }

  /** The formatter's splitter: both ends of every chunk and of what remains are stripped,
      and empty chunks are left out. Words are spared only if boundaries are respected. */
  method ChunkResponse(text: string, limit: nat, respectBoundaries: bool) returns (chunks: seq<string>)
    requires limit >= 1
    ensures GoodSplitting(text, chunks, limit, respectBoundaries)
    ensures |text| <= limit ==> chunks == [text]
    ensures |text| > limit ==> forall i | 0 <= i < |chunks| :: NoLeading(chunks[i]) && NoTrailing(chunks[i])
    ensures |text| > limit ==> SplitsInto(Formatter(respectBoundaries), text, limit, chunks)
  {
    hide SplitSoFar, GoodSplitting, SparesWords, ChunkPoint, GoodSplit, Strip, IsSpace, LStripStart, RStripEnd,
         NoLeading, NoTrailing, Blank, SplitsInto, LeavesOver, Cut;
    ghost var w := Formatter(respectBoundaries);
    chunks := [];
    ghost var off: nat, to: nat, starts: seq<nat> := 0, |text|, [];
    Nothing(text, limit, respectBoundaries);
    if |text| <= limit {
      Finish(text, chunks, starts, off, limit, text, respectBoundaries);
      assert chunks + [text] == [text];
      return [text];
    }
    var remaining := text;
    AllIsLeft(w, text, limit);
    while remaining != ""
      invariant LeavesOver(w, text, limit, chunks, remaining)
      invariant off <= to <= |text| && remaining == text[off..to] && Blank(text, to, |text|)
      invariant SplitSoFar(text, chunks, starts, off, limit, respectBoundaries)
      invariant remaining != text && remaining != "" ==> NoLeading(remaining) && NoTrailing(remaining)
      invariant |remaining| <= |text| && (|remaining| == |text| ==> remaining == text)
      invariant forall i | 0 <= i < |chunks| :: NoLeading(chunks[i]) && NoTrailing(chunks[i])
      decreases |remaining|
    {
      if |remaining| <= limit {
        Finish(text, chunks, starts, off, limit, remaining, respectBoundaries);
        LeftOver(w, text, limit, chunks, remaining);
        return chunks + [remaining];
      }
      var p := if respectBoundaries then ChunkPoint(remaining, limit) else limit;
      PointIsGood(remaining, limit, respectBoundaries);
      ChunkRound(text, chunks, starts, off, to, limit, p, respectBoundaries);
      var chunk := Strip(remaining[..p]);
      FormatterRound(text, limit, respectBoundaries, chunks, remaining);
      StripEnds(remaining[..p]);
      StripEnds(remaining[p..]);
      if chunk != "" {
        chunks, starts := chunks + [chunk], starts + [off + LStripStart(remaining[..p])];
      }
      ShrinkRest(text, off, to, p, chunks, starts, limit, respectBoundaries);
      ghost var b := LStripStart(remaining[p..]);
      remaining := Strip(remaining[p..]);
      off := off + p + b;
      to := off + |remaining|;
    }
    SplitWiden(text, chunks, starts, off, |text|, limit, respectBoundaries);
    AllSplit(text, chunks, starts, limit, respectBoundaries);
    LeftOver(w, text, limit, chunks, "");
  }

  lemma StripEnds(s: string)
    ensures Strip(s) != "" ==> NoLeading(Strip(s)) && NoTrailing(Strip(s))
    ensures |Strip(s)| <= |s|
  {
    hide IsSpace, LStripStart, RStripEnd;
    StripShape(s);
  }

  lemma PointIsGood(text: string, limit: nat, spare: bool)
    requires 1 <= limit <= |text|
    ensures GoodSplit(text, limit, if spare then ChunkPoint(text, limit) else limit, spare)
    ensures var p := if spare then ChunkPoint(text, limit) else limit; 0 < p <= limit
  {
    ChunkPointIsGood(text, limit);
  }

  /** Stripping what remains after a cut only skips whitespace. */
  lemma ShrinkRest(text: string, off: nat, to: nat, p: nat, chunks: seq<string>, starts: seq<nat>, limit: nat,
                   spare: bool)
    requires off <= off + p <= to <= |text| && Blank(text, to, |text|)
    requires SplitSoFar(text, chunks, starts, off + p, limit, spare)
    ensures var rest := text[off..to][p..];
            var s := off + p + LStripStart(rest);
            && s + |Strip(rest)| <= to
            && Strip(rest) == text[s..s + |Strip(rest)|]
            && Blank(text, s + |Strip(rest)|, |text|)
            && SplitSoFar(text, chunks, starts, s, limit, spare)
  {
    hide Strip, SplitSoFar, Blank, IsSpace, LStripStart, RStripEnd;
    assert text[off..to][p..] == text[off + p..to];
    StripPlaces(text, off + p, to);
    var s := off + p + LStripStart(text[off + p..to]);
    BlankJoin(text, s + |Strip(text[off + p..to])|, to, |text|);
    SplitWiden(text, chunks, starts, off + p, off + p + LStripStart(text[off + p..to]), limit, spare);
  }
}
