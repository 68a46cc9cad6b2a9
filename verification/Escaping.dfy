/** Escaping for Telegram's MarkdownV2: the formatter's escaper
    (app/agent/result_formatter.py) and the adapter's (app/interfaces/adapters.py). */
module Escaping {

  /** The characters both escapers go through, in their order. */
  const SPECIALS: seq<char> := "_*[]()~`>#+-=|{}.!"

  /** Python's replace of a single character. */
  function Replace(s: string, c: char, repl: string): string {
    if s == "" then "" else (if s[0] == c then repl else [s[0]]) + Replace(s[1..], c, repl)
  }

  /** The reference: one pass that puts a backslash before each listed character. */
  function Escape(s: string, chars: seq<char>): string {
    if s == "" then ""
    else (if s[0] in chars then ['\\', s[0]] else [s[0]]) + Escape(s[1..], chars)
  }

  lemma Associate(a: string, b: string, c: string)
    ensures (a + b) + c == a + (b + c)
  {
  }

  lemma ReplaceStep(s: string, c: char, repl: string)
    requires s != ""
    ensures Replace(s, c, repl) == (if s[0] == c then repl else [s[0]]) + Replace(s[1..], c, repl)
  {
  }

  lemma {:induction false} ReplaceConcat(a: string, b: string, c: char, repl: string)
    ensures Replace(a + b, c, repl) == Replace(a, c, repl) + Replace(b, c, repl)
  {
    if a == "" {
      assert a + b == b;
      assert Replace(a, c, repl) == "";
    } else {
      hide Replace;
      ReplaceConcat(a[1..], b, c, repl);
      ReplaceStep(a, c, repl);
      ReplaceStep(a + b, c, repl);
      assert (a + b)[0] == a[0] && (a + b)[1..] == a[1..] + b;
      Associate(if a[0] == c then repl else [a[0]], Replace(a[1..], c, repl), Replace(b, c, repl));
    }
  }

  /** One more pass over an escaped text escapes one more character. */
  lemma {:induction false} PassExtends(s: string, chars: seq<char>, c: char)
    requires c !in chars && c != '\\'
    ensures Replace(Escape(s, chars), c, ['\\', c]) == Escape(s, chars + [c])
  {
    if s != "" {
      PassExtends(s[1..], chars, c);
      var head := if s[0] in chars then ['\\', s[0]] else [s[0]];
      ReplaceConcat(head, Escape(s[1..], chars), c, ['\\', c]);
      if s[0] in chars {
        assert head[1..] == [s[0]] && head[1..][1..] == "";
      } else {
        assert head[1..] == "";
      }
    }
  }

  lemma {:induction false} FirstPass(s: string)
    ensures Replace(s, '\\', "\\\\") == Escape(s, ['\\'])
  {
    if s != "" {
      FirstPass(s[1..]);
    }
  }

  lemma {:induction false} NoPass(s: string)
    ensures Escape(s, []) == s
  {
    if s != "" {
      NoPass(s[1..]);
    }
  }

  ghost predicate Distinct(chars: seq<char>) {
    forall i, k :: 0 <= i < k < |chars| ==> chars[i] != chars[k]
  }

  function Place(c: char): int {
    match c
    case '_' => 0 case '*' => 1 case '[' => 2 case ']' => 3 case '(' => 4 case ')' => 5
    case '~' => 6 case '`' => 7 case '>' => 8 case '#' => 9 case '+' => 10 case '-' => 11
    case '=' => 12 case '|' => 13 case '{' => 14 case '}' => 15 case '.' => 16 case '!' => 17
    case _ => -1
  }

  lemma SpecialsDistinct()
    ensures Distinct(SPECIALS) && '\\' !in SPECIALS
  {
    assert |SPECIALS| == 18;
    assert forall i | 0 <= i < 18 :: Place(SPECIALS[i]) == i;
  }

  /** The passes after the first, which both escapers share. */
  method ReplaceEach(text: string, specials: seq<char>, ghost original: string, ghost before: seq<char>)
    returns (r: string)
    requires text == Escape(original, before)
    requires Distinct(specials) && '\\' !in specials && forall c | c in specials :: c !in before
    ensures r == Escape(original, before + specials)
  {
    r := text;
    assert before + specials[..0] == before;
    for i := 0 to |specials|
      invariant r == Escape(original, before + specials[..i])
    {
      var c := specials[i];
      assert c !in before + specials[..i];
      PassExtends(original, before + specials[..i], c);
      assert before + specials[..i] + [c] == before + specials[..i + 1];
      r := Replace(r, c, ['\\', c]);
    }
    assert specials[..|specials|] == specials;
  }

  /** The formatter: backslashes first, then the specials, nineteen passes in all. */
  method EscapeTelegram(text: string) returns (r: string)
    ensures r == Escape(text, ['\\'] + SPECIALS)
  {
    FirstPass(text);
    SpecialsDistinct();
    r := Replace(text, '\\', "\\\\");
    r := ReplaceEach(r, SPECIALS, text, ['\\']);
  }

  /** The adapter: the same without the pass for backslashes. */
  method EscapeMarkdownV2(text: string) returns (r: string)
    ensures r == Escape(text, SPECIALS)
  {
    NoPass(text);
    SpecialsDistinct();
    r := ReplaceEach(text, SPECIALS, text, []);
    assert [] + SPECIALS == SPECIALS;
  }

  // ---- character by character ----------------------------------------------------------

  /** Escaping goes character by character: a listed one gets a backslash, no other changes. */
  lemma {:induction false} EscapeConcat(a: string, b: string, chars: seq<char>)
    ensures Escape(a + b, chars) == Escape(a, chars) + Escape(b, chars)
  {
    if a == "" {
      assert a + b == b;
      assert Escape(a, chars) == "";
    } else {
      hide Escape;
      EscapeConcat(a[1..], b, chars);
      EscapeStep(a, chars);
      EscapeStep(a + b, chars);
      assert (a + b)[0] == a[0] && (a + b)[1..] == a[1..] + b;
      Associate(if a[0] in chars then ['\\', a[0]] else [a[0]], Escape(a[1..], chars), Escape(b, chars));
    }
  }

  lemma EscapeChar(c: char, chars: seq<char>)
    ensures Escape([c], chars) == if c in chars then ['\\', c] else [c]
    ensures Escape("", chars) == ""
  {
    assert [c][1..] == "";
  }

  lemma ReplaceChar(x: char, c: char, repl: string)
    ensures Replace([x], c, repl) == if x == c then repl else [x]
    ensures Replace("", c, repl) == ""
  {
    assert [x][1..] == "";
  }

  // ---- what the formatter's escaping is good for -----------------------------------

  /** Reading an escaped text: a backslash stands for the character after it. */
  function Unescape(s: string): string {
    if s == "" then ""
    else if s[0] == '\\' && |s| > 1 then [s[1]] + Unescape(s[2..])
    else [s[0]] + Unescape(s[1..])
  }

  /** Escaping loses nothing. */
  lemma {:induction false} UnescapeEscape(s: string, chars: seq<char>)
    requires '\\' in chars
    ensures Unescape(Escape(s, chars)) == s
  {
    if s != "" {
      UnescapeEscape(s[1..], chars);
      var out, rest := Escape(s, chars), Escape(s[1..], chars);
      if s[0] in chars {
        assert out[2..] == rest;
      } else {
        assert out[1..] == rest;
      }
    }
  }

  lemma EscapeInjective(s: string, t: string, chars: seq<char>)
    requires '\\' in chars && Escape(s, chars) == Escape(t, chars)
    ensures s == t
  {
    UnescapeEscape(s, chars);
    UnescapeEscape(t, chars);
  }

  /** No special character stands bare and no backslash is left hanging at the end. */
  predicate Safe(s: string, specials: seq<char>) {
    if s == "" then true
    else if s[0] == '\\' then |s| > 1 && Safe(s[2..], specials)
    else s[0] !in specials && Safe(s[1..], specials)
  }

  /** The condition on a text under which the adapter may leave its backslashes alone: no
      special character, and not the end, follows an odd run of them. */
  predicate BackslashesHarmless(s: string, specials: seq<char>) {
    if s == "" then true
    else if s[0] == '\\' then |s| > 1 && s[1] !in specials && BackslashesHarmless(s[2..], specials)
    else BackslashesHarmless(s[1..], specials)
  }

  lemma {:induction false} EscapedIsSafe(s: string, specials: seq<char>)
    ensures Safe(Escape(s, ['\\'] + specials), specials)
  {
    if s != "" {
      EscapedIsSafe(s[1..], specials);
      var chars := ['\\'] + specials;
      var out, rest := Escape(s, chars), Escape(s[1..], chars);
      if s[0] in chars {
        assert out[2..] == rest;
      } else {
        assert out[1..] == rest;
      }
    }
  }

  /** What the formatter puts out is always valid markdown. */
  lemma FormatterIsSafe(s: string)
    ensures Safe(Escape(s, ['\\'] + SPECIALS), SPECIALS)
  {
    EscapedIsSafe(s, SPECIALS);
  }

  lemma {:induction false} UnescapedBackslashesSafeIff(s: string, specials: seq<char>)
    requires '\\' !in specials
    ensures Safe(Escape(s, specials), specials) <==> BackslashesHarmless(s, specials)
    decreases |s|
  {
    if s != "" && s[0] != '\\' {
      UnescapedBackslashesSafeIff(s[1..], specials);
      SafeStep(s, specials);
    } else if |s| > 1 {
      UnescapedBackslashesSafeIff(s[2..], specials);
      SafeBackslash(s, specials);
    }
  }

  /** A character other than a backslash comes out safely. */
  lemma SafeStep(s: string, specials: seq<char>)
    requires s != "" && s[0] != '\\'
    ensures Safe(Escape(s, specials), specials) <==> Safe(Escape(s[1..], specials), specials)
  {
    var out, rest := Escape(s, specials), Escape(s[1..], specials);
    if s[0] in specials {
      assert out == ['\\', s[0]] + rest && out[2..] == rest;
    } else {
      assert out == [s[0]] + rest && out[1..] == rest;
    }
  }

  /** A backslash takes the next character with it, which the escaper has put another one
      before if it is special. */
  lemma SafeBackslash(s: string, specials: seq<char>)
    requires |s| > 1 && s[0] == '\\' && '\\' !in specials
    ensures Safe(Escape(s, specials), specials)
       <==> s[1] !in specials && Safe(Escape(s[2..], specials), specials)
  {
    EscapeStep(s, specials);
    EscapeStep(s[1..], specials);
    assert s[1..][0] == s[1] && s[1..][1..] == s[2..];
    hide Escape, BackslashesHarmless;
    SafePair(s[1], Escape(s[2..], specials), specials);
  }

  lemma SafePair(c: char, tail: string, specials: seq<char>)
    requires '\\' !in specials
    ensures c in specials ==> !Safe(['\\'] + (['\\', c] + tail), specials)
    ensures c !in specials ==> (Safe(['\\'] + ([c] + tail), specials) <==> Safe(tail, specials))
  {
    assert (['\\'] + (['\\', c] + tail))[2..] == [c] + tail;
    assert (['\\'] + ([c] + tail))[2..] == tail;
    assert ([c] + tail)[0] == c;
  }

  lemma EscapeStep(s: string, chars: seq<char>)
    requires s != ""
    ensures Escape(s, chars) == (if s[0] in chars then ['\\', s[0]] else [s[0]]) + Escape(s[1..], chars)
  {
  }

  /** The adapter's output is valid exactly for such texts; a backslash before an
      underscore, for one, comes out with the underscore bare. */
  lemma AdapterIsSafeIff(s: string)
    ensures Safe(Escape(s, SPECIALS), SPECIALS) <==> BackslashesHarmless(s, SPECIALS)
  {
    SpecialsDistinct();
    UnescapedBackslashesSafeIff(s, SPECIALS);
  }

  lemma AdapterLeavesUnderscoreBare()
    ensures Escape("\\_", SPECIALS) == "\\\\_" && !Safe(Escape("\\_", SPECIALS), SPECIALS)
  {
    var t := "\\_";
    assert t[1..] == "_" && t[1..][1..] == "";
    assert !BackslashesHarmless(t, SPECIALS);
    AdapterIsSafeIff(t);
  }

  lemma {:induction false} BackslashesAdd(s: string)
    ensures |Escape(s, ['\\'] + SPECIALS)| >= |Escape(s, SPECIALS)|
    ensures '\\' in s ==> |Escape(s, ['\\'] + SPECIALS)| > |Escape(s, SPECIALS)|
    ensures '\\' !in s ==> Escape(s, ['\\'] + SPECIALS) == Escape(s, SPECIALS)
  {
    if s != "" {
      BackslashesAdd(s[1..]);
    }
  }

  /** The two escapers agree on exactly the texts without a backslash. */
  lemma EscapersAgreeIff(s: string)
    ensures Escape(s, ['\\'] + SPECIALS) == Escape(s, SPECIALS) <==> '\\' !in s
  {
    BackslashesAdd(s);
  }

  // ---- the formatter's truncation ----------------------------------------------------

  /** Python's s[:n], where a negative n counts from the end. */
  function Head(s: string, n: int): string {
    if n >= |s| then s else if n >= 0 then s[..n] else if n + |s| >= 0 then s[..n + |s|] else ""
  }

  method FormatForTelegram(text: string, maxLength: int) returns (r: string)
    ensures var max := if maxLength == 0 then 4096 else maxLength;
            var escaped := Escape(text, ['\\'] + SPECIALS);
            && r == (if |escaped| > max then Head(escaped, max - 3) + "..." else escaped)
            && (|r| <= max <==> |escaped| <= max || max >= 3)
            && (|escaped| <= max ==> r == escaped)
            && (|escaped| > max >= 3 ==> r == escaped[..max - 3] + "...")
            && (|escaped| > max && max < 3 ==>
                  r == escaped[..if |escaped| >= 3 - max then |escaped| - (3 - max) else 0] + "...")
  {
    var max := if maxLength == 0 then 4096 else maxLength;
    r := EscapeTelegram(text);
    if |r| > max {
      r := Head(r, max - 3) + "...";
    }
  }

  lemma {:induction false} DotsAreUnsafe(s: string, specials: seq<char>)
    requires '.' in specials
    ensures !Safe(s + "...", specials)
    decreases |s|
  {
    var t := s + "...";
    if s == "" {
      assert t == "...";
    } else if s[0] == '\\' && |s| > 1 {
      DotsAreUnsafe(s[2..], specials);
      assert t[2..] == s[2..] + "...";
    } else if s[0] == '\\' {
      assert t[2..] == "..";
    } else {
      DotsAreUnsafe(s[1..], specials);
      assert t[1..] == s[1..] + "...";
    }
  }

  /** The formatted text is valid markdown exactly when it was short enough not to be cut:
      the dots that mark a cut are themselves not escaped. */
  lemma FormattedIsSafeIff(text: string, max: int)
    ensures var escaped := Escape(text, ['\\'] + SPECIALS);
            Safe(if |escaped| > max then Head(escaped, max - 3) + "..." else escaped, SPECIALS) <==> |escaped| <= max
  {
    FormatterIsSafe(text);
    DotsAreUnsafe(Head(Escape(text, ['\\'] + SPECIALS), max - 3), SPECIALS);
  }
}
