/** Whitespace as Python's string methods see it. */
module Whitespace {

  /** The characters that Python's strip and the pattern \s take for whitespace. */
  predicate IsSpace(c: char) {
    var n := c as int;
    || 9 <= n <= 13 || 28 <= n <= 32 || n == 0x85 || n == 0xA0 || n == 0x1680
    || 0x2000 <= n <= 0x200A || n == 0x2028 || n == 0x2029 || n == 0x202F || n == 0x205F || n == 0x3000
  }

  ghost predicate Blank(s: string, from: nat, to: nat) {
    from <= to <= |s| && forall i | from <= i < to :: IsSpace(s[i])
  }

  /** Where the text ends once trailing whitespace is gone. */
  function RStripEnd(s: string): (e: nat)
    ensures e <= |s| && Blank(s, e, |s|)
    ensures e > 0 ==> !IsSpace(s[e - 1])
  {
    if s == "" || !IsSpace(s[|s| - 1]) then |s| else RStripEnd(s[..|s| - 1])
  }

  function LStripStart(s: string): (b: nat)
    ensures b <= |s| && Blank(s, 0, b)
    ensures b < |s| ==> !IsSpace(s[b])
  {
    if s == "" || !IsSpace(s[0]) then 0 else 1 + LStripStart(s[1..])
  }

  function Strip(s: string): string {
    s[LStripStart(s)..][..RStripEnd(s[LStripStart(s)..])]
  }
}
