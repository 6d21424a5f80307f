/** The parts of Kotlin's string library that the widget's formatter relies on:
    `Char.isWhitespace`, `trim`, `trimStart`, `indexOf(Char)` and `lines()`. */
module KotlinText {

  /** Kotlin/JVM `Char.isWhitespace()`: Java's `Character.isWhitespace(c) || Character.isSpaceChar(c)`,
      that is the ASCII controls 9..13 and 28..31, and every space, line and paragraph separator. */
  predicate IsWhitespace(c: char) {
    var n := c as int;
    (9 <= n <= 13) || (28 <= n <= 32) || n == 0xA0 || n == 0x1680 || (0x2000 <= n <= 0x200A) ||
    n == 0x2028 || n == 0x2029 || n == 0x202F || n == 0x205F || n == 0x3000
  }

  predicate AllWhitespace(s: string) {
    forall i :: 0 <= i < |s| ==> IsWhitespace(s[i])
  }

  /** The number of whitespace characters that `trimStart` removes. */
  function LeadingWhitespace(s: string): (n: nat)
    ensures n <= |s| && AllWhitespace(s[..n])
    ensures n < |s| ==> !IsWhitespace(s[n])
  {
    if s != [] && IsWhitespace(s[0]) then
      var k := LeadingWhitespace(s[1..]);
      assert s[..k + 1] == [s[0]] + s[1..][..k];
      k + 1
    else 0
  }

  /** The number of whitespace characters that `trim` removes at the end. */
  function TrailingWhitespace(s: string): (n: nat)
    ensures n <= |s| && AllWhitespace(s[|s| - n..])
    ensures n < |s| ==> !IsWhitespace(s[|s| - n - 1])
  {
    if s != [] && IsWhitespace(s[|s| - 1]) then
      var k := TrailingWhitespace(s[..|s| - 1]);
      WhitespaceTailGrows(s, k);
      k + 1
    else 0
  }

  /** A whitespace tail of everything but the last character, followed by a whitespace last
      character, is one longer whitespace tail. */
  lemma WhitespaceTailGrows(s: string, k: nat)
    requires s != [] && IsWhitespace(s[|s| - 1]) && k <= |s| - 1
    requires AllWhitespace(s[..|s| - 1][|s| - 1 - k..])
    ensures AllWhitespace(s[|s| - (k + 1)..])
  {
    var init := s[..|s| - 1];
    var tail := s[|s| - (k + 1)..];
    forall i | 0 <= i < |tail| ensures IsWhitespace(tail[i]) {
      if i < k {
        assert tail[i] == init[|init| - k..][i];
      }
    }
  }

  /** Kotlin `trimStart()`: the suffix of `s` behind a whitespace-only prefix, starting with a
      non-whitespace character unless it is empty. */
  function TrimStart(s: string): (r: string)
    ensures |r| <= |s| && r == s[|s| - |r|..]
    ensures AllWhitespace(s[..|s| - |r|])
    ensures r != [] ==> !IsWhitespace(r[0])
  {
    s[LeadingWhitespace(s)..]
  }

  /** Kotlin `trim()`: the slice of `s` left after dropping leading and trailing whitespace. */
  function Trim(s: string): (r: string)
    ensures LeadingWhitespace(s) + |r| <= |s|
    ensures r == s[LeadingWhitespace(s)..LeadingWhitespace(s) + |r|]
    ensures AllWhitespace(s[LeadingWhitespace(s) + |r|..])
    ensures r != [] ==> !IsWhitespace(r[0]) && !IsWhitespace(r[|r| - 1])
  {
    var n := LeadingWhitespace(s);
    var t := s[n..];
    var m := TrailingWhitespace(t);
    var r := t[..|t| - m];
    assert r == s[n..n + |r|];
    assert s[n + |r|..] == t[|t| - m..];
    assert r != [] ==> r[0] == s[n] && r[|r| - 1] == t[|t| - m - 1];
    r
  }

  /** `LeadingWhitespace` is pinned down by its contract: any whitespace-only prefix followed by
      a non-whitespace character (or the end) has exactly that length. */
  lemma {:induction false} LeadingWhitespaceExact(s: string, n: nat)
    requires n <= |s| && AllWhitespace(s[..n])
    requires n < |s| ==> !IsWhitespace(s[n])
    ensures LeadingWhitespace(s) == n
    decreases n
  {
    if n > 0 {
      assert s[..n][0] == s[0];
      assert s[1..][..n - 1] == s[..n][1..];
      LeadingWhitespaceExact(s[1..], n - 1);
    }
  }

  /** Kotlin `indexOf(c)`: the first index holding `c`, or -1. */
  function IndexOf(s: string, c: char): (r: int)
    ensures -1 <= r < |s|
    ensures r == -1 <==> c !in s
    ensures r >= 0 ==> s[r] == c && c !in s[..r]
  {
    if s == [] then -1
    else if s[0] == c then 0
    else
      var k := IndexOf(s[1..], c);
      if k == -1 then -1
      else
        assert s[..k + 1] == [s[0]] + s[1..][..k];
        k + 1
  }

  /** A line terminator as Kotlin's `lines()` knows it: `\n`, `\r`, or the pair `\r\n`. */
  predicate IsBreak(c: char) {
    c == '\n' || c == '\r'
  }

  predicate NoBreaks(s: string) {
    forall i :: 0 <= i < |s| ==> !IsBreak(s[i])
  }

  /** The length of the terminator starting at `i`: `\r\n` is tried before `\r`. */
  function BreakWidth(s: string, i: nat): (w: nat)
    requires i < |s| && IsBreak(s[i])
    ensures 1 <= w <= 2 && i + w <= |s|
  {
    if s[i] == '\r' && i + 1 < |s| && s[i + 1] == '\n' then 2 else 1
  }

  /** The index of the first terminator character, or `|s|` when there is none. */
  function FirstBreak(s: string): (i: nat)
    ensures i <= |s| && NoBreaks(s[..i])
    ensures i < |s| ==> IsBreak(s[i])
  {
    if s == [] || IsBreak(s[0]) then 0
    else
      var k := FirstBreak(s[1..]);
      assert s[..k + 1] == [s[0]] + s[1..][..k];
      k + 1
  }

  /** Kotlin `lines()`: split at every `\r\n`, `\n` or `\r`; a trailing terminator yields a trailing "". */
  function Lines(s: string): (r: seq<string>)
    ensures |r| >= 1
    ensures forall k :: 0 <= k < |r| ==> NoBreaks(r[k])
    decreases |s|
  {
    var i := FirstBreak(s);
    if i == |s| then
      assert s[..i] == s;
      [s]
    else
      [s[..i]] + Lines(s[i + BreakWidth(s, i)..])
  }

  /** The number of line terminators, counted character by character, `\r\n` once. */
  function BreakCount(s: string): nat {
    if s == [] then 0
    else if s[0] == '\r' && |s| > 1 && s[1] == '\n' then 1 + BreakCount(s[2..])
    else if IsBreak(s[0]) then 1 + BreakCount(s[1..])
    else BreakCount(s[1..])
  }

  lemma {:induction false} BreakCountSkip(s: string, i: nat)
    requires i <= |s| && NoBreaks(s[..i])
    ensures BreakCount(s) == BreakCount(s[i..])
    decreases i
  {
    if i > 0 {
      assert s[..i][0] == s[0];
      assert s[1..][..i - 1] == s[..i][1..];
      BreakCountSkip(s[1..], i - 1);
      assert s[1..][i - 1..] == s[i..];
    }
  }

  /** A document with N line terminators splits into N + 1 lines. */
  lemma {:induction false} LineCount(s: string)
    ensures |Lines(s)| == BreakCount(s) + 1
    decreases |s|
  {
    var i := FirstBreak(s);
    BreakCountSkip(s, i);
    if i < |s| {
      var t := s[i..];
      assert t[0] == s[i];
      var w := BreakWidth(s, i);
      if w == 2 {
        assert t[2..] == s[i + 2..];
      } else {
        assert t[1..] == s[i + 1..];
      }
      LineCount(s[i + w..]);
    }
  }

  function JoinLines(ls: seq<string>, sep: string): string {
    if ls == [] then ""
    else if |ls| == 1 then ls[0]
    else ls[0] + sep + JoinLines(ls[1..], sep)
  }

  /** For a document that uses only `\n`, joining its lines with `\n` gives the document back. */
  lemma {:induction false} JoinLinesOfLines(s: string)
    requires '\r' !in s
    ensures JoinLines(Lines(s), "\n") == s
    decreases |s|
  {
    var i := FirstBreak(s);
    if i < |s| {
      var rest := s[i + 1..];
      SplitAtNewline(s, i);
      JoinLinesOfLines(rest);
      JoinLinesCons(s[..i], Lines(rest));
      SplitAround(s, i);
    } else {
      assert s[..i] == s;
    }
  }

  /** The document with every `\r\n` and every lone `\r` written as `\n`. */
  function NormalizeBreaks(s: string): string {
    if s == [] then []
    else if s[0] == '\r' && |s| > 1 && s[1] == '\n' then "\n" + NormalizeBreaks(s[2..])
    else if s[0] == '\r' then "\n" + NormalizeBreaks(s[1..])
    else [s[0]] + NormalizeBreaks(s[1..])
  }

  /** For any document, joining its lines with `\n` gives it back with every terminator written
      as `\n`: `lines()` loses only which terminator ended each line. */
  lemma {:induction false} JoinLinesOfAnyLines(s: string)
    ensures JoinLines(Lines(s), "\n") == NormalizeBreaks(s)
    decreases |s|
  {
    var i := FirstBreak(s);
    if i < |s| {
      var rest := s[i + BreakWidth(s, i)..];
      LinesSplit(s, i);
      JoinLinesOfAnyLines(rest);
      JoinLinesStep(s[..i], Lines(rest), NormalizeBreaks(rest));
      NormalizeSplit(s, i);
    } else {
      NormalizeSkip(s, i);
      assert s[..i] == s && s[i..] == [];
    }
  }

  lemma LinesSplit(s: string, i: nat)
    requires i == FirstBreak(s) < |s|
    ensures Lines(s) == [s[..i]] + Lines(s[i + BreakWidth(s, i)..])
  {
    var r := s[i + BreakWidth(s, i)..];
    var ls := Lines(s);
    assert ls == [s[..i]] + Lines(r);
  }

  lemma JoinLinesStep(h: string, ls: seq<string>, tail: string)
    requires |ls| >= 1 && JoinLines(ls, "\n") == tail
    ensures JoinLines([h] + ls, "\n") == h + ("\n" + tail)
  {
    JoinLinesCons(h, ls);
  }

  lemma NormalizeSplit(s: string, i: nat)
    requires i == FirstBreak(s) < |s|
    ensures NormalizeBreaks(s) == s[..i] + ("\n" + NormalizeBreaks(s[i + BreakWidth(s, i)..]))
  {
    NormalizeSkip(s, i);
    NormalizeAtBreak(s, i);
  }

  /** Text without terminators is kept as it is. */
  lemma {:induction false} NormalizeSkip(s: string, i: nat)
    requires i <= |s| && NoBreaks(s[..i])
    ensures NormalizeBreaks(s) == s[..i] + NormalizeBreaks(s[i..])
    decreases i
  {
    if i > 0 {
      assert s[..i][0] == s[0];
      assert s[1..][..i - 1] == s[..i][1..];
      NormalizeSkip(s[1..], i - 1);
      assert s[1..][i - 1..] == s[i..];
      assert s[..i] == [s[0]] + s[1..][..i - 1];
    }
  }

  /** A terminator, of either width, becomes one `\n`. */
  lemma NormalizeAtBreak(s: string, i: nat)
    requires i < |s| && IsBreak(s[i])
    ensures NormalizeBreaks(s[i..]) == "\n" + NormalizeBreaks(s[i + BreakWidth(s, i)..])
  {
    var t := s[i..];
    assert t[0] == s[i];
    if i + 1 < |s| {
      assert t[1] == s[i + 1];
      assert t[2..] == s[i + 2..];
    }
    assert t[1..] == s[i + 1..];
  }

  lemma SplitAround(s: string, i: nat)
    requires i < |s|
    ensures s == s[..i] + [s[i]] + s[i + 1..]
  {
  }

  /** Without `\r`, the first terminator is a `\n` of width one and the rest has no `\r` either. */
  lemma SplitAtNewline(s: string, i: nat)
    requires '\r' !in s && i == FirstBreak(s) < |s|
    ensures Lines(s) == [s[..i]] + Lines(s[i + 1..])
    ensures '\r' !in s[i + 1..]
    ensures s[i] == '\n'
  {
    assert s[i] in s;
    assert BreakWidth(s, i) == 1;
    var rest := s[i + 1..];
    forall k | 0 <= k < |rest| ensures rest[k] != '\r' {
      assert rest[k] == s[i + 1 + k];
      assert s[i + 1 + k] in s;
    }
  }

  lemma JoinLinesCons(h: string, ls: seq<string>)
    requires |ls| >= 1
    ensures JoinLines([h] + ls, "\n") == h + "\n" + JoinLines(ls, "\n")
  {
    assert ([h] + ls)[1..] == ls;
  }

  /** Lines without terminators, joined with `\n`, split back into the same lines. */
  lemma {:induction false} LinesOfJoinLines(ls: seq<string>)
    requires |ls| >= 1
    requires forall k :: 0 <= k < |ls| ==> NoBreaks(ls[k])
    ensures Lines(JoinLines(ls, "\n")) == ls
    decreases |ls|
  {
    var s := JoinLines(ls, "\n");
    var h := ls[0];
    if |ls| == 1 {
      LinesOfUnbroken(h);
    } else {
      var tail := JoinLines(ls[1..], "\n");
      assert s == h + "\n" + tail;
      FirstBreakAt(s, |h|);
      assert s[..|h|] == h;
      assert s[|h| + 1..] == tail;
      LinesOfJoinLines(ls[1..]);
    }
  }

  lemma LinesOfUnbroken(s: string)
    requires NoBreaks(s)
    ensures Lines(s) == [s]
  {
    FirstBreakAt(s, |s|);
  }

  lemma {:induction false} FirstBreakAt(s: string, i: nat)
    requires i <= |s| && NoBreaks(s[..i])
    requires i < |s| ==> IsBreak(s[i])
    ensures FirstBreak(s) == i
    decreases i
  {
    if i > 0 {
      assert s[..i][0] == s[0];
      assert s[1..][..i - 1] == s[..i][1..];
      FirstBreakAt(s[1..], i - 1);
    }
  }
}
