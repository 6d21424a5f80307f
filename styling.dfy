/** `applyStyling`: find `#tag` and `[[link]]` markup left to right, record one replacement per
    match, then apply the replacements back to front to a `SpannableStringBuilder`.

    The pattern `(#\w+)|(\[\[(.*?)\]\])` (with DOTALL) is modelled by an explicit scanner:
    at a position, the tag alternative is tried first, then the link alternative. */
module Styling {
  import opened Spans

  datatype Option<T> = None | Some(value: T)

  /** Which alternative of the pattern matched: group 1 (`#\w+`) or group 2 (`[[...]]`). */
  datatype Kind = Tag | Link

  /** One entry of the `replacements` list: the matched range `[start, end)` of the line and the
      text that replaces it (the whole tag, or the link's content). */
  datatype Match = Match(start: nat, end: nat, text: string, kind: Kind)

  /** Java's `\w` without UNICODE_CHARACTER_CLASS: `[a-zA-Z_0-9]`. */
  predicate IsWordChar(c: char) {
    ('a' <= c <= 'z') || ('A' <= c <= 'Z') || ('0' <= c <= '9') || c == '_'
  }

  predicate TagStartsAt(s: string, i: nat) {
    i + 1 < |s| && s[i] == '#' && IsWordChar(s[i + 1])
  }

  predicate OpensAt(s: string, i: nat) {
    i + 1 < |s| && s[i] == '[' && s[i + 1] == '['
  }

  predicate ClosesAt(s: string, j: nat) {
    j + 1 < |s| && s[j] == ']' && s[j + 1] == ']'
  }

  /** The end of the maximal run of word characters from `j` (greedy `\w+`). */
  function WordRunEnd(s: string, j: nat): (e: nat)
    requires j <= |s|
    ensures j <= e <= |s|
    ensures forall k :: j <= k < e ==> IsWordChar(s[k])
    ensures e == |s| || !IsWordChar(s[e])
    decreases |s| - j
  {
    if j < |s| && IsWordChar(s[j]) then WordRunEnd(s, j + 1) else j
  }

  /** The first `]]` at or after `j` (the reluctant `.*?` stops there; DOTALL lets it cross anything). */
  function FindClose(s: string, j: nat): (r: Option<nat>)
    requires j <= |s|
    ensures r.Some? ==> j <= r.value && ClosesAt(s, r.value)
    ensures r.Some? ==> forall k :: j <= k < r.value ==> !ClosesAt(s, k)
    ensures r.None? ==> forall k :: j <= k < |s| ==> !ClosesAt(s, k)
    decreases |s| - j
  {
    if j == |s| then None
    else if ClosesAt(s, j) then Some(j)
    else FindClose(s, j + 1)
  }

  /** The match of the pattern that starts exactly at `i`, if any. */
  function MatchAt(s: string, i: nat): (r: Option<Match>)
    requires i < |s|
    ensures r.Some? ==> r.value.start == i < r.value.end <= |s|
    ensures r.Some? && r.value.kind == Tag ==> r.value.text == s[i..r.value.end]
    ensures r.Some? && r.value.kind == Link ==>
      i + 4 <= r.value.end && r.value.text == s[i + 2..r.value.end - 2]
  {
    if TagStartsAt(s, i) then
      var e := WordRunEnd(s, i + 1);
      Some(Match(i, e, s[i..e], Tag))
    else if OpensAt(s, i) then
      match FindClose(s, i + 2)
      case Some(j) => Some(Match(i, j + 2, s[i + 2..j], Link))
      case None => None
    else None
  }

  /** `matcher.find()` from `from`: the leftmost match starting at or after `from`. */
  function Find(s: string, from: nat): (r: Option<Match>)
    requires from <= |s|
    ensures r.Some? ==> from <= r.value.start < |s| && MatchAt(s, r.value.start) == r
    ensures r.Some? ==> forall i :: from <= i < r.value.start ==> MatchAt(s, i).None?
    ensures r.None? ==> forall i :: from <= i < |s| ==> MatchAt(s, i).None?
    decreases |s| - from
  {
    if from == |s| then None
    else if MatchAt(s, from).Some? then MatchAt(s, from)
    else Find(s, from + 1)
  }

  /** Matches lie inside `s`, are non-empty, start at or after `from` and do not overlap. */
  predicate Ordered(s: string, ms: seq<Match>, from: int)
    decreases |ms|
  {
    0 <= from <= |s| &&
    (ms != [] ==> from <= ms[0].start < ms[0].end <= |s| && Ordered(s, ms[1..], ms[0].end))
  }

  /** The matches that repeated `find()` calls report from `from` on. */
  function MatchesFrom(s: string, from: nat): (ms: seq<Match>)
    requires from <= |s|
    ensures Ordered(s, ms, from)
    ensures forall k :: 0 <= k < |ms| ==> ms[k].start < |s| && MatchAt(s, ms[k].start) == Some(ms[k])
    decreases |s| - from
  {
    match Find(s, from)
    case None => []
    case Some(m) => [m] + MatchesFrom(s, m.end)
  }

  function Matches(s: string): seq<Match> {
    MatchesFrom(s, 0)
  }

  /** The `while (matcher.find())` loop that fills the `replacements` list. */
  method CollectMatches(line: string) returns (replacements: seq<Match>)
    ensures replacements == Matches(line)
  {
    replacements := [];
    var pos := 0;
    var found := Find(line, 0);
    while found.Some?
      invariant pos <= |line|
      invariant found == Find(line, pos)
      invariant replacements + MatchesFrom(line, pos) == Matches(line)
      decreases |line| - pos
    {
      var m := found.value;
      AppendFound(line, pos, replacements);
      replacements := replacements + [m];
      pos := m.end;
      found := Find(line, pos);
    }
  }

  /** Moving the match `find()` reports from the pending matches to the collected ones. */
  lemma AppendFound(s: string, from: nat, done: seq<Match>)
    requires from <= |s| && Find(s, from).Some?
    ensures done + MatchesFrom(s, from) == (done + [Find(s, from).value]) + MatchesFrom(s, Find(s, from).value.end)
  {
    var m := Find(s, from).value;
    assert MatchesFrom(s, from) == [m] + MatchesFrom(s, m.end);
  }

  /** The `SpannableString` built for a match: its text, coloured and bold throughout. Android drops
      a zero-length SPAN_EXCLUSIVE_EXCLUSIVE span, so an empty link content carries no span. */
  function StyledReplacement(m: Match, color: int): (r: Styled)
    ensures WellSpanned(r) && AllStyled(r, color)
    ensures r.text == m.text
    ensures SpanTexts(r) == if m.text == "" then [] else [m.text]
  {
    var r := Styled(m.text, if m.text == "" then [] else [Span(0, |m.text|, color, true)]);
    assert m.text != "" ==> r.text[r.spans[0].start..r.spans[0].end] == m.text;
    r
  }

  /** Forward reconstruction: the unmatched text between matches, interleaved front to back with
      the styled replacements. */
  function Render(s: string, ms: seq<Match>, from: nat, color: int): (r: Styled)
    requires Ordered(s, ms, from)
    ensures WellSpanned(r) && AllStyled(r, color)
    decreases |ms|
  {
    if ms == [] then Plain(s[from..])
    else
      Concat(Plain(s[from..ms[0].start]),
             Concat(StyledReplacement(ms[0], color), Render(s, ms[1..], ms[0].end, color)))
  }

  /** What `applyStyling` returns for `line`: every span lies inside the text and is in the tag
      colour and bold. */
  function StyleLine(line: string, color: int): (r: Styled)
    ensures WellSpanned(r) && AllStyled(r, color)
  {
    Render(line, Matches(line), 0, color)
  }

  function FirstStart(s: string, ms: seq<Match>): nat {
    if ms == [] then |s| else ms[0].start
  }

  /** The replacements applied last to first, each at its offsets in the original line, to a builder
      that starts out holding the line. The text before the first pending replacement is never
      touched, so every offset still to be used stays valid. */
  function ApplyReversed(s: string, ms: seq<Match>, color: int): (r: Styled)
    requires Ordered(s, ms, 0)
    ensures FirstStart(s, ms) <= |r.text| && r.text[..FirstStart(s, ms)] == s[..FirstStart(s, ms)]
    decreases |ms|
  {
    if ms == [] then Plain(s)
    else
      var m := ms[0];
      OrderedWeaken(s, ms[1..], m.end, 0);
      var inner := ApplyReversed(s, ms[1..], color);
      var fs := FirstStart(s, ms[1..]);
      assert m.end <= fs;
      assert inner.text[..m.start] == inner.text[..fs][..m.start] == s[..m.start];
      var x := StyledReplacement(m, color);
      var r := Splice(inner, m.start, m.end, x);
      assert r.text == inner.text[..m.start] + x.text + inner.text[m.end..];
      assert r.text[..m.start] == s[..m.start];
      r
  }

  lemma OrderedWeaken(s: string, ms: seq<Match>, from: int, from': int)
    requires Ordered(s, ms, from) && 0 <= from' <= from
    ensures Ordered(s, ms, from')
  {
  }

  lemma {:induction false} OrderedSuffix(s: string, ms: seq<Match>, from: int, k: nat)
    requires Ordered(s, ms, from) && k <= |ms|
    ensures Ordered(s, ms[k..], 0)
    ensures 0 < k < |ms| ==> ms[k - 1].end <= ms[k].start
    ensures 0 < k ==> ms[k - 1].end <= FirstStart(s, ms[k..])
    decreases k
  {
    if k > 0 {
      OrderedSuffix(s, ms[1..], ms[0].end, k - 1);
      assert ms[1..][k - 1..] == ms[k..];
    }
  }

  /** Reverse-order in-place splicing gives exactly the forward reconstruction. */
  lemma {:induction false} ReversedEqualsForward(s: string, ms: seq<Match>, from: nat, color: int)
    requires Ordered(s, ms, from)
    ensures ApplyReversed(s, ms, color) == Concat(Plain(s[..from]), Render(s, ms, from, color))
    decreases |ms|
  {
    if ms == [] {
      assert s[..from] + s[from..] == s;
    } else {
      var m := ms[0];
      var x := StyledReplacement(m, color);
      var built := Render(s, ms[1..], m.end, color);
      OrderedWeaken(s, ms[1..], m.end, 0);
      var inner := ApplyReversed(s, ms[1..], color);
      ReversedEqualsForward(s, ms[1..], m.end, color);
      ApplyReversedCons(s, ms, color);
      RenderCons(s, ms, from, color);
      SpliceStep(inner, s, from, m.start, m.end, x, built);
    }
  }

  lemma ApplyReversedCons(s: string, ms: seq<Match>, color: int)
    requires Ordered(s, ms, 0) && ms != []
    ensures Ordered(s, ms[1..], 0)
    ensures ms[0].end <= |ApplyReversed(s, ms[1..], color).text|
    ensures ApplyReversed(s, ms, color) ==
      Splice(ApplyReversed(s, ms[1..], color), ms[0].start, ms[0].end, StyledReplacement(ms[0], color))
  {
  }

  lemma RenderCons(s: string, ms: seq<Match>, from: nat, color: int)
    requires Ordered(s, ms, from) && ms != []
    ensures Render(s, ms, from, color) ==
      Concat(Plain(s[from..ms[0].start]),
             Concat(StyledReplacement(ms[0], color), Render(s, ms[1..], ms[0].end, color)))
  {
  }

  /** One step of `ReversedEqualsForward` on values: splicing `x` over `[start, end)` of the prefix
      `s[..end]` in front of `built` leaves `s[..from]`, the plain gap, `x` and `built`, in that order. */
  lemma SpliceStep(inner: Styled, s: string, from: nat, start: nat, end: nat, x: Styled, built: Styled)
    requires from <= start <= end <= |s| && WellSpanned(built)
    requires inner == Concat(Plain(s[..end]), built)
    ensures Splice(inner, start, end, x) ==
      Concat(Plain(s[..from]), Concat(Plain(s[from..start]), Concat(x, built)))
  {
    SpliceBeforeBuilt(s[..end], start, x, built);
    assert s[..end][..start] == s[..from] + s[from..start];
    ConcatPlainPlain(s[..from], s[from..start], Concat(x, built));
  }

  /** `applyStyling`: collect the matches, then replace them last to first in the builder. */
  method ApplyStyling(line: string, color: int) returns (styled: Styled)
    ensures styled == StyleLine(line, color)
  {
    var replacements := CollectMatches(line);
    var builder := new SpannableBuilder(line);
    for i := |replacements| downto 0
      invariant Ordered(line, replacements[i..], 0)
      invariant builder.Value() == ApplyReversed(line, replacements[i..], color)
    {
      OrderedSuffix(line, replacements, 0, i + 1);
      OrderedSuffix(line, replacements, 0, i);
      var m := replacements[i];
      assert replacements[i..][1..] == replacements[i + 1..];
      builder.Replace(m.start, m.end, StyledReplacement(m, color));
    }
    styled := builder.Value();
    ReversedEqualsForward(line, replacements, 0, color);
    ConcatEmpty(Render(line, replacements, 0, color));
  }

  /** A tag match happens exactly where `#` is followed by a word character; it keeps the whole
      token, which runs to the end of the maximal run of word characters. */
  lemma TagRule(s: string, i: nat)
    requires i < |s|
    ensures (MatchAt(s, i).Some? && MatchAt(s, i).value.kind == Tag) <==> TagStartsAt(s, i)
    ensures TagStartsAt(s, i) ==>
      var m := MatchAt(s, i).value;
      m.text == s[i..m.end] && i + 2 <= m.end &&
      (forall k :: i < k < m.end ==> IsWordChar(s[k])) &&
      (m.end == |s| || !IsWordChar(s[m.end]))
  {
  }

  /** A link match happens exactly where `[[` has a `]]` somewhere after it; the content, which may be
      empty and may hold any character, ends at the first such `]]`, and only the content is kept.
      A `[[` without a later `]]` is no match at all. */
  lemma LinkRule(s: string, i: nat)
    requires i < |s|
    ensures (MatchAt(s, i).Some? && MatchAt(s, i).value.kind == Link) <==>
      OpensAt(s, i) && exists j :: i + 2 <= j && ClosesAt(s, j)
    ensures MatchAt(s, i).Some? && MatchAt(s, i).value.kind == Link ==>
      var m := MatchAt(s, i).value;
      ClosesAt(s, m.end - 2) && m.text == s[i + 2..m.end - 2] &&
      forall j :: i + 2 <= j < m.end - 2 ==> !ClosesAt(s, j)
  {
    if OpensAt(s, i) && exists j :: i + 2 <= j && ClosesAt(s, j) {
      var j :| i + 2 <= j && ClosesAt(s, j);
      assert FindClose(s, i + 2).Some?;
    }
  }

  /** Matches that are in order do not overlap, so their starts strictly increase. */
  lemma {:induction false} OrderedDisjoint(s: string, ms: seq<Match>, from: int)
    requires Ordered(s, ms, from)
    ensures forall k :: 0 <= k < |ms| ==> from <= ms[k].start < ms[k].end <= |s|
    ensures forall k, l :: 0 <= k < l < |ms| ==> ms[k].end <= ms[l].start
    decreases |ms|
  {
    if ms != [] {
      OrderedDisjoint(s, ms[1..], ms[0].end);
      forall k, l | 0 <= k < l < |ms| ensures ms[k].end <= ms[l].start {
        if k > 0 {
          assert ms[k] == ms[1..][k - 1] && ms[l] == ms[1..][l - 1];
        } else {
          assert ms[l] == ms[1..][l - 1];
        }
      }
      forall k | 0 <= k < |ms| ensures from <= ms[k].start < ms[k].end <= |s| {
        if k > 0 {
          assert ms[k] == ms[1..][k - 1];
        }
      }
    }
  }

  /** Position `i` lies inside one of the matches `ms`. */
  predicate Covered(ms: seq<Match>, i: int) {
    exists k :: 0 <= k < |ms| && ms[k].start <= i < ms[k].end
  }

  lemma CoveredCons(m: Match, rest: seq<Match>, i: int)
    requires Covered(rest, i)
    ensures Covered([m] + rest, i)
  {
    var k :| 0 <= k < |rest| && rest[k].start <= i < rest[k].end;
    assert ([m] + rest)[k + 1] == rest[k];
  }

  /** Nothing is skipped: every position where the pattern could match is either where a reported
      match starts or inside an earlier reported match. */
  lemma {:induction false} MatchesCoverEveryMatch(s: string, from: nat)
    requires from <= |s|
    ensures forall i :: from <= i < |s| && MatchAt(s, i).Some? ==> Covered(MatchesFrom(s, from), i)
    decreases |s| - from
  {
    var ms := MatchesFrom(s, from);
    var found := Find(s, from);
    if found.Some? {
      var m := found.value;
      var rest := MatchesFrom(s, m.end);
      assert ms == [m] + rest;
      MatchesCoverEveryMatch(s, m.end);
      forall i | from <= i < |s| && MatchAt(s, i).Some? ensures Covered(ms, i) {
        if i < m.end {
          assert ms[0].start <= i < ms[0].end;
        } else {
          CoveredCons(m, rest, i);
        }
      }
    }
  }

  function LinkCount(ms: seq<Match>): nat {
    if ms == [] then 0 else (if ms[0].kind == Link then 1 else 0) + LinkCount(ms[1..])
  }

  /** The replacement texts that end up styled, in order: those that are not empty. */
  function StyledTexts(ms: seq<Match>): seq<string> {
    if ms == [] then [] else (if ms[0].text == "" then [] else [ms[0].text]) + StyledTexts(ms[1..])
  }

  lemma {:induction false} RenderLength(s: string, ms: seq<Match>, from: nat, color: int)
    requires Ordered(s, ms, from) && Sized(ms)
    ensures |Render(s, ms, from, color).text| == |s| - from - 4 * LinkCount(ms)
    decreases |ms|
  {
    if ms != [] {
      SizedTail(ms);
      RenderCons(s, ms, from, color);
      RenderLength(s, ms[1..], ms[0].end, color);
    }
  }

  /** Each tag keeps its length and each link loses its four brackets; nothing else changes length. */
  lemma StyledLength(line: string, color: int)
    ensures |StyleLine(line, color).text| == |line| - 4 * LinkCount(Matches(line))
  {
    MatchesSized(line);
    RenderLength(line, Matches(line), 0, color);
  }

  lemma {:induction false} RenderSpanTexts(s: string, ms: seq<Match>, from: nat, color: int)
    requires Ordered(s, ms, from)
    ensures SpanTexts(Render(s, ms, from, color)) == StyledTexts(ms)
    decreases |ms|
  {
    if ms != [] {
      var x := StyledReplacement(ms[0], color);
      var rest := Render(s, ms[1..], ms[0].end, color);
      RenderSpanTexts(s, ms[1..], ms[0].end, color);
      SpanTextsAfterPlain(s[from..ms[0].start], x, rest);
    }
  }

  /** The characters a match's replacement is shorter than the match: a link's four brackets. */
  function Dropped(m: Match): int {
    if m.kind == Link then 4 else 0
  }

  /** Every match's replacement is as long as its range, less the four brackets of a link. */
  predicate Sized(ms: seq<Match>) {
    forall k :: 0 <= k < |ms| ==> |ms[k].text| == ms[k].end - ms[k].start - Dropped(ms[k])
  }

  /** Where the spans of a rendering lie: the span of each non-empty replacement starts where its
      match started, moved left by `dropped`, which is the start of the rendering plus four for
      every link before it, whose brackets are gone. */
  function SpanPositions(ms: seq<Match>, dropped: int, color: int): seq<Span>
    decreases |ms|
  {
    if ms == [] then []
    else SpanFor(ms[0], dropped, color) + SpanPositions(ms[1..], dropped + Dropped(ms[0]), color)
  }

  /** The span over one replacement, none when it is empty. */
  function SpanFor(m: Match, dropped: int, color: int): seq<Span> {
    if |m.text| == 0 then [] else [Span(m.start - dropped, m.start - dropped + |m.text|, color, true)]
  }

  lemma ShiftSpanFor(m: Match, dropped: int, color: int, d: int, dropped': int)
    requires dropped' == dropped - d
    ensures ShiftSpans(SpanFor(m, dropped, color), d) == SpanFor(m, dropped', color)
  {
    if |m.text| != 0 {
      assert ShiftSpans(SpanFor(m, dropped, color), d)[0] == SpanFor(m, dropped', color)[0];
    }
  }

  /** Moving every span of `SpanPositions` right by `d` is the same as dropping `d` fewer
      characters in front. */
  lemma {:induction false} ShiftSpanPositions(ms: seq<Match>, dropped: int, color: int, d: int, dropped': int)
    requires dropped' == dropped - d
    ensures ShiftSpans(SpanPositions(ms, dropped, color), d) == SpanPositions(ms, dropped', color)
    decreases |ms|
  {
    if ms != [] {
      var m := ms[0];
      var tail := SpanPositions(ms[1..], dropped + Dropped(m), color);
      ShiftSpanPositions(ms[1..], dropped + Dropped(m), color, d, dropped' + Dropped(m));
      ShiftSpansAppend(SpanFor(m, dropped, color), tail, d);
      ShiftSpanFor(m, dropped, color, d, dropped');
    }
  }

  /** The forward reconstruction puts its spans exactly at `SpanPositions`. */
  lemma {:induction false} RenderSpanPositions(s: string, ms: seq<Match>, from: nat, color: int)
    requires Ordered(s, ms, from) && Sized(ms)
    ensures Render(s, ms, from, color).spans == SpanPositions(ms, from, color)
    decreases |ms|
  {
    if ms != [] {
      SizedTail(ms);
      RenderCons(s, ms, from, color);
      RenderSpanPositions(s, ms[1..], ms[0].end, color);
      SpansStep(Render(s, ms, from, color), s[from..ms[0].start], Render(s, ms[1..], ms[0].end, color),
                ms, from, color);
    }
  }

  /** One step of `RenderSpanPositions` on values: plain text up to the first match, its styled
      replacement, then a rest whose spans are already at their positions. */
  lemma SpansStep(whole: Styled, lead: string, rest: Styled, ms: seq<Match>, from: int, color: int)
    requires ms != [] && |lead| == ms[0].start - from
    requires |ms[0].text| == ms[0].end - ms[0].start - Dropped(ms[0])
    requires whole == Concat(Plain(lead), Concat(StyledReplacement(ms[0], color), rest))
    requires rest.spans == SpanPositions(ms[1..], ms[0].end, color)
    ensures whole.spans == SpanPositions(ms, from, color)
  {
    var m := ms[0];
    var x := StyledReplacement(m, color);
    var a, b := ShiftSpans(x.spans, |lead|), SpanPositions(ms[1..], from + Dropped(m), color);
    ShiftedRest(rest.spans, ms[1..], m.end, |lead| + |x.text|, from + Dropped(m), color);
    ConcatPlainSpans(lead, x, rest, whole, b);
    SpanPositionsCons(ms, from, color, a, b);
  }

  lemma ShiftedRest(spans: seq<Span>, ms: seq<Match>, dropped: int, d: int, dropped': int, color: int)
    requires spans == SpanPositions(ms, dropped, color) && dropped' == dropped - d
    ensures ShiftSpans(spans, d) == SpanPositions(ms, dropped', color)
  {
    ShiftSpanPositions(ms, dropped, color, d, dropped');
  }

  lemma SpanPositionsCons(ms: seq<Match>, dropped: int, color: int, a: seq<Span>, b: seq<Span>)
    requires ms != []
    requires a == ShiftSpans(StyledReplacement(ms[0], color).spans, ms[0].start - dropped)
    requires b == SpanPositions(ms[1..], dropped + Dropped(ms[0]), color)
    ensures SpanPositions(ms, dropped, color) == a + b
  {
    var m := ms[0];
    var d := m.start - dropped;
    if |m.text| != 0 {
      assert ShiftSpans(StyledReplacement(m, color).spans, d)[0] == SpanFor(m, dropped, color)[0];
    }
  }

  lemma SizedTail(ms: seq<Match>)
    requires Sized(ms) && ms != []
    ensures |ms[0].text| == ms[0].end - ms[0].start - Dropped(ms[0])
    ensures Sized(ms[1..])
  {
    forall k | 0 <= k < |ms[1..]|
      ensures |ms[1..][k].text| == ms[1..][k].end - ms[1..][k].start - Dropped(ms[1..][k])
    {
      assert ms[1..][k] == ms[k + 1];
    }
  }

  /** A non-empty replacement `j` has its span in `SpanPositions`, moved left by four for each link
      before it. */
  lemma {:induction false} SpanPositionsHas(ms: seq<Match>, dropped: int, color: int, j: nat)
    requires j < |ms| && ms[j].text != ""
    ensures SpanOf(ms, dropped, color, j) in SpanPositions(ms, dropped, color)
    decreases j
  {
    if j > 0 {
      SpanPositionsHas(ms[1..], dropped + Dropped(ms[0]), color, j - 1);
      assert ms[..j][1..] == ms[1..][..j - 1];
      assert 4 * LinkCount(ms[..j]) == Dropped(ms[0]) + 4 * LinkCount(ms[1..][..j - 1]);
      assert SpanOf(ms, dropped, color, j) == SpanOf(ms[1..], dropped + Dropped(ms[0]), color, j - 1);
    }
  }

  /** The span expected over the `j`-th replacement, a non-empty one: its `SpanFor`, with the
      brackets of every earlier link dropped as well. */
  function SpanOf(ms: seq<Match>, dropped: int, color: int, j: nat): Span
    requires j < |ms| && |ms[j].text| != 0
  {
    SpanFor(ms[j], dropped + 4 * LinkCount(ms[..j]), color)[0]
  }

  lemma MatchesSized(line: string)
    ensures Sized(Matches(line))
  {
    var ms := Matches(line);
    forall k | 0 <= k < |ms|
      ensures |ms[k].text| == ms[k].end - ms[k].start - Dropped(ms[k])
    {
      var m := ms[k];
      assert MatchAt(line, m.start) == Some(m);
      if m.kind == Tag {
        assert m.text == line[m.start..m.end];
      } else {
        assert m.text == line[m.start + 2..m.end - 2];
      }
    }
  }

  /** The spans of a styled line cover exactly the kept tag tokens and link contents, in order, and
      every one of them carries the tag colour in bold; they lie exactly at `SpanPositions`. */
  lemma StyledSpans(line: string, color: int)
    ensures SpanTexts(StyleLine(line, color)) == StyledTexts(Matches(line))
    ensures AllStyled(StyleLine(line, color), color)
    ensures StyleLine(line, color).spans == SpanPositions(Matches(line), 0, color)
  {
    var ms := Matches(line);
    RenderSpanTexts(line, ms, 0, color);
    MatchesSized(line);
    RenderSpanPositions(line, ms, 0, color);
  }

  /** The `j`-th match, when its replacement is not empty, has one span over exactly its token in
      the output: where the match started, moved left by the four brackets of every earlier link. */
  lemma StyledSpanAt(line: string, color: int, j: nat)
    requires j < |Matches(line)| && Matches(line)[j].text != ""
    ensures SpanOf(Matches(line), 0, color, j) in StyleLine(line, color).spans
  {
    var ms := Matches(line);
    var out := StyleLine(line, color).spans;
    StyledSpans(line, color);
    SpanPositionsHas(ms, 0, color, j);
  }


  /** A line comes back unchanged and without spans exactly when the pattern matches nowhere in it. */
  lemma UnstyledIffNoMarkup(line: string, color: int)
    ensures StyleLine(line, color) == Plain(line) <==>
      forall i :: 0 <= i < |line| ==> MatchAt(line, i).None?
  {
    var ms := Matches(line);
    if exists i :: 0 <= i < |line| && MatchAt(line, i).Some? {
      assert ms != [];
      var m := ms[0];
      if m.text == "" {
        StyledLength(line, color);
        assert m.kind == Link;
        assert LinkCount(ms) >= 1;
      } else {
        RenderSpanTexts(line, ms, 0, color);
        assert StyledTexts(ms)[0] == m.text;
      }
    } else {
      assert ms == [];
    }
  }

  /** `find()` from `from` reports the match at `i` when the pattern matches nowhere before it. */
  lemma FindReports(s: string, from: nat, i: nat)
    requires from <= i < |s| && MatchAt(s, i).Some?
    requires '#' !in s[from..i] && '[' !in s[from..i]
    ensures Find(s, from) == MatchAt(s, i)
  {
    assert forall k :: from <= k < i ==> s[k] == s[from..i][k - from];
    var r := Find(s, from);
    assert r.Some? ==> r.value.start >= i;
  }

  /** `find()` from `from` reports nothing when no `#` or `[` follows. */
  lemma FindNothing(s: string, from: nat)
    requires from <= |s|
    requires '#' !in s[from..] && '[' !in s[from..]
    ensures Find(s, from) == None
  {
    assert forall k :: from <= k < |s| ==> s[k] == s[from..][k - from];
  }

  /** `#[[x]]`, for any `x` without `]`: `#` followed by `[` is no tag, so the link matches one
      character later. The `#` stays plain, the brackets go, and only `x` is styled (an empty `x`
      gets no span). */
  lemma HashBeforeLink(x: string, color: int)
    requires ']' !in x
    ensures StyleLine("#[[" + x + "]]", color) ==
      Styled("#" + x, if x == "" then [] else [Span(1, 1 + |x|, color, true)])
  {
    var s := "#[[" + x + "]]";
    var m := Match(1, |x| + 5, x, Link);
    HashBeforeLinkMatches(x);
    SingleMatch(s, m, color);
    assert s[..1] == "#" && s[|x| + 5..] == "";
  }

  lemma HashBeforeLinkMatches(x: string)
    requires ']' !in x
    ensures Matches("#[[" + x + "]]") == [Match(1, |x| + 5, x, Link)]
  {
    var s := "#[[" + x + "]]";
    var n := |x|;
    var m := Match(1, n + 5, x, Link);
    assert s[0] == '#' && s[1] == '[' && s[2] == '[' && s[n + 3] == ']' && s[n + 4] == ']';
    assert s[3..n + 3] == x;
    FindCloseAt(s, 3, n + 3);
    assert MatchAt(s, 1) == Some(m);
    assert !TagStartsAt(s, 0) && !OpensAt(s, 0);
    assert Find(s, 0) == Some(m);
    MatchesOne(s, m);
  }

  /** `#[[Area]]` renders as `#Area` with one span over `Area` only. */
  lemma HashBeforeLinkArea(color: int)
    ensures StyleLine("#[[Area]]", color) == Styled("#Area", [Span(1, 5, color, true)])
  {
    var x := "Area";
    assert "#[[" + x + "]]" == "#[[Area]]" && "#" + x == "#Area";
    HashBeforeLink(x, color);
  }

  /** A line with one match renders as the text before it, the styled replacement, the text after. */
  lemma SingleMatch(s: string, m: Match, color: int)
    requires Matches(s) == [m]
    ensures StyleLine(s, color) ==
      Concat(Plain(s[..m.start]), Concat(StyledReplacement(m, color), Plain(s[m.end..])))
  {
    assert [m][1..] == [];
    assert Render(s, [m], 0, color) ==
      Concat(Plain(s[0..m.start]), Concat(StyledReplacement(m, color), Render(s, [], m.end, color)));
    assert s[0..m.start] == s[..m.start];
  }

  predicate AllWordChars(t: string) {
    forall k :: 0 <= k < |t| ==> IsWordChar(t[k])
  }

  lemma {:induction false} WordRunEndAt(s: string, j: nat, e: nat)
    requires j <= e <= |s| && AllWordChars(s[j..e])
    requires e == |s| || !IsWordChar(s[e])
    ensures WordRunEnd(s, j) == e
    decreases e - j
  {
    if j < e {
      assert s[j..e][0] == s[j];
      assert s[j + 1..e] == s[j..e][1..];
      WordRunEndAt(s, j + 1, e);
    }
  }

  lemma {:induction false} FindCloseAt(s: string, j: nat, c: nat)
    requires j <= c && ClosesAt(s, c) && ']' !in s[j..c]
    ensures FindClose(s, j) == Some(c)
    decreases c - j
  {
    if j < c {
      assert s[j..c][0] == s[j];
      assert s[j + 1..c] == s[j..c][1..];
      FindCloseAt(s, j + 1, c);
    }
  }

  /** When `find()` reports `m` and then nothing, `m` is the only match. */
  lemma MatchesOne(s: string, m: Match)
    requires Find(s, 0) == Some(m) && m.end <= |s| && Find(s, m.end) == None
    ensures Matches(s) == [m]
  {
    assert MatchesFrom(s, m.end) == [];
  }

  /** A line with one match whose replacement is not empty has one span, over that replacement. */
  lemma SingleStyledMatch(s: string, m: Match, color: int)
    requires Matches(s) == [m] && m.text != ""
    ensures StyleLine(s, color) ==
      Styled(s[..m.start] + m.text + s[m.end..], [Span(m.start, m.start + |m.text|, color, true)])
  {
    SingleMatch(s, m, color);
  }

  lemma TagInTextMatchAt(s: string)
    requires s == "see #project today"
    ensures MatchAt(s, 4) == Some(Match(4, 12, "#project", Tag))
  {
    assert s[5..12] == "project";
    WordRunEndAt(s, 5, 12);
    assert s[4..12] == "#project";
  }

  lemma TagInTextMatches(s: string)
    requires s == "see #project today"
    ensures Matches(s) == [Match(4, 12, "#project", Tag)]
  {
    TagInTextMatchAt(s);
    assert s[0..4] == "see " && s[12..] == " today";
    FindReports(s, 0, 4);
    FindNothing(s, 12);
    MatchesOne(s, Match(4, 12, "#project", Tag));
  }

  /** A tag in running text is kept verbatim with one span over exactly the token. The line is a
      parameter pinned by `requires`, because the literal in the statement makes the proof far more
      costly; the same holds for the helpers above and below. */
  lemma TagInText(s: string, color: int)
    requires s == "see #project today"
    ensures StyleLine(s, color) == Styled(s, [Span(4, 12, color, true)])
  {
    var m := Match(4, 12, "#project", Tag);
    TagInTextMatches(s);
    SingleStyledMatch(s, m, color);
    assert s[..4] + s[4..12] + s[12..] == s;
  }

  lemma LinkInTextMatchAt(s: string)
    requires s == "visit [[Home Page]] now"
    ensures MatchAt(s, 6) == Some(Match(6, 19, "Home Page", Link))
  {
    assert s[6] == '[' && s[7] == '[' && s[17] == ']' && s[18] == ']';
    assert s[8..17] == "Home Page";
    FindCloseAt(s, 8, 17);
  }

  lemma LinkInTextMatches(s: string)
    requires s == "visit [[Home Page]] now"
    ensures Matches(s) == [Match(6, 19, "Home Page", Link)]
  {
    LinkInTextMatchAt(s);
    assert s[0..6] == "visit " && s[19..] == " now";
    FindReports(s, 0, 6);
    FindNothing(s, 19);
    MatchesOne(s, Match(6, 19, "Home Page", Link));
  }

  /** A link in running text loses its brackets and only its content is styled. The line is a
      parameter pinned by `requires`, to keep the proof cheap. */
  lemma LinkInText(s: string, color: int)
    requires s == "visit [[Home Page]] now"
    ensures StyleLine(s, color) == Styled("visit Home Page now", [Span(6, 15, color, true)])
  {
    var m := Match(6, 19, "Home Page", Link);
    LinkInTextMatches(s);
    SingleStyledMatch(s, m, color);
    LinkInTextDropsBrackets(s);
  }

  lemma LinkInTextDropsBrackets(s: string)
    requires s == "visit [[Home Page]] now"
    ensures s[..6] + "Home Page" + s[19..] == "visit Home Page now"
  {
    assert s[..6] == "visit " && s[19..] == " now";
  }
}
