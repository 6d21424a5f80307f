/** Styled text as Android's `SpannableString` and `SpannableStringBuilder` hold it: characters plus
    spans over index ranges, and the builder's in-place `replace`. */
module Spans {

  /** One styled range. The widget always sets a `ForegroundColorSpan` and a bold `StyleSpan` over the
      same range; here both are one record. */
  datatype Span = Span(start: int, end: int, color: int, bold: bool)

  datatype Styled = Styled(text: string, spans: seq<Span>)

  function Plain(t: string): Styled {
    Styled(t, [])
  }

  /** Every span lies inside the text. */
  predicate WellSpanned(x: Styled) {
    forall k :: 0 <= k < |x.spans| ==> 0 <= x.spans[k].start <= x.spans[k].end <= |x.text|
  }

  /** Every span carries the given colour and is bold. */
  predicate AllStyled(x: Styled, color: int) {
    forall k :: 0 <= k < |x.spans| ==> x.spans[k].color == color && x.spans[k].bold
  }

  function Shift(sp: Span, d: int): Span {
    sp.(start := sp.start + d, end := sp.end + d)
  }

  function ShiftSpans(spans: seq<Span>, d: int): (r: seq<Span>)
    ensures |r| == |spans|
  {
    seq(|spans|, k requires 0 <= k < |spans| => Shift(spans[k], d))
  }

  /** `a` followed by `b`: the spans of `b` move right by the length of `a`'s text. */
  function Concat(a: Styled, b: Styled): (r: Styled)
    ensures WellSpanned(a) && WellSpanned(b) ==> WellSpanned(r)
    ensures forall c :: AllStyled(a, c) && AllStyled(b, c) ==> AllStyled(r, c)
  {
    Styled(a.text + b.text, a.spans + ShiftSpans(b.spans, |a.text|))
  }

  /** What the builder does to its existing spans when `[.., end)` is replaced by text `delta`
      characters longer: a span starting at or after `end` moves with the text behind it. */
  function AdjustSpans(spans: seq<Span>, end: int, delta: int): (r: seq<Span>)
    ensures |r| == |spans|
  {
    seq(|spans|, k requires 0 <= k < |spans| =>
      if spans[k].start >= end then Shift(spans[k], delta) else spans[k])
  }

  /** `SpannableStringBuilder.replace(start, end, r)` as a value: the characters in `[start, end)`
      give way to `r`'s text, `r`'s spans are copied at offset `start`, later spans move. */
  function Splice(buf: Styled, start: int, end: int, r: Styled): Styled
    requires 0 <= start <= end <= |buf.text|
  {
    Styled(buf.text[..start] + r.text + buf.text[end..],
           ShiftSpans(r.spans, start) + AdjustSpans(buf.spans, end, |r.text| - (end - start)))
  }

  /** The texts that the spans of `x` cover, in span order. */
  function SpanTexts(x: Styled): (r: seq<string>)
    requires WellSpanned(x)
    ensures |r| == |x.spans|
  {
    seq(|x.spans|, k requires 0 <= k < |x.spans| && WellSpanned(x) =>
      x.text[x.spans[k].start..x.spans[k].end])
  }

  /** The mutable `SpannableStringBuilder` that `applyStyling` edits in place. */
  class SpannableBuilder {
    var text: string
    var spans: seq<Span>

    constructor (s: string)
      ensures text == s && spans == []
    {
      text := s;
      spans := [];
    }

    function Value(): Styled
      reads this
    {
      Styled(text, spans)
    }

    /** Android throws for a range outside the text; the widget never passes one. */
    method Replace(start: int, end: int, r: Styled)
      requires 0 <= start <= end <= |text|
      modifies this
      ensures text == old(text)[..start] + r.text + old(text)[end..]
      ensures spans == ShiftSpans(r.spans, start) + AdjustSpans(old(spans), end, |r.text| - (end - start))
      ensures Value() == Splice(old(Value()), start, end, r)
    {
      spans := ShiftSpans(r.spans, start) + AdjustSpans(spans, end, |r.text| - (end - start));
      text := text[..start] + r.text + text[end..];
    }
  }

  lemma ShiftSpansAppend(x: seq<Span>, y: seq<Span>, d: int)
    ensures ShiftSpans(x + y, d) == ShiftSpans(x, d) + ShiftSpans(y, d)
  {
    var l, r := ShiftSpans(x + y, d), ShiftSpans(x, d) + ShiftSpans(y, d);
    forall k | 0 <= k < |l| ensures l[k] == r[k] {
      if k < |x| {
        assert (x + y)[k] == x[k];
      } else {
        assert (x + y)[k] == y[k - |x|];
      }
    }
  }

  lemma ShiftSpansTwice(x: seq<Span>, a: int, b: int)
    ensures ShiftSpans(ShiftSpans(x, a), b) == ShiftSpans(x, a + b)
  {
  }

  /** Appending plain text in front of a styled value is the same in one step or two. */
  lemma ConcatPlainPlain(x: string, y: string, z: Styled)
    ensures Concat(Plain(x), Concat(Plain(y), z)) == Concat(Plain(x + y), z)
  {
    ShiftSpansTwice(z.spans, |y|, |x|);
  }

  lemma ConcatEmpty(z: Styled)
    ensures Concat(Plain(""), z) == z
  {
  }

  /** Splicing the last region of a plain prefix in front of already-built text: the offsets
      `start`..`|p|` are still those of the original line, and the result is the forward
      concatenation of what is left of the prefix, the replacement, and the built text. */
  lemma SpliceBeforeBuilt(p: string, start: int, x: Styled, built: Styled)
    requires 0 <= start <= |p|
    requires forall k :: 0 <= k < |built.spans| ==> built.spans[k].start >= 0
    ensures Splice(Concat(Plain(p), built), start, |p|, x) == Concat(Plain(p[..start]), Concat(x, built))
  {
    var buf := Concat(Plain(p), built);
    assert buf.text[..start] == p[..start];
    assert buf.text[|p|..] == built.text;
    var shifted := ShiftSpans(built.spans, |p|);
    var delta := |x.text| - (|p| - start);
    assert AdjustSpans(shifted, |p|, delta) == ShiftSpans(built.spans, start + |x.text|);
    ShiftSpansAppend(x.spans, ShiftSpans(built.spans, |x.text|), start);
    ShiftSpansTwice(built.spans, |x.text|, start);
  }

  /** The spans of plain text, then `x`, then `rest`: those of `x` moved past the plain text, then
      those of `rest` moved past both. */
  lemma ConcatPlainSpans(p: string, x: Styled, rest: Styled, whole: Styled, after: seq<Span>)
    requires whole == Concat(Plain(p), Concat(x, rest))
    requires after == ShiftSpans(rest.spans, |p| + |x.text|)
    ensures whole.spans == ShiftSpans(x.spans, |p|) + after
  {
    ShiftSpansAppend(x.spans, ShiftSpans(rest.spans, |x.text|), |p|);
    ShiftSpansTwice(rest.spans, |x.text|, |p|);
  }

  lemma SpanTextsConcat(a: Styled, b: Styled)
    requires WellSpanned(a) && WellSpanned(b)
    ensures SpanTexts(Concat(a, b)) == SpanTexts(a) + SpanTexts(b)
  {
    var c := Concat(a, b);
    var l, r := SpanTexts(c), SpanTexts(a) + SpanTexts(b);
    forall k | 0 <= k < |l| ensures l[k] == r[k] {
      if k < |a.spans| {
        assert c.spans[k] == a.spans[k];
        assert c.text[..|a.text|] == a.text;
      } else {
        var sp := b.spans[k - |a.spans|];
        assert c.spans[k] == Shift(sp, |a.text|);
        assert c.text[|a.text|..] == b.text;
        assert c.text[sp.start + |a.text|..sp.end + |a.text|] == b.text[sp.start..sp.end];
      }
    }
  }

  /** Plain text in front adds no span text; the replacement's span texts come before the rest's. */
  lemma SpanTextsAfterPlain(lead: string, x: Styled, rest: Styled)
    requires WellSpanned(x) && WellSpanned(rest)
    ensures WellSpanned(Concat(Plain(lead), Concat(x, rest)))
    ensures SpanTexts(Concat(Plain(lead), Concat(x, rest))) == SpanTexts(x) + SpanTexts(rest)
  {
    SpanTextsConcat(x, rest);
    SpanTextsConcat(Plain(lead), Concat(x, rest));
  }
}
