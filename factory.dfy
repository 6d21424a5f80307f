/** `WidgetRemoteViewsFactory`: the list of journal lines behind the widget, refreshed from the
    day's document, and the rendering of one list item. */
module Factory {
  import opened KotlinText
  import opened Bullet
  import opened Spans
  import opened Styling

  /** `Color.WHITE`, the ARGB value 0xFFFFFFFF read as a signed 32-bit `Int`. */
  const White: int := -1

  /** What the item at a position shows: the bullet rewrite, then the inline styling, so every
      span lies inside the shown text and is in the tag colour and bold. */
  function RenderLine(line: string, bullet: string, color: int): (r: Styled)
    ensures WellSpanned(r) && AllStyled(r, color)
  {
    StyleLine(RewriteBullet(line, bullet), color)
  }

  /** An empty line (what an out-of-range position falls back to) renders as empty, unstyled text. */
  lemma EmptyLineRendersEmpty(bullet: string, color: int)
    ensures RenderLine("", bullet, color) == Plain("")
  {
    OtherLinePassesThrough("", bullet);
    assert Find("", 0) == None;
  }

  class WidgetRemoteViewsFactory {
    var journalLines: seq<string>
    var tagColor: int

    constructor ()
      ensures journalLines == [] && tagColor == White
    {
      journalLines := [];
      tagColor := White;
    }

    /** `onDataSetChanged`: the document text (read from the journal file) and the tag colour (read
        from the preferences) are passed in. */
    method OnDataSetChanged(document: string, color: int)
      modifies this
      ensures journalLines == Lines(document) && tagColor == color
      ensures |journalLines| == BreakCount(document) + 1
    {
      tagColor := color;
      journalLines := Lines(document);
      LineCount(document);
    }

    method GetCount() returns (n: int)
      ensures n == |journalLines|
    {
      n := |journalLines|;
    }

    /** `journalLines.getOrNull(position) ?: ""`. */
    function LineAt(position: int): (line: string)
      reads this
      ensures 0 <= position < |journalLines| ==> line == journalLines[position]
      ensures !(0 <= position < |journalLines|) ==> line == ""
    {
      if 0 <= position < |journalLines| then journalLines[position] else ""
    }

    /** `getViewAt`: the styled text set on the list item. */
    method GetViewAt(position: int) returns (view: Styled)
      ensures view == RenderLine(LineAt(position), SourceBullet, tagColor)
      ensures !(0 <= position < |journalLines|) ==> view == Plain("")
    {
      var line := LineAt(position);
      var finalLine := RewriteBullet(line, SourceBullet);
      view := ApplyStyling(finalLine, tagColor);
      EmptyLineRendersEmpty(SourceBullet, tagColor);
    }

    /** `getItemId`: the position itself is the stable id. */
    method GetItemId(position: int) returns (id: int)
      ensures id == position
    {
      id := position;
    }
  }
}
