/** The structural rewrite that `getViewAt` applies to one journal line before styling it:
    a bare `-` disappears, a leading `-` becomes the bullet glyph, anything else is left alone. */
module Bullet {
  import opened KotlinText

  /** The bullet that `getViewAt` puts after the indentation: U+00E2 U+20AC U+00A2, the three
      characters that the UTF-8 bytes of U+2022 turn into when read as Windows-1252. */
  const SourceBullet: string := "\U{E2}\U{20AC}\U{A2}"

  /** `getViewAt`'s `finalLine`, with the bullet literal as a parameter. Stated by the line's
      indentation: a `-` right after it is a bullet, dropped with the line when only whitespace
      follows, otherwise replaced by the bullet and a space with the text's own leading whitespace
      removed; any other line is left alone. */
  function RewriteBullet(line: string, bullet: string): (r: string)
    ensures var n := LeadingWhitespace(line);
      if n < |line| && line[n] == '-' then
        r == if AllWhitespace(line[n + 1..]) then "" else line[..n] + bullet + " " + TrimStart(line[n + 1..])
      else r == line
  {
    var trimmed := Trim(line);
    TrimAtIndentation(line);
    if trimmed == "-" then ""
    else if |trimmed| > 0 && trimmed[0] == '-' then
      var h := IndexOf(line, '-');
      HyphenAfterIndentation(line, LeadingWhitespace(line));
      line[..h] + bullet + " " + TrimStart(line[h + 1..])
    else line
  }

  /** `trim()` starts at the indentation, so it is `-` exactly when a `-` follows the indentation
      and only whitespace follows that, and it starts with `-` exactly when a `-` follows the
      indentation. */
  lemma TrimAtIndentation(line: string)
    ensures var n, t := LeadingWhitespace(line), Trim(line);
      (t == "-" <==> n < |line| && line[n] == '-' && AllWhitespace(line[n + 1..])) &&
      (|t| > 0 && t[0] == '-' <==> n < |line| && line[n] == '-')
  {
    var n, t := LeadingWhitespace(line), Trim(line);
    if t != [] {
      assert t[0] == line[n];
    }
    if n < |line| && line[n] == '-' {
      if |t| > 1 {
        assert line[n + 1..][|t| - 2] == t[|t| - 1];
      } else {
        assert line[n + 1..] == line[n + |t|..];
      }
    }
  }

  /** A hyphen preceded only by whitespace is the first hyphen of the line, and it is where
      trimming starts. */
  lemma HyphenAfterIndentation(line: string, h: nat)
    requires h < |line| && line[h] == '-' && AllWhitespace(line[..h])
    ensures LeadingWhitespace(line) == h
    ensures IndexOf(line, '-') == h
  {
    LeadingWhitespaceExact(line, h);
    var r := IndexOf(line, '-');
    assert line[..r + 1][h] == line[h];
  }

  /** A line that is one `-` between whitespace renders as the empty text. */
  lemma BareHyphenRendersEmpty(line: string, bullet: string, h: nat)
    requires h < |line| && line[h] == '-'
    requires AllWhitespace(line[..h]) && AllWhitespace(line[h + 1..])
    ensures RewriteBullet(line, bullet) == ""
  {
    HyphenAfterIndentation(line, h);
  }

  /** A line whose first non-whitespace character is `-`, followed by more than whitespace,
      keeps its indentation verbatim, gets the bullet and one space, and then the rest of the
      line with its leading whitespace removed. */
  lemma HyphenLineGetsBullet(line: string, bullet: string, h: nat)
    requires h < |line| && line[h] == '-' && AllWhitespace(line[..h])
    requires !AllWhitespace(line[h + 1..])
    ensures RewriteBullet(line, bullet) == line[..h] + bullet + " " + TrimStart(line[h + 1..])
  {
    HyphenAfterIndentation(line, h);
  }

  /** A line whose first non-whitespace character is not `-` (including the empty line and a
      whitespace-only line) reaches styling unchanged. */
  lemma OtherLinePassesThrough(line: string, bullet: string)
    requires forall h :: 0 <= h < |line| && line[h] == '-' ==> !AllWhitespace(line[..h])
    ensures RewriteBullet(line, bullet) == line
  {
  }
}
