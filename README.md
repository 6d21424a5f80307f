# Logseq journal widget: the line formatter, in Dafny

The widget shows today's Logseq journal on the Android home screen, one list item per line of
the journal file. `WidgetRemoteViewsFactory` in `WidgetRemoteViewsService.kt` keeps the lines
of the current document and turns each line into styled text in two steps:

1. **Bullet rewrite** (`getViewAt`). A line whose trimmed form is exactly `-` becomes empty.
   A line whose trimmed form starts with `-` keeps its indentation, then gets the bullet
   literal, one space, and the rest of the line with its leading whitespace removed. Every
   other line is left unchanged.
2. **Inline styling** (`applyStyling`). The pattern `(#\w+)|(\[\[(.*?)\]\])` is searched
   left to right. Each match goes into a `replacements` list as (start, end, styled text).
   A `#tag` keeps its whole token. A `[[link]]` keeps only its content. The list is then
   applied back to front to a `SpannableStringBuilder`, which changes in place.

The model has five modules:

- `KotlinText` (`kotlin_text.dfy`) models the Kotlin library calls the formatter uses:
  `Char.isWhitespace`, `trim`, `trimStart`, `indexOf` and `lines()`.
- `Bullet` (`bullet.dfy`) holds the rewrite as a function. The bullet is a parameter.
  `SourceBullet` is U+00E2 U+20AC U+00A2 (`â€¢`), the characters that stand after
  `$indentation` on line 65. These are the UTF-8 bytes of `•` read as Windows-1252. The model
  reads that line as `${indentation}â€¢ $content` (see "## Left out").
- `Spans` (`spans.dfy`) defines styled text (`Styled`: characters plus colour/bold spans).
  `SpannableBuilder` is a class with the builder's in-place `Replace`. `Splice` is the
  function that specifies `Replace`.
- `Styling` (`styling.dfy`) replaces the regex with an explicit scanner (`MatchAt`, `Find`).
  It also holds:
  - the `while (matcher.find())` loop, `CollectMatches`;
  - the reverse splice loop, `ApplyStyling`, whose builder state is tracked by `ApplyReversed`;
  - a forward reconstruction, `Render`.

  The central result is `ReversedEqualsForward`. Splicing the ordered, non-overlapping
  matches back to front, each at its offsets in the original line, gives exactly the forward
  concatenation of the unmatched text and the styled replacements.
- `Factory` (`factory.dfy`) is the `WidgetRemoteViewsFactory` class. It has the fields
  `journalLines` and `tagColor`, and the methods `OnDataSetChanged`, `GetCount`, `GetViewAt`
  and `GetItemId`. The document text and the tag colour are inputs to `OnDataSetChanged`.

The code has no tab-to-space normalisation and no rule of its own for `#[[...]]`; this model
follows the code. So `#[[Area]]` gives no tag at `#`, because `[` is not a word character.
The link then matches one character later, and the text becomes `#Area` with only `Area`
styled (`HashBeforeLink`).

## Model

| member | source | states |
|---|---|---|
| `KotlinText.LeadingWhitespace` | app/src/main/java/com/dara/logseqjournalwidget/WidgetRemoteViewsService.kt:64 | the count `trimStart` drops is a whitespace-only prefix followed by a non-whitespace character or the end |
| `KotlinText.TrimStart` | app/src/main/java/com/dara/logseqjournalwidget/WidgetRemoteViewsService.kt:64 | `trimStart()` is a suffix of its input behind a whitespace-only prefix, and begins with a non-whitespace character unless it is empty |
| `KotlinText.Trim` | app/src/main/java/com/dara/logseqjournalwidget/WidgetRemoteViewsService.kt:55 | `trim()` is the slice of the line after its leading whitespace; what follows the slice is all whitespace; a non-empty result begins and ends with non-whitespace |
| `KotlinText.IndexOf` | app/src/main/java/com/dara/logseqjournalwidget/WidgetRemoteViewsService.kt:61 | `indexOf('-')` is -1 exactly when there is no `-`; otherwise it holds `-` and no earlier index does |
| `KotlinText.Lines` | app/src/main/java/com/dara/logseqjournalwidget/WidgetRemoteViewsService.kt:41 | `lines()` yields at least one line, and no line contains `\n` or `\r` |
| `KotlinText.LineCount` | app/src/main/java/com/dara/logseqjournalwidget/WidgetRemoteViewsService.kt:41 | a document with N line breaks (`\r\n`, `\n` or `\r`, counted character by character) splits into N + 1 lines |
| `KotlinText.JoinLinesOfLines` | app/src/main/java/com/dara/logseqjournalwidget/WidgetRemoteViewsService.kt:41 | for a document without `\r`, joining its lines with `\n` gives back the document |
| `KotlinText.JoinLinesOfAnyLines` | app/src/main/java/com/dara/logseqjournalwidget/WidgetRemoteViewsService.kt:41 | for every document, joining its lines with `\n` gives the document with each `\r\n` and each lone `\r` written as `\n`: `lines()` loses only which terminator ended each line |
| `KotlinText.LinesOfJoinLines` | app/src/main/java/com/dara/logseqjournalwidget/WidgetRemoteViewsService.kt:41 | lines without breaks, joined with `\n`, split back into the same lines (trailing empty lines included) |
| `Bullet.RewriteBullet` | app/src/main/java/com/dara/logseqjournalwidget/WidgetRemoteViewsService.kt:55-68 | `finalLine`, stated by the line's indentation: a `-` right after it with only whitespace behind gives `""`; a `-` right after it with more behind gives indentation + bullet + `" "` + the rest with its leading whitespace removed; any other line is unchanged. `BareHyphenRendersEmpty`, `HyphenLineGetsBullet` and `OtherLinePassesThrough` state the three cases for any hyphen position |
| `Bullet.HyphenAfterIndentation` | app/src/main/java/com/dara/logseqjournalwidget/WidgetRemoteViewsService.kt:60-62 | when `-` follows whitespace only, `indexOf('-')` finds that hyphen and trimming starts there |
| `Bullet.BareHyphenRendersEmpty` | app/src/main/java/com/dara/logseqjournalwidget/WidgetRemoteViewsService.kt:55-59 | a line that is one `-` surrounded by whitespace renders as the empty text |
| `Bullet.HyphenLineGetsBullet` | app/src/main/java/com/dara/logseqjournalwidget/WidgetRemoteViewsService.kt:60-65 | a line whose first non-whitespace character is `-`, with more than whitespace after it, becomes indentation + bullet + `" "` + the rest with its leading whitespace removed; the indentation is kept verbatim |
| `Bullet.OtherLinePassesThrough` | app/src/main/java/com/dara/logseqjournalwidget/WidgetRemoteViewsService.kt:66-67 | a line whose first non-whitespace character is not `-` is unchanged; this includes the empty line and whitespace-only lines |
| `Styling.WordRunEnd` | app/src/main/java/com/dara/logseqjournalwidget/WidgetRemoteViewsService.kt:86 | `\w+` is greedy: the run covers only ASCII word characters and stops at a non-word character or at the end |
| `Styling.FindClose` | app/src/main/java/com/dara/logseqjournalwidget/WidgetRemoteViewsService.kt:86 | the reluctant `.*?` ends at the first `]]` from the given index; if there is none, there is no `]]` anywhere after it |
| `Styling.MatchAt` | app/src/main/java/com/dara/logseqjournalwidget/WidgetRemoteViewsService.kt:86-109 | a match starts at the given index and is non-empty; a tag's replacement is its own token; a link spans at least `[[]]` and its replacement is the text between the brackets |
| `Styling.TagRule` | app/src/main/java/com/dara/logseqjournalwidget/WidgetRemoteViewsService.kt:94-102 | a tag matches exactly where `#` is followed by a word character; it keeps the whole token, which ends at the end of the maximal word run |
| `Styling.LinkRule` | app/src/main/java/com/dara/logseqjournalwidget/WidgetRemoteViewsService.kt:103-109 | a link matches exactly where `[[` has a later `]]`; its content ends at the first such `]]` and may be empty; a `[[` with no later `]]` is no match |
| `Styling.Find` | app/src/main/java/com/dara/logseqjournalwidget/WidgetRemoteViewsService.kt:90 | `find()` reports the leftmost match at or after the search position; it reports nothing only when no position matches |
| `Styling.MatchesFrom` | app/src/main/java/com/dara/logseqjournalwidget/WidgetRemoteViewsService.kt:88-111 | repeated `find()` calls give matches in order, each non-empty, non-overlapping and inside the line, each one the pattern's match at its start |
| `Styling.CollectMatches` | app/src/main/java/com/dara/logseqjournalwidget/WidgetRemoteViewsService.kt:88-111 | the `while (matcher.find())` loop fills `replacements` with exactly the matches `MatchesFrom` describes |
| `Styling.OrderedDisjoint` | app/src/main/java/com/dara/logseqjournalwidget/WidgetRemoteViewsService.kt:88-111 | matches in the list do not overlap: every earlier match ends no later than every later one starts, so starts strictly increase |
| `Styling.MatchesCoverEveryMatch` | app/src/main/java/com/dara/logseqjournalwidget/WidgetRemoteViewsService.kt:90 | nothing is skipped: every index where the pattern could match is a reported match's start or lies inside a reported match |
| `Styling.StyledReplacement` | app/src/main/java/com/dara/logseqjournalwidget/WidgetRemoteViewsService.kt:97-109 | the styled replacement has the match's text, is coloured and bold throughout, and has one span over its whole text (none when the text is empty) |
| `Styling.Render` | app/src/main/java/com/dara/logseqjournalwidget/WidgetRemoteViewsService.kt:113-118 | the forward reconstruction keeps every span inside the text, in the tag colour and bold |
| `Styling.StyleLine` | app/src/main/java/com/dara/logseqjournalwidget/WidgetRemoteViewsService.kt:82-119 | the value `applyStyling` returns keeps every span inside its text, in the tag colour and bold; `StyledLength`, `StyledSpans`, `StyledSpanAt` and `UnstyledIffNoMarkup` state its text and spans, and `ApplyStyling` is proved to return it |
| `Styling.ApplyReversed` | app/src/main/java/com/dara/logseqjournalwidget/WidgetRemoteViewsService.kt:113-116 | applying the replacements last to first never touches the text before the first pending one, so its offsets stay valid |
| `Styling.ReversedEqualsForward` | app/src/main/java/com/dara/logseqjournalwidget/WidgetRemoteViewsService.kt:113-116 | back-to-front in-place splicing of ordered, non-overlapping matches equals the forward reconstruction |
| `Styling.ApplyStyling` | app/src/main/java/com/dara/logseqjournalwidget/WidgetRemoteViewsService.kt:82-119 | the collect loop followed by the reverse `replace` loop on the builder returns the forward reconstruction of the line's matches |
| `Styling.StyledLength` | app/src/main/java/com/dara/logseqjournalwidget/WidgetRemoteViewsService.kt:90-118 | the output length is the input length minus 4 per link match |
| `Styling.StyledSpans` | app/src/main/java/com/dara/logseqjournalwidget/WidgetRemoteViewsService.kt:97-118 | the spans cover, in order, exactly the kept tag tokens and the non-empty link contents, all in the tag colour and bold, and the span list is exactly `SpanPositions`: one span per non-empty replacement, at its match's start moved left by four for every earlier link |
| `Styling.StyledSpanAt` | app/src/main/java/com/dara/logseqjournalwidget/WidgetRemoteViewsService.kt:97-118 | every match with a non-empty replacement has a span over exactly its token in the output: from its start less four per earlier link, for the length of the replacement |
| `Styling.UnstyledIffNoMarkup` | app/src/main/java/com/dara/logseqjournalwidget/WidgetRemoteViewsService.kt:90-118 | a line comes back unchanged and without spans if and only if the pattern matches nowhere in it |
| `Styling.HashBeforeLink` | app/src/main/java/com/dara/logseqjournalwidget/WidgetRemoteViewsService.kt:86-109 | for every `x` without `]`, `#[[x]]` renders as `#x`: the `#` stays plain and only `x` is styled, with no span when `x` is empty |
| `Styling.HashBeforeLinkArea` | app/src/main/java/com/dara/logseqjournalwidget/WidgetRemoteViewsService.kt:86-109 | `#[[Area]]` renders as `#Area` with one span over `Area` only |
| `Styling.TagInText` | app/src/main/java/com/dara/logseqjournalwidget/WidgetRemoteViewsService.kt:97-102 | `see #project today` is unchanged, with one span over exactly `#project` |
| `Styling.LinkInText` | app/src/main/java/com/dara/logseqjournalwidget/WidgetRemoteViewsService.kt:103-109 | `visit [[Home Page]] now` renders as `visit Home Page now`, with one span over `Home Page` |
| `Spans.SpannableBuilder.constructor` | app/src/main/java/com/dara/logseqjournalwidget/WidgetRemoteViewsService.kt:83 | the builder starts with the line's text and no spans |
| `Spans.SpannableBuilder.Replace` | app/src/main/java/com/dara/logseqjournalwidget/WidgetRemoteViewsService.kt:115 | `replace(start, end, r)`: the range gives way to `r`'s text; `r`'s spans are copied at `start`; spans at or after `end` move by the change in length |
| `Spans.SpliceBeforeBuilt` | app/src/main/java/com/dara/logseqjournalwidget/WidgetRemoteViewsService.kt:113-116 | replacing the last region of the untouched prefix, in front of text already rebuilt, is the forward concatenation of prefix, replacement and rebuilt text |
| `Factory.EmptyLineRendersEmpty` | app/src/main/java/com/dara/logseqjournalwidget/WidgetRemoteViewsService.kt:53 | the fallback empty line renders as empty, unstyled text |
| `Factory.RenderLine` | app/src/main/java/com/dara/logseqjournalwidget/WidgetRemoteViewsService.kt:55-70 | an item's text is the bullet rewrite of its line, then the styling, so every span lies inside the shown text, in the tag colour and bold |
| `Factory.WidgetRemoteViewsFactory.constructor` | app/src/main/java/com/dara/logseqjournalwidget/WidgetRemoteViewsService.kt:31-32 | a new factory has no lines and the tag colour `Color.WHITE` |
| `Factory.WidgetRemoteViewsFactory.OnDataSetChanged` | app/src/main/java/com/dara/logseqjournalwidget/WidgetRemoteViewsService.kt:38-42 | the lines become the document's `lines()`, one more than its line breaks, and the tag colour becomes the one given |
| `Factory.WidgetRemoteViewsFactory.GetCount` | app/src/main/java/com/dara/logseqjournalwidget/WidgetRemoteViewsService.kt:48-50 | the item count is the number of stored lines |
| `Factory.WidgetRemoteViewsFactory.LineAt` | app/src/main/java/com/dara/logseqjournalwidget/WidgetRemoteViewsService.kt:53 | `getOrNull(position) ?: ""`: the stored line in range, the empty line otherwise (negative positions included) |
| `Factory.WidgetRemoteViewsFactory.GetViewAt` | app/src/main/java/com/dara/logseqjournalwidget/WidgetRemoteViewsService.kt:52-70 | an item shows its line after the bullet rewrite (with `SourceBullet` after the indentation) and the styling; an out-of-range position shows empty text |
| `Factory.WidgetRemoteViewsFactory.GetItemId` | app/src/main/java/com/dara/logseqjournalwidget/WidgetRemoteViewsService.kt:130-132 | the item id is the position itself |

## Left out

- `readJournalFile` and `getJournalPath` are left out. They work through the Storage Access Framework, a `ContentResolver` stream, `SharedPreferences` and today's date. The document text is an input to `OnDataSetChanged` instead. The placeholder messages those functions return are ordinary text to the model.
- The preference read of `tag_color_hex` and the resource default colour are left out. The colour is an opaque integer passed to `OnDataSetChanged`.
- `RemoteViews`, `setTextViewText` and the `PendingIntent` that launches Logseq are left out. They are platform glue. `GetViewAt` returns the styled text that would be set on the item.
- The service boilerplate is left out: `onGetViewFactory`, `onCreate`, `onDestroy`, `getLoadingView`, `getViewTypeCount` and `hasStableIds`. They hold no logic.
- `MainActivity.kt` (directory picker, permissions, preference writes) and `LogseqWidgetProvider.kt` (widget lifecycle, broadcasts, dated title) are not part of this model.
- Bullet.RewriteBullet (and Bullet.SourceBullet): on line 65, `"$indentationâ€¢ $content"` does not mean what it evidently intends. In a Kotlin template, `$name` takes every following letter into the name, and `â` (U+00E2) is a letter. So the template reads `${indentationâ}` + `€¢ ` + `${content}`, and since no `indentationâ` is declared, the file as given does not compile. The model takes the intended `${indentation}â€¢ $content`: the indentation, then `SourceBullet`, then a space and the content. The bullet is a parameter of `RewriteBullet`, so every property stated here holds for `•` (U+2022) as well.
- Styling.WordRunEnd (and Styling.IsWordChar): the tag class `\w` is ASCII `[a-zA-Z0-9_]`, the JVM reading. Android's `java.util.regex` runs on ICU, whose `\w` also accepts non-ASCII letters, marks and digits. That is not modelled: on a device `#café` is styled in full and `#日本` is a tag, while the model stops at `#caf` and leaves `#日本` plain.
- The general `java.util.regex` engine is not modelled. Only the one pattern is, as an explicit scanner.
- Android span objects are abstracted. The colour span and the bold span over one range are a single `Span` record.
- `Replace` shifts spans at or after the replaced range and keeps all others. Android's handling of spans that straddle a replaced range is not modelled. No such span arises here, because matches do not overlap and are applied back to front.
- Android discards zero-length exclusive spans. Because of that, an empty link `[[]]` carries no span.
- Kotlin strings are indexed by UTF-16 code unit. The model indexes by character, so surrogate pairs count as one position. This does not matter for text in the Basic Multilingual Plane.
- `IsWhitespace` lists the characters Kotlin/JVM `Char.isWhitespace` accepts. A different Unicode version on a device could classify a few separators differently.
- Kotlin `Int` and `Long` widths are not modelled. Counts, positions and ids are unbounded integers. Line counts and positions never come near 2^31.
