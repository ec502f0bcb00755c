# TextEditor document model in Dafny

This project models the core of TextEditor, a small Swing text editor. It covers the
styled document (`Text`), the editor's key, mouse, menu and find handlers (`Editor`) and
the viewer's caret and selection rules (`Viewer`).

- **The document.** A `Text` holds a list of `StyledChar` objects, each a character and a
  `Font`, plus a `length` field.
  - It inserts, deletes, copies, cuts and pastes through a clipboard shared by every
    document.
  - It answers line queries: `getLine` and `getLineCount`.
- **The file format.** A document is loaded from the lines of a file that may start with a
  header. Each header line is `start,end,family,style[,size]`, and the header ends at a
  `---` line. Positions that no header line covers get Monospaced, plain, 14 points. The
  loader also groups equal fonts into runs (pieces). `saveWithFontInfo` writes one header
  line per maximal run, then `---`, then the text.
- **StyledChar is a class.** It is modelled as a class, as in the source, so aliasing is
  kept. `copy` puts the document's own objects on the clipboard, and the editor's font
  commands change `sc.font` in place. The model therefore tracks the objects
  (`characters`) and their current values (`Cells()`, `Chars()`).
- **Exceptions.** An `IndexOutOfBoundsException` is an `Outcome`/`Result` value. Whatever
  the operation changed before the throw stays changed.

Module layout:

| Module | File | Contents |
|---|---|---|
| `Outcomes` | outcomes.dfy | Option, Outcome, Result |
| `Styles` | styles.dfy | `Font`, `Cell`, the default font, the style bits and the Font constructor's normalisation |
| `JavaLib` | javalib.dfy | `trim`, `split(",")`, `Integer.parseInt`, `"%d"`, `String.indexOf`, `Character.isISOControl`, and the line splitting of `Files.readAllLines` |
| `Lines` | lines.dfy | Line arithmetic over a string: line starts, ends, counts, and the position of a line and column |
| `FontRuns` | runs.dfy | Maximal runs of equal fonts, proved to be the unique ascending partition |
| `FileLines`, `HeaderFormat`, `Codec` | filelines.dfy, header.dfy, codec.dfy | The file format as functions (`Decode`, `Encode`) and its round trip |
| `Document` | document.dfy | Splice semantics on values: `Inserted`, `Deleted`, `Copied`, `Restyled` |
| `TextModel` | text.dfy | The `Text`, `StyledChar` and clipboard classes |
| `ViewerModel` | viewer.dfy | The `Viewer` class and the click and word rules |
| `EditRules` | editrules.dfy | The editing rules as functions: typing, caret moves, find-next, font changes |
| `EditorModel` | editor.dfy | The `Editor` class, its handlers proved against `EditRules` |

## Model

| member | source | states |
|---|---|---|
| Styles.StyleOf | TextEditor/Editor.java:506 | the style value has exactly the requested bold and italic bits and lies in 0..3 |
| Styles.NewFont | TextEditor/Text.java:98 | `new Font(name, style, size)` keeps name and size; a style in 0..3 is kept, any other becomes plain |
| Styles.DeriveFont | TextEditor/Editor.java:508 | `deriveFont(style)` is the Font constructor on the same name and size with the new style: a style in 0..3 is kept bit for bit, any other becomes PLAIN |
| JavaLib.TrimStart | TextEditor/Text.java:91-95 | the result is a suffix of the input with no leading character at or below a space |
| JavaLib.TrimEnd | TextEditor/Text.java:91-95 | the result is a prefix of the input with no trailing character at or below a space |
| JavaLib.TrimKeeps | TextEditor/Text.java:93 | trim leaves a string unchanged when both of its ends are above a space |
| JavaLib.SplitAll | TextEditor/Text.java:88 | splitting at commas gives at least one field |
| JavaLib.DropTrailingEmpty | TextEditor/Text.java:88 | `split` drops the trailing empty fields: the result is a prefix that does not end in "" |
| JavaLib.SplitAllNoComma | TextEditor/Text.java:88 | a string without a comma splits into itself |
| JavaLib.SplitAllField | TextEditor/Text.java:88 | a comma-free field followed by a comma splits off as the first field |
| JavaLib.SplitFiveFields | TextEditor/Text.java:88 | five comma-free fields joined by commas, the last non-empty, split back into those five |
| JavaLib.SplitAllFive | TextEditor/Text.java:88 | the raw split of five comma-free fields is those five fields |
| JavaLib.NatToDigits | TextEditor/Text.java:306-311 | a natural number prints as a non-empty string of decimal digits |
| JavaLib.DigitsValueOfNat | TextEditor/Text.java:306-311 | reading back the printed digits of a number gives the number |
| JavaLib.ParseIntToString | TextEditor/Text.java:91-95 | `Integer.parseInt` of the `%d` rendering of any int is that int |
| JavaLib.IntToStringPlain | TextEditor/Text.java:306-311 | a printed int is non-empty and has no comma, line break or surrounding blanks |
| JavaLib.IndexOf | TextEditor/Editor.java:411 | `indexOf(t, from)` is -1 or an occurrence at or after `from`, and no occurrence lies between `from` and it |
| JavaLib.LineBreakIndex | TextEditor/Text.java:75 | the first line break, or the end: nothing before it is a line break |
| JavaLib.LineBreakFrom | TextEditor/Text.java:75 | the first line break at or after a position, or the end |
| JavaLib.NextLineStart | TextEditor/Text.java:75 | the next line starts one past a `\n` or `\r`, or two past `\r\n` |
| JavaLib.ReadLineThenRest | TextEditor/Text.java:75 | `readAllLines` of a line, `\n` and a rest is that line followed by the lines of the rest |
| JavaLib.LineBreakIndexAt | TextEditor/Text.java:75 | the first line break is found at the earliest break |
| Lines.NewlinesBefore | TextEditor/Text.java:242-248 | the number of `\n` before a position is at most that position |
| Lines.NextNewline | TextEditor/Text.java:231 | the next `\n` at or after a position, or the end; none lies in between |
| Lines.LineStart | TextEditor/Text.java:223-228 | the start of line i lies inside the document |
| Lines.LineEnd | TextEditor/Text.java:231-234 | the end of line i lies between its start and the end of the document |
| Lines.PositionAt | TextEditor/Editor.java:197-198 | line l at a column lies between the start and end of line l |
| Lines.CountSkip | TextEditor/Text.java:244-246 | skipping characters that are not `\n` leaves the newline count unchanged |
| Lines.CountMonotone | TextEditor/Text.java:244-246 | the newline count grows with the position |
| Lines.LineStartCounts | TextEditor/Text.java:223-228 | line i starts after exactly i newlines, right after a `\n` |
| Lines.NoNewlineToEnd | TextEditor/Text.java:242-248 | from a position with no later `\n`, every newline lies before it |
| Lines.NewlineAfter | TextEditor/Text.java:242-248 | a position with a later `\n` has fewer newlines before it than the document |
| Lines.LineFollows | TextEditor/Text.java:217-237 | a line that is not the last ends at a `\n`, and the next line starts just after it |
| Lines.LastLineReachesEnd | TextEditor/Text.java:217-237 | the last line, and any line past it, ends at the end of the document |
| Lines.LastLineEnd | TextEditor/Text.java:217-237 | the last line ends at the end of the document |
| Lines.BeyondLastLine | TextEditor/Text.java:223-236 | a line index past the last line gives an empty line at the end of the document |
| Lines.LineStartMonotone | TextEditor/Text.java:223-228 | line starts do not decrease with the index |
| Lines.NextNewlineAt | TextEditor/Text.java:231 | the next `\n` is found at the first one |
| Lines.LineStartAt | TextEditor/Text.java:223-228 | a position after i newlines and right after a `\n` (or 0) is the start of line i |
| Lines.PositionLine | TextEditor/Editor.java:190-195 | every position lies on an existing line, between that line's start and end |
| Lines.FindLine | TextEditor/Editor.java:190-195 | the line of a position is found by searching from any line that starts at or before it |
| Lines.OnLine | TextEditor/Editor.java:190-195 | a position between the start and end of line l lies on line l |
| Lines.PositionAtRoundTrip | TextEditor/Editor.java:197-198 | the position at line l and column c lies on line l, at column min(c, length of l) |
| Lines.PositionOfLineColumn | TextEditor/Editor.java:188-213 | every position is the position at its own line and column |
| Lines.LineHasNoNewline | TextEditor/Text.java:231-234 | a line never contains `\n` |
| Lines.LinesBeforeStart | TextEditor/Viewer.java:144-147 | summing line lengths plus one over the lines before n gives the start of line n. Past the last line it overshoots by one per extra line |
| Lines.SumReachesLine | TextEditor/Viewer.java:144-147 | one more line in the sum reaches the start of the next line |
| Lines.SumPassesEnd | TextEditor/Viewer.java:144-147 | summing through the last line gives the length plus one |
| Lines.SumBeyondEnd | TextEditor/Viewer.java:144-147 | each line past the last adds one, for its missing newline |
| FontRuns.FontsOf | TextEditor/Text.java:128-135 | the fonts of the cells, position by position |
| FontRuns.CharsOf | TextEditor/Text.java:206-212 | the characters of the cells, position by position |
| FontRuns.Extend | TextEditor/Text.java:131-139 | extending the runs by one position ends them at that position, in its font |
| FontRuns.Runs | TextEditor/Text.java:127-140 | the runs are empty exactly for an empty document, and the last one ends at the end in the last font |
| FontRuns.RunsTile | TextEditor/Text.java:127-140 | the runs tile the fonts and neighbouring runs differ in font |
| FontRuns.ExtendTiles | TextEditor/Text.java:131-139 | one more position keeps the runs a maximal tiling |
| FontRuns.GrowLastTile | TextEditor/Text.java:131-136 | a position in the last run's font extends that run |
| FontRuns.AddTile | TextEditor/Text.java:132-135 | a position in a new font opens a new run |
| FontRuns.TilesCover | TextEditor/Text.java:127-140 | a tiling gives every position its own font, and nothing outside the document |
| FontRuns.TilesPartition | TextEditor/Text.java:127-140 | a tiling is an ascending, end-exclusive partition of [0, n), each run in the font of its start |
| FontRuns.RunsExtend | TextEditor/Text.java:295-316 | a final stretch in one font, not shared by the position before it, is the last run |
| FontRuns.RunsUnique | TextEditor/Text.java:127-140 | any maximal tiling is the runs: the partition is unique |
| FontRuns.RunsPartition | TextEditor/Text.java:127-140 | the runs partition [0, n) in ascending order and neighbours differ in font |
| FontRuns.RunsCarryFonts | TextEditor/Text.java:295-316 | every position a run covers has that run's font |
| FontRuns.RunFontOfTile | TextEditor/Text.java:127-140 | a position a tile covers is inside the document and has the tile's font |
| FontRuns.RunFontAtLastWriter | TextEditor/Text.java:100-102 | with overlapping ranges the last range covering a position decides its font: last writer wins |
| FontRuns.RunsGrow | TextEditor/Text.java:131-137 | the grouping loop's step: equal fonts extend the current run, a new font closes it and opens another |
| FileLines.JoinSnoc | TextEditor/Text.java:113-116 | joining one more line appends `\n` and the line |
| FileLines.JoinCons | TextEditor/Text.java:113-116 | joining a first line before others puts `\n` between them |
| FileLines.ReadTerminated | TextEditor/Text.java:306-319 | lines without line breaks, each written with `\n`, read back as themselves, followed by the rest |
| FileLines.ReadAllLinesStep | TextEditor/Text.java:75 | the first line of a body is read up to its first `\n` |
| FileLines.JoinReadAllLines | TextEditor/Text.java:75 | joining the lines read from a body without `\r` that does not end in `\n` gives the body back |
| FileLines.JoinFirstLine | TextEditor/Text.java:113-116 | reading and rejoining a body is its first line, `\n`, and the rejoined rest |
| FileLines.NoCarriageReturnAfter | TextEditor/Text.java:75 | in a body without `\r`, every line break is `\n` and the rest keeps that form |
| FileLines.JoinDropsFinalNewline | TextEditor/Text.java:113-116 | a final `\n` is lost by reading and rejoining |
| FileLines.ReadFinalNewline | TextEditor/Text.java:75 | `readAllLines` ignores a final `\n` |
| FileLines.TerminatedSnoc | TextEditor/Text.java:306 | one more header line appends it with its `\n` |
| HeaderFormat.ParseFields | TextEditor/Text.java:90-103 | a header line counts only with at least 4 fields, every number read, 0 <= start < end, style normalised to 0..3 |
| HeaderFormat.ParseHeaderLine | TextEditor/Text.java:87-103 | a parsed header line is a non-empty range at or after 0 |
| HeaderFormat.ParseHeader | TextEditor/Text.java:86-108 | every header line before the separator is parsed, one result per line |
| HeaderFormat.HeaderLines | TextEditor/Text.java:299-316 | one header line is written per run |
| HeaderFormat.ParseFieldOfInt | TextEditor/Text.java:91-95 | a number written with `%d` reads back as itself |
| HeaderFormat.SplitHeaderLine | TextEditor/Text.java:88 | a written header line splits into its five fields |
| HeaderFormat.FieldsParse | TextEditor/Text.java:90-98 | five fields that read as a range's numbers and family parse to that range |
| HeaderFormat.HeaderLineParses | TextEditor/Text.java:306-311 | a header line written for a savable range parses back to that range |
| HeaderFormat.HeaderLinePlain | TextEditor/Text.java:306-311 | a header line holds no line break and is not `---` |
| HeaderFormat.HeaderLinesParse | TextEditor/Text.java:299-316 | the header lines of savable runs parse back to those runs, without line breaks and without a `---` among them |
| HeaderFormat.HeaderLinesRead | TextEditor/Text.java:299-316 | every written header line parses back to its range |
| HeaderFormat.HeaderLinesPlain | TextEditor/Text.java:299-316 | no written header line has a line break or is `---` |
| HeaderFormat.HeaderLinesSnoc | TextEditor/Text.java:299-316 | one more run writes one more header line |
| Codec.SeparatorIndex | TextEditor/Text.java:78 | the index of the first line equal to `---`, or -1 when there is none |
| Codec.FontAtLastLine | TextEditor/Text.java:100-102 | a later header line overrides earlier ones on the positions it covers |
| Codec.ParseHeaderSnoc | TextEditor/Text.java:86-108 | one more header line adds one parse result |
| Codec.AppliedSnoc | TextEditor/Text.java:100-102 | applying one more range overrides the fonts it covers and keeps the rest |
| Codec.FontAtNone | TextEditor/Text.java:122 | a position gets no header font exactly when no parsed header line covers it |
| Codec.AppliedNone | TextEditor/Text.java:122 | a position gets no font exactly when no applied range covers it |
| Codec.AppliedAll | TextEditor/Text.java:86-108 | applying ranges that all parsed keeps every one, in order |
| Codec.DecodeWithoutSeparator | TextEditor/Text.java:78-124 | with no `---` line every line is body text and every position gets the default font |
| Codec.SavedLines | TextEditor/Text.java:299-320 | the saved file reads back as its header lines, `---`, and the lines of the text |
| Codec.SavedAssociates | TextEditor/Text.java:319-320 | the saved file is the terminated header, then `---`, `\n` and the text |
| Codec.SavedParts | TextEditor/Text.java:78-116 | reading a saved file gives back its header lines and the lines of its text |
| Codec.SplitAtSeparator | TextEditor/Text.java:78-116 | the header is the lines before the first `---` and the body the lines after it |
| Codec.RunsSaveable | TextEditor/Text.java:299-316 | the runs of savable fonts, in a document within int range, are savable ranges |
| Codec.EncodedParts | TextEditor/Text.java:293-321 | reading the saved file back gives the document's runs as header and its text as body lines |
| Codec.DecodeCells | TextEditor/Text.java:111-124 | a body that joins to the text and header fonts that match every position decode to the document |
| Codec.FontsRestored | TextEditor/Text.java:293-321 | reloading the header written by saveWithFontInfo gives every position its original font |
| Codec.RoundTrip | TextEditor/Text.java:293-321 | loading what saveWithFontInfo wrote gives back every character and font. This holds for savable fonts and a text without `\r` that does not end in `\n` |
| Codec.TrailingNewlineDropped | TextEditor/Text.java:113-116 | a document ending in `\n` loses that newline on save and reload |
| Codec.SnocSaveable | TextEditor/Text.java:293-321 | a savable newline keeps every font savable |
| Codec.CharsOfSnoc | TextEditor/Text.java:206-212 | one more cell adds its character to the text |
| Document.TextCells | TextEditor/Text.java:184-186 | inserted text becomes its characters, each in the given font |
| Document.Inserted | TextEditor/Text.java:179-188 | an insertion adds exactly the inserted length |
| Document.Deleted | TextEditor/Text.java:193-201 | a deletion removes exactly the deleted count |
| Document.Copied | TextEditor/Text.java:269-274 | copy throws only for start < 0 with start < end; otherwise it gives [start, min(end, length)), which is empty when end <= start or start >= length |
| Document.DeleteAsWritten | TextEditor/Text.java:193-201 | the delete guard as written: it passes exactly when pos >= 0 and pos + n <= length. A count n >= 0 deletes and keeps length in step |
| Document.DeleteInserted | TextEditor/Text.java:179-201 | deleting what was just inserted restores characters and fonts exactly |
| Document.InsertDeleted | TextEditor/Text.java:179-201 | re-inserting what was deleted restores the document |
| Document.InsertedAt | TextEditor/Text.java:179-188 | every position after an insertion: before it the old cell, inside it the inserted cell, after it the old cell shifted |
| Document.RestyledCells | TextEditor/Editor.java:483-509 | restyling keeps every character, changes the font inside [s, e) only, and leaves every cell outside it alone |
| Document.RestyledStep | TextEditor/Editor.java:483-493 | restyling one more position is one in-place font change |
| Document.RestyledPastEnd | TextEditor/Editor.java:483-493 | positions past the end of the document add nothing to a restyle |
| Document.RestyledEmpty | TextEditor/Editor.java:483 | an empty range restyles nothing |
| Document.CopyPasteDuplicates | TextEditor/Text.java:269-284 | copying a range inside the document and pasting it at its end duplicates it |
| Document.NegativeDeleteDesynchronises | TextEditor/Text.java:193-201 | as written, a negative count passes the guard, removes nothing and makes length larger than the list |
| Document.ReversedCutDesynchronises | TextEditor/Text.java:261-273 | as written, cut of a reversed range starting inside the document copies nothing, then its delete passes the guard and makes length larger than the list |
| Document.EditsReplace | TextEditor/Text.java:179-201 | an insertion replaces nothing at pos by the inserted cells, a deletion replaces the deleted cells by nothing, and all other cells are kept in order |
| Document.ReplacedThen | TextEditor/Editor.java:139-163 | removing a stretch and then adding at the same position replaces that stretch, as typing over a selection does |
| Document.SplicedReplaced | TextEditor/Text.java:279-284 | a list spliced in at pos sits at [pos, pos + its length), and every other entry is kept |
| Document.SpliceExtends | TextEditor/Text.java:279-284 | one more entry added right after the spliced-in list extends it, as each step of paste does |
| Document.InsertedSnoc | TextEditor/Text.java:279-284 | pasting the clipboard one character at a time equals inserting it all at once |
| TextModel.StyledChar.constructor | TextEditor/Text.java:50-53 | a new styled character holds the given character and font |
| TextModel.CellsOf | TextEditor/Text.java:21 | the current values of the StyledChar objects, one per object |
| TextModel.Clipboard.constructor | TextEditor/Text.java:57 | the clipboard starts empty |
| TextModel.Text.constructor | TextEditor/Text.java:64-142 | the loaded document is `Decode` of the file's lines, with distinct fresh StyledChar objects; the pieces are the maximal runs of its fonts |
| TextModel.Text.CharAt | TextEditor/Text.java:171-174 | throws exactly for an index outside [0, length); otherwise the character there |
| TextModel.Text.GetStyledChar | TextEditor/Text.java:253-256 | throws exactly for an index outside [0, length); otherwise the document's own object there |
| TextModel.Text.Insert | TextEditor/Text.java:179-188 | throws exactly for pos outside [0, length], leaving everything unchanged. Otherwise the text's cells are spliced in at pos and length follows. The inserted StyledChar objects are new, and the objects before and after them are the same objects as before |
| TextModel.Text.Delete | TextEditor/Text.java:193-201 | throws for pos < 0, a negative count or pos + count > length, changing nothing. Otherwise it removes exactly [pos, pos + count) and length follows; the objects before and after that range are the same objects as before |
| TextModel.Text.GetText | TextEditor/Text.java:206-212 | the characters of the document, in order |
| TextModel.Text.GetLine | TextEditor/Text.java:217-237 | the objects between the start and end of line i; empty for a line past the last, never a throw |
| TextModel.Text.GetLineCount | TextEditor/Text.java:242-248 | one more than the number of `\n` |
| TextModel.Text.Copy | TextEditor/Text.java:269-274 | the clipboard is cleared, then holds the document's own objects at [start, min(end, length)); a throw for start < 0 leaves it empty |
| TextModel.Text.Cut | TextEditor/Text.java:261-264 | with the corrected delete of the Findings: completes exactly for 0 <= start <= end <= length and then deletes [start, end), keeping the objects before and after it as the same objects. The clipboard holds what copy gives, even when the delete throws. As written, a reversed range inside the document also completes (second Findings row) |
| TextModel.Text.Paste | TextEditor/Text.java:279-284 | the clipboard's cells are inserted at pos, in order and in their fonts; it throws only for a non-empty clipboard and pos outside [0, length]. The pasted StyledChar objects are new, so they are not the clipboard's, and the objects before and after them are the same objects as before |
| TextModel.Text.SaveWithFontInfo | TextEditor/Text.java:293-322 | the output is `Encode` of the document: the header lines of its runs, `---`, its text |
| TextModel.FontHeader | TextEditor/Text.java:295-316 | the header loop writes one line per maximal run, each terminated by `\n` |
| TextModel.ReadFontMap | TextEditor/Text.java:84-109 | the font map gives each position the font of the last applied header range covering it |
| TextModel.PutRange | TextEditor/Text.java:97-103 | the positions of the range map to its font; all others keep their entry |
| TextModel.MapsNextRange | TextEditor/Text.java:86-108 | one more header line keeps the map equal to the last-writer fonts |
| TextModel.DecodedCells | TextEditor/Text.java:118-124 | characters from the joined body and fonts from the map, defaulting to Monospaced plain 14, form `Decode` of the lines |
| TextModel.JoinBody | TextEditor/Text.java:112-116 | the body is the lines after the separator joined with `\n`, with no trailing newline |
| TextModel.NewCharacters | TextEditor/Text.java:119-124 | one fresh StyledChar per body character, in the mapped font or the default |
| TextModel.BuildPieces | TextEditor/Text.java:127-140 | the grouping loop computes the maximal runs of the fonts |
| TextModel.DistinctWithout | TextEditor/Text.java:197-199 | removing objects keeps the list free of duplicates |
| TextModel.SpliceCells | TextEditor/Text.java:184-186 | the values of a spliced object list are the spliced values |
| TextModel.WithoutCells | TextEditor/Text.java:197-199 | the values of a list with a stretch removed are the values with that stretch removed |
| TextModel.DistinctSplice | TextEditor/Text.java:184-186 | splicing in new objects keeps the list free of duplicates |
| ViewerModel.ClickPosition | TextEditor/Viewer.java:119-151 | a click position is never beyond the length, and is exactly the length below the last line |
| ViewerModel.ClickOnLine | TextEditor/Viewer.java:129-150 | a click on an existing line lands on it (line 0 above the first), at the clicked column clamped to the line |
| ViewerModel.WordAroundUnique | TextEditor/Viewer.java:156-171 | the maximal word around a position is unique |
| ViewerModel.WordAt | TextEditor/Viewer.java:156-168 | for 0 <= pos <= length the scan gives start <= pos <= end, all word characters, maximal on both sides; it throws otherwise |
| ViewerModel.ScanColumn | TextEditor/Viewer.java:131-141 | the pixel scan stops at the clicked column or the end of the line |
| ViewerModel.AddUpLines | TextEditor/Viewer.java:144-147 | the loop adds one plus the length of each line before n |
| ViewerModel.Viewer.constructor | TextEditor/Viewer.java:38-40 | a viewer on the text with caret 0, no selection and no drag |
| ViewerModel.Viewer.PositionFromCoordinates | TextEditor/Viewer.java:119-151 | the clicked position: the length below the last line, else the line's start plus the column, capped by the length |
| ViewerModel.Viewer.SelectWordAt | TextEditor/Viewer.java:156-172 | the selection becomes the maximal word around pos; a throwing scan leaves it as it was |
| ViewerModel.Viewer.HandleMousePress | TextEditor/Viewer.java:72-88 | the caret goes to the click. A double click selects the word there; a single click sets selection start, end and drag start to it and starts a drag |
| ViewerModel.Viewer.HandleMouseDrag | TextEditor/Viewer.java:93-114 | outside a drag nothing changes. During one the caret follows the mouse and the selection is {pos, dragStartPos} with start <= end |
| ViewerModel.Viewer.HandleMouseRelease | TextEditor/Viewer.java:53-55 | a release ends the drag |
| ViewerModel.Viewer.SetCaretPosition | TextEditor/Viewer.java:177-180 | the caret is set |
| ViewerModel.Viewer.SetText | TextEditor/Viewer.java:185-189 | the viewer shows the new text |
| ViewerModel.Viewer.SetSelection | TextEditor/Viewer.java:194-198 | the selection is set |
| EditRules.RemoveSelection | TextEditor/Editor.java:141-145 | without a selection nothing changes; deleting one throws exactly when it runs past the end |
| EditRules.CaretMoved | TextEditor/Editor.java:183-214 | every key leaves the caret within [0, length] |
| EditRules.TypedWithinSpan | TextEditor/Editor.java:122-168 | a typed key that completes changes the document only inside TypedSpan: the selection or the character before the caret for Backspace, the selection or nothing at the caret for Enter and printable keys, nothing for other keys |
| EditRules.TypeThenBackspace | TextEditor/Editor.java:122-168 | typing a character at the caret and then Backspace restores document and caret |
| EditRules.BackspaceShrinks | TextEditor/Editor.java:126-137 | Backspace never grows the document. It leaves it unchanged exactly at caret 0 with no selection |
| EditRules.TypedReplaces | TextEditor/Editor.java:139-163 | Enter or a printable key replaces the selection, or inserts at the caret, with that one character in the default font. The caret goes just past it and the selection is cleared; it throws exactly for a selection past the end |
| EditRules.ControlIgnored | TextEditor/Editor.java:150 | any other control character changes nothing |
| EditRules.VerticalMove | TextEditor/Editor.java:188-214 | Up and Down go to the adjacent line, at the same column clamped to its length; from the first or last line they stay |
| EditRules.VerticalCases | TextEditor/Editor.java:188-214 | the Up and Down moves in terms of the caret's line and its column |
| EditRules.UpArithmetic | TextEditor/Editor.java:196-199 | the editor's Up formula computes the Up move |
| EditRules.DownArithmetic | TextEditor/Editor.java:209-212 | the editor's Down formula computes the Down move |
| EditRules.DownThenUp | TextEditor/Editor.java:188-214 | Down then Up returns to the caret when the column fits on the next line |
| EditRules.LeftRightInverse | TextEditor/Editor.java:184-187 | Left moves back by one, and Right then undoes it |
| EditRules.NextMatchFinds | TextEditor/Editor.java:407-434 | find-next gives the first match after the last one, else the first match from the top; it finds none exactly when there is no occurrence |
| EditRules.ReassignedAttributes | TextEditor/Editor.java:488-492 | each attribute passed as null or -1 is kept, each other one replaced; with all three kept the font is unchanged |
| EditRules.StyleUpdatedIsBitwise | TextEditor/Editor.java:506-508 | setting ORs the bit in and clearing masks it out; name and size stay |
| EditRules.StyleToggle | TextEditor/Editor.java:506-508 | setting a bit twice is setting it once, and clearing after setting is clearing |
| EditRules.RestyleKeepsText | TextEditor/Editor.java:483-509 | a font change keeps the text |
| EditorModel.FindCaretLine | TextEditor/Editor.java:190-195 | the line-finding loop gives the caret's line and that line's start |
| EditorModel.LineSize | TextEditor/Editor.java:198 | `getLine(i).size()` is the length of line i |
| EditorModel.CaretUp | TextEditor/Editor.java:188-200 | the Up branch moves the caret as CaretMoved says |
| EditorModel.UpFromLine | TextEditor/Editor.java:196-199 | off the first line, Up lands on the previous line at the clamped column |
| EditorModel.CaretDown | TextEditor/Editor.java:201-214 | the Down branch moves the caret as CaretMoved says |
| EditorModel.DownFromLine | TextEditor/Editor.java:209-212 | off the last line, Down lands on the next line at the clamped column |
| EditorModel.ClickedCaret | TextEditor/Editor.java:252-271 | the editor's own click arithmetic agrees with the viewer's click position, below the last line too |
| EditorModel.RestyleRange | TextEditor/Editor.java:483-493 | the fonts in [s, e) are changed in place; it throws exactly when e runs past the end, after changing everything up to the end |
| EditorModel.Editor.constructor | TextEditor/Editor.java:20-37 | the document is the decoded file, the viewer shows it, caret 0, no anchor, selection or search, empty clipboard |
| EditorModel.Editor.KeyTyped | TextEditor/Editor.java:122-168 | the document, caret and selection become what Typed gives; a throw leaves them unchanged; the viewer's caret follows. A typed character is a new StyledChar just before the caret. Every StyledChar object outside TypedSpan is the same object as before |
| EditorModel.Editor.Backspace | TextEditor/Editor.java:126-137 | Backspace deletes the selection or the character before the caret, as Typed says. Every StyledChar object outside TypedSpan is the same object as before |
| EditorModel.Editor.TypeCharacter | TextEditor/Editor.java:139-163 | Enter and printable keys replace the selection, or insert at the caret, as Typed says. The typed character is a new StyledChar just before the new caret, and every object outside TypedSpan is the same object as before |
| EditorModel.Editor.KeyPressed | TextEditor/Editor.java:171-230 | Shift sets the anchor if unset. Any other key moves the caret as CaretMoved says; with Shift the selection then spans the anchor and the caret in order, and without it the anchor is dropped |
| EditorModel.Editor.MoveCaret | TextEditor/Editor.java:183-214 | the arrow keys move the caret as CaretMoved says |
| EditorModel.Editor.SelectFromAnchor | TextEditor/Editor.java:217-225 | with Shift the selection is [min, max] of the anchor (or the old caret) and the caret; without it the anchor is dropped |
| EditorModel.Editor.KeyReleased | TextEditor/Editor.java:233-238 | releasing Shift clears the Shift state |
| EditorModel.Editor.MousePressed | TextEditor/Editor.java:246-292 | after both listeners, both carets are at the clicked position. A double click selects the word there; a single click leaves no selection but a drag started from the click |
| EditorModel.Editor.ClickSelect | TextEditor/Editor.java:252-285 | the editor's listener puts the caret at the click and selects the word there on a double click, nothing on a single click |
| EditorModel.Editor.MouseDragged | TextEditor/Viewer.java:93-114 | outside a drag nothing changes. During one the viewer's caret follows the mouse, and the selection runs from the smaller to the larger of it and the drag start |
| EditorModel.Editor.OpenFile | TextEditor/Editor.java:301-320 | a new document from the file, shown by the viewer, caret 0 and no selection. Its StyledChar objects are all new, so none is on the clipboard |
| EditorModel.Editor.SaveFile | TextEditor/Editor.java:323-337 | what is saved is `Encode` of the document |
| EditorModel.Editor.CutSelection | TextEditor/Editor.java:340-348 | with a selection, the selection is cut, the objects before and after it stay the same objects, and the caret goes to its start, unless the selection runs past the end. In that case the clipboard has the part inside and nothing else changes. Without a selection nothing happens |
| EditorModel.Editor.CopySelection | TextEditor/Editor.java:351-355 | with a selection the clipboard holds its objects up to the end of the document; without one it is unchanged |
| EditorModel.Editor.PasteClipboard | TextEditor/Editor.java:358-367 | the clipboard is inserted at the selection start, or at the caret without a selection. The caret goes past it and the selection is cleared; it never throws. The pasted StyledChar objects are new, and the document's other objects are the same objects as before |
| EditorModel.Editor.FindButton | TextEditor/Editor.java:392-398 | a non-empty input becomes the search text and find-next runs; an empty one changes nothing. When nothing is found, the caret, selection and last position stay |
| EditorModel.Editor.FindNext | TextEditor/Editor.java:407-440 | an empty search text changes nothing. A match (after the last, else from the top) becomes the caret, the last position and the selection; with no match nothing moves |
| EditorModel.Editor.SetSelectionFont | TextEditor/Editor.java:481-496 | with a selection the selected fonts become Reassigned of them; it throws exactly for a selection past the end. The text never changes |
| EditorModel.Editor.UpdateSelectedTextStyle | TextEditor/Editor.java:499-512 | with a selection the selected fonts get the bit set or cleared; it throws exactly for a selection past the end. The text never changes |

## Left out

- The Swing user interface is not modelled: frames, menus, `paintComponent`, `getPreferredSize`, `repaint`, and the scroll geometry of `scrollToPosition`.
- `showFindDialog` and its Close button are not modelled. Only the Find Next button's action is (`FindButton`).
- Font metrics are not modelled. The pixel scan of a click is an input column `hit`, and the clicked line is an input integer.
- Double-click timing is not modelled: `System.currentTimeMillis` and `lastClickTime` are replaced by an `isDoubleClick` flag.
- EditorModel.Editor.MousePressed: one `isDoubleClick` flag serves both listeners. The source's viewer and editor each keep their own `lastClickTime`, so near the 400 ms boundary they could disagree.
- `Character.isLetterOrDigit` is the function parameter `isWord`, because it needs the Unicode tables.
- File reading and writing are not modelled, along with `IOException`, file choosers, a cancelled dialog, and the `text` left null when `main` fails to load.
  - Loading takes the file's lines as `Files.readAllLines` would give them.
  - Saving returns the string `saveWithFontInfo` writes.
  - `JavaLib.ReadAllLines` states how lines are split, so the round trip can be stated.
- Codec.RoundTrip: requires a text without `\r` and not ending in `\n`, fonts whose family has no comma, line break or surrounding blanks, and a document within int range. `Codec.TrailingNewlineDropped` shows what happens to a final newline.
- The scratch file, its `RandomAccessFile` and `originalBuffer` are not modelled; they are created but never read or written.
- The `Piece` linked list is modelled as the sequence of runs (`pieces`) that `addPiece` appends in order. It is built once and never updated, as in the source.
- `java.awt.Font` is a datatype. Its constructor's normalisation of styles outside 0..3 to plain is written out in `Styles.NewFont`, and `equals` is datatype equality. `getFontMetrics` is not modelled.
- Styles.StyleUpdated: is exact only for masks within bits 0 and 1, as the Bold and Italic menu items pass. For a mask with other bits, `style | mask` is outside 0..3 and Java's `deriveFont` would give PLAIN.
- The `System.err` message for a malformed header line is not modelled; the line is skipped.
- `lastSearchText` is never null in the model. The source's null test is covered by the empty test, since the field starts as "" and only non-empty inputs are stored.
- `JOptionPane` messages are returned as a `FindNotice` value instead of shown.
- Listener order is assumed to be the order of registration: the viewer's mouse listener runs before the editor's.
- Characters are Unicode scalar values (Dafny's `char`), not UTF-16 code units as a Java `char` is. A character above U+FFFF is one position in the model and two in the source, so positions, lengths, caret moves and header offsets differ for such text. A lone surrogate, which the source can hold and type, cannot be represented.
- JavaLib.ParseInt: reads only the ASCII digits '0'..'9'. `Integer.parseInt` also accepts every other Unicode decimal digit, so a header line written with such digits is applied by the source and skipped by the model.
- JavaLib.IntToString: always writes ASCII digits. `String.format("%d")` writes the digits of the default locale, which may differ.
- Running out of memory is not modelled. A header range such as `0,2000000000,...` makes the loader's map loop put one entry per position. The resulting `OutOfMemoryError` is not caught by `catch (Exception)`, so the source fails to load the file, while `Decode` loads it.
- Arithmetic is unbounded. Positions and lengths stay far below 2^31 for any document that fits in memory, so int overflow is not modelled, except that the file round trip requires lengths within int range.

## Findings

| source | as written | input that shows it | evidently intended | confidence | as-written member | corrected member |
|---|---|---|---|---|---|---|
| TextEditor/Text.java:193-201 | `delete(pos, n)` rejects only `pos < 0` and `pos + n > length`, so a negative `n` passes: the loop removes nothing and `length -= n` makes `length` exceed the list size | `delete(0, -1)` on any document: no character is removed and `length` grows by one | a negative count is rejected like any other out-of-range request, so `length` always equals the list size | not executed | Document.NegativeDeleteDesynchronises | TextModel.Text.Delete |
| TextEditor/Text.java:261-264 | `cut(start, end)` calls `delete(start, end - start)`, so a reversed range reaches the negative-count delete above | `cut(5, 3)` on a document of length 5 or more: the clipboard is cleared, nothing is removed and `length` grows by two | a reversed range throws, as with the corrected delete, and `length` always equals the list size | not executed | Document.ReversedCutDesynchronises | TextModel.Text.Cut |
