/** The styled file format, as the Text constructor reads it and saveWithFontInfo
    writes it.

    A file is a list of lines. If some line is exactly "---", the lines before the first
    such line form the header and the lines after it the body; otherwise every line is
    body. Header lines are applied in order, so a later line wins on the positions it
    shares with an earlier one, and a line that does not parse is skipped. Positions no
    line covers get Monospaced, plain, 14. The body is the body lines joined with '\n',
    with no newline after the last.

    saveWithFontInfo writes one header line per maximal run of equal fonts, each followed
    by '\n', then "---\n", then the characters. */
module Codec {
  import opened Outcomes
  import opened Styles
  import opened JavaLib
  import opened FontRuns
  import opened FileLines
  import opened HeaderFormat

  /** lines.indexOf("---"): the index of the first separator line, or -1. */
  function SeparatorIndex(lines: seq<string>): (k: int)
    ensures -1 <= k < |lines|
    ensures k >= 0 ==> lines[k] == SEPARATOR
    ensures forall j :: 0 <= j < |lines| && (k == -1 || j < k) ==> lines[j] != SEPARATOR
  {
    if lines == [] then -1
    else if lines[0] == SEPARATOR then 0
    else
      var k := SeparatorIndex(lines[1..]);
      if k == -1 then -1 else k + 1
  }

  /** The ranges of the header lines that parsed, in order. */
  function Applied(parsed: seq<Option<Range>>): seq<Range>
  {
    if parsed == [] then []
    else
      match parsed[|parsed| - 1]
      case Some(r) => Applied(parsed[..|parsed| - 1]) + [r]
      case None => Applied(parsed[..|parsed| - 1])
  }

  /** The font the header gives position `k`, if any: that of the last parsed line covering it. */
  function FontAt(header: seq<string>, k: int): Option<Font>
  {
    RunFontAt(Applied(ParseHeader(header)), k)
  }

  function FontOrDefault(f: Option<Font>): Font
  {
    if f.Some? then f.value else DefaultFont
  }

  /** The header lines: those before the separator, or none. */
  function Header(lines: seq<string>): seq<string>
  {
    if SeparatorIndex(lines) == -1 then [] else lines[..SeparatorIndex(lines)]
  }

  /** The body lines: those after the separator, or all lines. */
  function BodyLines(lines: seq<string>): seq<string>
  {
    lines[SeparatorIndex(lines) + 1..]
  }

  /** The document a file's lines describe: one cell per character of the body, with the
      font the header gives its position, or the default font. */
  function Decode(lines: seq<string>): seq<Cell>
  {
    seq(|Join(BodyLines(lines))|, i requires 0 <= i < |Join(BodyLines(lines))| =>
      Cell(Join(BodyLines(lines))[i], FontOrDefault(FontAt(Header(lines), i))))
  }

  /** A file with header lines `hs` and text `body`: each header line followed by '\n',
      then the separator line, then the text. */
  function Saved(hs: seq<string>, body: string): string
  {
    Terminated(hs) + SEPARATOR + "\n" + body
  }

  /** The file saveWithFontInfo writes: one header line per maximal run of equal fonts. */
  function Encode(cells: seq<Cell>): string
  {
    Saved(HeaderLines(Runs(FontsOf(cells))), CharsOf(cells))
  }

  // ---------------------------------------------------------------- loading

  /** A header line that parses overrides the earlier lines on the positions it covers and
      leaves the others to them; a line that does not parse changes nothing. */
  lemma {:induction false} FontAtLastLine(header: seq<string>, line: string, k: int)
    ensures FontAt(header + [line], k) ==
      match ParseHeaderLine(line)
      case Some(r) => if Covers(r, k) then Some(r.font) else FontAt(header, k)
      case None => FontAt(header, k)
  {
    ParseHeaderSnoc(header, line);
    AppliedSnoc(ParseHeader(header), ParseHeaderLine(line), k);
  }

  lemma {:induction false} ParseHeaderSnoc(header: seq<string>, line: string)
    ensures ParseHeader(header + [line]) == ParseHeader(header) + [ParseHeaderLine(line)]
  {
  }

  lemma {:induction false} AppliedSnoc(parsed: seq<Option<Range>>, o: Option<Range>, k: int)
    ensures RunFontAt(Applied(parsed + [o]), k) ==
      match o
      case Some(r) => if Covers(r, k) then Some(r.font) else RunFontAt(Applied(parsed), k)
      case None => RunFontAt(Applied(parsed), k)
  {
    assert (parsed + [o])[..|parsed|] == parsed;
  }

  /** A position gets no header font exactly when no header line that parses covers it. */
  lemma {:induction false} FontAtNone(header: seq<string>, k: int)
    ensures FontAt(header, k).None? <==>
      forall j :: 0 <= j < |header| ==> ParseHeader(header)[j].None? || !Covers(ParseHeader(header)[j].value, k)
  {
    AppliedNone(ParseHeader(header), k);
  }

  lemma {:induction false} AppliedNone(parsed: seq<Option<Range>>, k: int)
    ensures RunFontAt(Applied(parsed), k).None? <==>
      forall j :: 0 <= j < |parsed| ==> parsed[j].None? || !Covers(parsed[j].value, k)
  {
    if parsed != [] {
      var n := |parsed|;
      AppliedNone(parsed[..n - 1], k);
      AppliedSnoc(parsed[..n - 1], parsed[n - 1], k);
      assert parsed == parsed[..n - 1] + [parsed[n - 1]];
      forall j | 0 <= j < n - 1
        ensures parsed[j] == parsed[..n - 1][j]
      {
      }
    }
  }

  /** Parsed lines that are all ranges apply as those ranges, in order. */
  lemma {:induction false} AppliedAll(rs: seq<Range>)
    ensures Applied(seq(|rs|, j requires 0 <= j < |rs| => Some(rs[j]))) == rs
  {
    if rs != [] {
      AppliedAll(rs[..|rs| - 1]);
      assert seq(|rs|, j requires 0 <= j < |rs| => Some(rs[j]))[..|rs| - 1] ==
        seq(|rs| - 1, j requires 0 <= j < |rs| - 1 => Some(rs[..|rs| - 1][j]));
    }
  }

  /** Without a separator every line is body text and every character gets the default font. */
  lemma {:induction false} DecodeWithoutSeparator(lines: seq<string>)
    requires SeparatorIndex(lines) == -1
    ensures CharsOf(Decode(lines)) == Join(lines)
    ensures forall i :: 0 <= i < |Decode(lines)| ==> Decode(lines)[i].font == DefaultFont
  {
    assert lines[0..] == lines;
  }

  // ---------------------------------------------------------------- saving and reading back

  /** The lines a saved file reads back as: its header lines, the separator, and the
      lines of its text. */
  lemma {:induction false} SavedLines(hs: seq<string>, body: string)
    requires Unbroken(hs)
    ensures ReadAllLines(Saved(hs, body)) == hs + [SEPARATOR] + ReadAllLines(body)
  {
    calc {
      ReadAllLines(Saved(hs, body));
      { SavedAssociates(hs, body); }
      ReadAllLines(Terminated(hs) + (SEPARATOR + "\n" + body));
      { ReadTerminated(hs, SEPARATOR + "\n" + body); }
      hs + ReadAllLines(SEPARATOR + "\n" + body);
      { ReadLineThenRest(SEPARATOR, body); }
      hs + ([SEPARATOR] + ReadAllLines(body));
      { Associate(hs, SEPARATOR, ReadAllLines(body)); }
      hs + [SEPARATOR] + ReadAllLines(body);
    }
  }

  lemma {:induction false} SavedAssociates(hs: seq<string>, body: string)
    ensures Saved(hs, body) == Terminated(hs) + (SEPARATOR + "\n" + body)
  {
  }

  /** A saved file whose header lines hold no line break and no separator splits back into
      those header lines and the lines of its text. */
  lemma {:induction false} SavedParts(hs: seq<string>, body: string)
    requires Unbroken(hs)
    requires forall j :: 0 <= j < |hs| ==> hs[j] != SEPARATOR
    ensures Header(ReadAllLines(Saved(hs, body))) == hs
    ensures BodyLines(ReadAllLines(Saved(hs, body))) == ReadAllLines(body)
  {
    SavedLines(hs, body);
    SplitAtSeparator(hs, ReadAllLines(body));
  }

  /** When no header line is the separator, the header and body are found where they were put. */
  lemma {:induction false} SplitAtSeparator(hs: seq<string>, bodyLines: seq<string>)
    requires forall j :: 0 <= j < |hs| ==> hs[j] != SEPARATOR
    ensures Header(hs + [SEPARATOR] + bodyLines) == hs
    ensures BodyLines(hs + [SEPARATOR] + bodyLines) == bodyLines
  {
    assert (hs + [SEPARATOR] + bodyLines)[|hs|] == SEPARATOR;
    assert SeparatorIndex(hs + [SEPARATOR] + bodyLines) == |hs|;
    assert (hs + [SEPARATOR] + bodyLines)[..|hs|] == hs;
    assert (hs + [SEPARATOR] + bodyLines)[|hs| + 1..] == bodyLines;
  }

  /** The runs of a document whose fonts and length can be written are savable ranges. */
  lemma {:induction false} RunsSaveable(cells: seq<Cell>)
    requires |cells| <= MAX_INT
    requires forall i :: 0 <= i < |cells| ==> Saveable(cells[i].font)
    ensures forall j :: 0 <= j < |Runs(FontsOf(cells))| ==> SaveableRange(Runs(FontsOf(cells))[j])
  {
    RunsTile(FontsOf(cells));
    TilesPartition(Runs(FontsOf(cells)), FontsOf(cells));
  }

  /** The header and body a saved document's lines split into. */
  lemma {:induction false} EncodedParts(cells: seq<Cell>)
    requires |cells| <= MAX_INT
    requires forall i :: 0 <= i < |cells| ==> Saveable(cells[i].font)
    ensures Applied(ParseHeader(Header(ReadAllLines(Encode(cells))))) == Runs(FontsOf(cells))
    ensures BodyLines(ReadAllLines(Encode(cells))) == ReadAllLines(CharsOf(cells))
  {
    var rs := Runs(FontsOf(cells));
    RunsSaveable(cells);
    HeaderLinesParse(rs);
    SavedParts(HeaderLines(rs), CharsOf(cells));
    AppliedAll(rs);
  }

  /** Lines whose body joins to the characters of `cells` and whose header gives each
      position the font of its cell decode to `cells`. */
  lemma {:induction false} DecodeCells(lines: seq<string>, cells: seq<Cell>)
    requires Join(BodyLines(lines)) == CharsOf(cells)
    requires forall i :: 0 <= i < |cells| ==> FontAt(Header(lines), i) == Some(cells[i].font)
    ensures Decode(lines) == cells
  {
  }

  /** Saving and loading again gives every position of a savable document its font. */
  lemma {:induction false} FontsRestored(cells: seq<Cell>)
    requires |cells| <= MAX_INT
    requires forall i :: 0 <= i < |cells| ==> Saveable(cells[i].font)
    ensures forall i :: 0 <= i < |cells| ==> FontAt(Header(ReadAllLines(Encode(cells))), i) == Some(cells[i].font)
  {
    var fs := FontsOf(cells);
    EncodedParts(cells);
    RunsTile(fs);
    forall i | 0 <= i < |cells|
      ensures FontAt(Header(ReadAllLines(Encode(cells))), i) == Some(cells[i].font)
    {
      TilesCover(Runs(fs), fs, i);
    }
  }

  /** Saving and loading again restores every character and every font, for documents whose
      fonts can be written (see Saveable), whose text holds no '\r' and does not end with
      '\n', and whose length is an int. */
  lemma {:induction false} RoundTrip(cells: seq<Cell>)
    requires |cells| <= MAX_INT
    requires forall i :: 0 <= i < |cells| ==> Saveable(cells[i].font)
    requires '\r' !in CharsOf(cells)
    requires cells == [] || cells[|cells| - 1].character != '\n'
    ensures Decode(ReadAllLines(Encode(cells))) == cells
  {
    EncodedParts(cells);
    JoinReadAllLines(CharsOf(cells));
    FontsRestored(cells);
    DecodeCells(ReadAllLines(Encode(cells)), cells);
  }

  /** A final newline does not survive saving and loading: readAllLines starts no line
      after it and the body is joined without one, so a document that RoundTrip restores
      comes back without the newline appended to it. */
  lemma {:induction false} TrailingNewlineDropped(cells: seq<Cell>, f: Font)
    requires |cells| < MAX_INT
    requires forall i :: 0 <= i < |cells| ==> Saveable(cells[i].font)
    requires Saveable(f)
    requires '\r' !in CharsOf(cells)
    requires cells == [] || cells[|cells| - 1].character != '\n'
    ensures Decode(ReadAllLines(Encode(cells + [Cell('\n', f)]))) == cells
  {
    var cells' := cells + [Cell('\n', f)];
    SnocSaveable(cells, f);
    EncodedParts(cells');
    CharsOfSnoc(cells, Cell('\n', f));
    JoinDropsFinalNewline(CharsOf(cells));
    FontsRestored(cells');
    assert forall i :: 0 <= i < |cells| ==> cells'[i] == cells[i];
    DecodeCells(ReadAllLines(Encode(cells')), cells);
  }

  lemma {:induction false} SnocSaveable(cells: seq<Cell>, f: Font)
    requires forall i :: 0 <= i < |cells| ==> Saveable(cells[i].font)
    requires Saveable(f)
    ensures forall i :: 0 <= i < |cells + [Cell('\n', f)]| ==> Saveable((cells + [Cell('\n', f)])[i].font)
  {
    forall i | 0 <= i < |cells + [Cell('\n', f)]|
      ensures Saveable((cells + [Cell('\n', f)])[i].font)
    {
      if i < |cells| {
        assert (cells + [Cell('\n', f)])[i] == cells[i];
      }
    }
  }

  lemma {:induction false} CharsOfSnoc(cells: seq<Cell>, c: Cell)
    ensures CharsOf(cells + [c]) == CharsOf(cells) + [c.character]
  {
    assert forall i :: 0 <= i < |cells| ==> (cells + [c])[i] == cells[i];
  }
}
