/** The header lines of the styled file format.

    saveWithFontInfo writes one line "start,end,family,style,size" per run of equal fonts
    (String.format "%d,%d,%s,%d,%d"). The loader splits a header line at its commas and
    reads `start,end,family,style` and an optional `,size` (14 when absent): every
    numeric field is trimmed and read with Integer.parseInt, the family is trimmed and
    passed with the style and size to the Font constructor, and the line counts only when
    start >= 0 and end > start. A line that fails any of this is skipped. */
module HeaderFormat {
  import opened Outcomes
  import opened Styles
  import opened JavaLib
  import opened FontRuns
  import opened FileLines

  /** The line that separates the header from the body. */
  const SEPARATOR: string := "---"

  /** A numeric field: trimmed, then read with Integer.parseInt. */
  function ParseField(field: string): Option<int>
  {
    ParseInt(Trim(field))
  }

  /** The fields of one header line, as the loader reads them. */
  function ParseFields(parts: seq<string>): (r: Option<Range>)
    ensures r.Some? ==> 0 <= r.value.start < r.value.end && 0 <= r.value.font.style <= 3
  {
    if |parts| < 4 then None
    else
      var start := ParseField(parts[0]);
      var end := ParseField(parts[1]);
      var style := ParseField(parts[3]);
      var size := if |parts| >= 5 then ParseField(parts[4]) else Some(DefaultFont.size);
      if start.None? || end.None? || style.None? || size.None? then None
      else if start.value >= 0 && end.value > start.value then
        Some(Range(start.value, end.value, NewFont(Trim(parts[2]), style.value, size.value)))
      else None
  }

  /** One header line, split at its commas. */
  function ParseHeaderLine(line: string): (r: Option<Range>)
    ensures r.Some? ==> 0 <= r.value.start < r.value.end && 0 <= r.value.font.style <= 3
  {
    ParseFields(Split(line))
  }

  /** Every header line, parsed. */
  function ParseHeader(header: seq<string>): (parsed: seq<Option<Range>>)
    ensures |parsed| == |header|
  {
    seq(|header|, j requires 0 <= j < |header| => ParseHeaderLine(header[j]))
  }

  /** The header line saveWithFontInfo writes for a range, without its newline. */
  function HeaderLine(r: Range): string
  {
    IntToString(r.start) + "," + IntToString(r.end) + "," + r.font.name + "," +
    IntToString(r.font.style) + "," + IntToString(r.font.size)
  }

  /** The header lines saveWithFontInfo writes for the runs, one per run, in order. */
  function HeaderLines(rs: seq<Range>): (hs: seq<string>)
    ensures |hs| == |rs|
  {
    seq(|rs|, j requires 0 <= j < |rs| => HeaderLine(rs[j]))
  }

  /** A font whose header line reads back as itself: a family name with no comma, no line
      break and nothing trim would remove, a style in 0..3 and a size that is an int. */
  predicate Saveable(f: Font)
  {
    ',' !in f.name && '\n' !in f.name && '\r' !in f.name && Trim(f.name) == f.name &&
    0 <= f.style <= 3 && IsInt(f.size)
  }

  /** A range saveWithFontInfo can write and read back. */
  predicate SaveableRange(r: Range)
  {
    0 <= r.start < r.end <= MAX_INT && Saveable(r.font)
  }

  // ---------------------------------------------------------------- lemmas

  /** A number written with "%d" reads back as a field. */
  lemma {:induction false} ParseFieldOfInt(x: int)
    requires IsInt(x)
    ensures ParseField(IntToString(x)) == Some(x)
  {
    IntToStringPlain(x);
    TrimKeeps(IntToString(x));
    ParseIntToString(x);
  }

  /** A header line splits into its five fields. */
  lemma {:induction false} SplitHeaderLine(r: Range)
    requires Saveable(r.font)
    ensures Split(HeaderLine(r)) ==
      [IntToString(r.start), IntToString(r.end), r.font.name, IntToString(r.font.style), IntToString(r.font.size)]
  {
    IntToStringPlain(r.start);
    IntToStringPlain(r.end);
    IntToStringPlain(r.font.style);
    IntToStringPlain(r.font.size);
    SplitFiveFields(IntToString(r.start), IntToString(r.end), r.font.name, IntToString(r.font.style), IntToString(r.font.size));
  }

  /** Five fields that read as a range's numbers and family parse to that range. */
  lemma {:induction false} FieldsParse(a: string, b: string, c: string, d: string, e: string, r: Range)
    requires 0 <= r.start < r.end && 0 <= r.font.style <= 3
    requires ParseField(a) == Some(r.start) && ParseField(b) == Some(r.end)
    requires ParseField(d) == Some(r.font.style) && ParseField(e) == Some(r.font.size)
    requires Trim(c) == r.font.name
    ensures ParseFields([a, b, c, d, e]) == Some(r)
  {
  }

  /** A header line written for a savable range parses back to that range. */
  lemma {:induction false} HeaderLineParses(r: Range)
    requires SaveableRange(r)
    ensures ParseHeaderLine(HeaderLine(r)) == Some(r)
  {
    SplitHeaderLine(r);
    ParseFieldOfInt(r.start);
    ParseFieldOfInt(r.end);
    ParseFieldOfInt(r.font.style);
    ParseFieldOfInt(r.font.size);
    FieldsParse(IntToString(r.start), IntToString(r.end), r.font.name, IntToString(r.font.style), IntToString(r.font.size), r);
  }

  /** A header line has no line break and is not the separator. */
  lemma {:induction false} HeaderLinePlain(r: Range)
    requires Saveable(r.font)
    ensures NoLineBreak(HeaderLine(r))
    ensures HeaderLine(r) != SEPARATOR
  {
    var a := IntToString(r.start);
    IntToStringPlain(r.start);
    IntToStringPlain(r.end);
    IntToStringPlain(r.font.style);
    IntToStringPlain(r.font.size);
    var line := HeaderLine(r);
    assert '\n' !in line && '\r' !in line;
    forall i | 0 <= i < |line|
      ensures !IsLineBreak(line[i])
    {
      assert line[i] in line;
    }
    assert line[|a|] == ',';
  }

  /** The header lines written for savable ranges parse back to those ranges, hold no line
      break, and none is the separator. */
  lemma {:induction false} HeaderLinesParse(rs: seq<Range>)
    requires forall j :: 0 <= j < |rs| ==> SaveableRange(rs[j])
    ensures ParseHeader(HeaderLines(rs)) == seq(|rs|, j requires 0 <= j < |rs| => Some(rs[j]))
    ensures Unbroken(HeaderLines(rs))
    ensures forall j :: 0 <= j < |rs| ==> HeaderLines(rs)[j] != SEPARATOR
  {
    HeaderLinesRead(rs);
    HeaderLinesPlain(rs);
  }

  lemma {:induction false} HeaderLinesRead(rs: seq<Range>)
    requires forall j :: 0 <= j < |rs| ==> SaveableRange(rs[j])
    ensures ParseHeader(HeaderLines(rs)) == seq(|rs|, j requires 0 <= j < |rs| => Some(rs[j]))
  {
    forall j | 0 <= j < |rs|
      ensures ParseHeaderLine(HeaderLines(rs)[j]) == Some(rs[j])
    {
      HeaderLineParses(rs[j]);
    }
  }

  lemma {:induction false} HeaderLinesPlain(rs: seq<Range>)
    requires forall j :: 0 <= j < |rs| ==> Saveable(rs[j].font)
    ensures Unbroken(HeaderLines(rs))
    ensures forall j :: 0 <= j < |rs| ==> HeaderLines(rs)[j] != SEPARATOR
  {
    forall j | 0 <= j < |rs|
      ensures NoLineBreak(HeaderLines(rs)[j]) && HeaderLines(rs)[j] != SEPARATOR
    {
      HeaderLinePlain(rs[j]);
    }
  }

  /** One more range writes one more header line. */
  lemma {:induction false} HeaderLinesSnoc(rs: seq<Range>, r: Range)
    ensures HeaderLines(rs + [r]) == HeaderLines(rs) + [HeaderLine(r)]
  {
  }
}
