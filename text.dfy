/** The document: a Text holds a list of StyledChar objects and a `length` field, a
    piece list built once when the file is loaded, and shares one clipboard with every
    other Text.

    StyledChar is a class, as in the editor: `copy` puts the document's own StyledChar
    objects on the clipboard and `getLine`/`getStyledChar` hand them out, so a later
    change to `sc.font` shows through every list that holds `sc`. The value a list of
    StyledChar objects holds at one moment is its sequence of cells (`CellsOf`); every
    edit is proved against a function on cells from the Document module. */
module TextModel {
  import opened Outcomes
  import opened Styles
  import opened JavaLib
  import opened Lines
  import opened FontRuns
  import opened FileLines
  import opened HeaderFormat
  import opened Codec
  import opened Document

  /** One character and its font. A Java char is a UTF-16 code unit; `character` is a
      Unicode scalar value, so text above U+FFFF takes one position here and two there. */
  class StyledChar {
    var character: char
    var font: Font

    constructor (character: char, font: Font)
      ensures this.character == character && this.font == font
    {
      this.character := character;
      this.font := font;
    }
  }

  /** The cells a list of StyledChar objects holds now. */
  function CellsOf(cs: seq<StyledChar>): (cells: seq<Cell>)
    reads cs
    ensures |cells| == |cs|
  {
    seq(|cs|, i reads cs requires 0 <= i < |cs| => Cell(cs[i].character, cs[i].font))
  }

  /** No object occurs twice in the list. The fact about a pair of positions is only drawn
      when a proof names that pair with `Apart`. */
  predicate Distinct(cs: seq<StyledChar>)
  {
    forall i, j {:trigger Apart(cs, i, j)} :: 0 <= i < |cs| && 0 <= j < |cs| && i != j ==> Apart(cs, i, j)
  }

  /** Positions `i` and `j` hold different objects. */
  predicate Apart(cs: seq<StyledChar>, i: int, j: int)
    requires 0 <= i < |cs| && 0 <= j < |cs|
  {
    cs[i] != cs[j]
  }

  /** The clipboard every Text shares (a static list in the editor). */
  class Clipboard {
    var items: seq<StyledChar>

    constructor ()
      ensures items == []
    {
      items := [];
    }

    function Cells(): seq<Cell>
      reads this, items
    {
      CellsOf(items)
    }
  }

  class Text {
    var length: int
    var characters: seq<StyledChar>
    /** The runs of equal fonts found when the file was loaded; no edit updates them. */
    var pieces: seq<Range>

    /** `length` counts the characters, and no StyledChar object occurs twice. */
    ghost predicate Valid()
      reads this
    {
      length == |characters| && Distinct(characters)
    }

    /** The document's cells. */
    function Cells(): seq<Cell>
      reads this, characters
    {
      CellsOf(characters)
    }

    /** The document's plain text. */
    function Chars(): string
      reads this, characters
    {
      CharsOf(Cells())
    }

    /** The Text constructor, given the lines Files.readAllLines returns for the file: the
        characters of the body, each with the font the header gives its position or the
        default font, and one piece per run of equal fonts. */
    constructor (lines: seq<string>)
      ensures Valid()
      ensures Cells() == Decode(lines)
      ensures pieces == Runs(FontsOf(Cells()))
      ensures forall k :: 0 <= k < |characters| ==> fresh(characters[k])
    {
      var cs := LoadCharacters(lines);
      label Made:
      var ps := BuildPieces(FontsOf(CellsOf(cs)));
      characters := cs;
      pieces := ps;
      length := |cs|;
      CellsKept@Made(cs);
    }

    /** charAt: the character at `index`, or IndexOutOfBoundsException outside [0, length). */
    function CharAt(index: int): (r: Result<char>)
      reads this, characters
      requires Valid()
      ensures r.Ok? <==> 0 <= index < length
      ensures r.Ok? ==> r.value == Chars()[index]
    {
      if index < 0 || index >= length then Err(IndexOutOfBounds) else Ok(characters[index].character)
    }

    /** getStyledChar: the StyledChar object itself at `index`, or IndexOutOfBoundsException. */
    function GetStyledChar(index: int): (r: Result<StyledChar>)
      reads this
      requires Valid()
      ensures r.Ok? <==> 0 <= index < length
      ensures r.Ok? ==> r.value == characters[index]
    {
      if index < 0 || index >= length then Err(IndexOutOfBounds) else Ok(characters[index])
    }

    /** insert: `text` spliced in at `pos`, each character a new StyledChar in `font`. A
        position outside [0, length) throws and changes nothing. */
    method Insert(pos: int, text: string, font: Font) returns (r: Outcome)
      requires Valid()
      modifies this`characters, this`length
      ensures Valid() && pieces == old(pieces)
      ensures r.Fail? <==> pos < 0 || pos > old(length)
      ensures r.Pass? ==> Cells() == Inserted(old(Cells()), pos, TextCells(text, font))
      ensures r.Pass? ==> Replaced(old(characters), characters, pos, 0, |text|)
      ensures r.Pass? ==> forall k :: pos <= k < pos + |text| ==> fresh(characters[k])
      ensures r.Fail? ==> characters == old(characters) && length == old(length)
    {
      if pos < 0 || pos > length {
        return Fail(IndexOutOfBounds);
      }
      if text == [] {
        assert Inserted(Cells(), pos, TextCells(text, font)) == Cells();
        return Pass;
      }
      ghost var added: seq<StyledChar> := [];
      var i := 0;
      while i < |text|
        invariant 0 <= i <= |text| && |added| == i
        invariant characters == old(characters)[..pos] + added + old(characters)[pos..]
        invariant length == old(length)
        invariant forall k :: 0 <= k < i ==> fresh(added[k])
        invariant Distinct(added)
        invariant CellsOf(added) == TextCells(text[..i], font)
      {
        var sc := new StyledChar(text[i], font);
        characters := characters[..pos + i] + [sc] + characters[pos + i..];
        AddedStep(old(characters), pos, added, sc);
        DistinctSnoc(added, sc);
        added := added + [sc];
        CellsOfSnoc(added[..i], sc);
        assert added[..i] + [sc] == added;
        assert text[..i + 1] == text[..i] + [text[i]];
        i := i + 1;
      }
      length := length + |text|;
      assert text[..i] == text;
      assert Cells() == Inserted(old(Cells()), pos, TextCells(text, font)) by {
        SpliceCells(old(characters), pos, added);
        CellsKept(old(characters));
      }
      assert Distinct(characters) by {
        DistinctSplice(old(characters), pos, added);
      }
      assert forall k :: pos <= k < pos + |text| ==> characters[k] == added[k - pos];
      return Pass;
    }

    /** delete, with the guard also rejecting a negative count: `count` cells removed from
        `pos`. A range outside [0, length] throws and changes nothing. */
    method Delete(pos: int, count: int) returns (r: Outcome)
      requires Valid()
      modifies this`characters, this`length
      ensures Valid() && pieces == old(pieces)
      ensures r.Fail? <==> pos < 0 || count < 0 || pos + count > old(length)
      ensures r.Pass? ==> Cells() == Deleted(old(Cells()), pos, count)
      ensures r.Pass? ==> characters == old(characters)[..pos] + old(characters)[pos + count..]
      ensures r.Pass? ==> Replaced(old(characters), characters, pos, count, 0)
      ensures r.Fail? ==> characters == old(characters) && length == old(length)
    {
      if pos < 0 || count < 0 || pos + count > length {
        return Fail(IndexOutOfBounds);
      }
      var i := 0;
      while i < count
        invariant 0 <= i <= count
        invariant characters == old(characters)[..pos] + old(characters)[pos + i..]
        invariant length == old(length)
      {
        characters := characters[..pos] + characters[pos + 1..];
        i := i + 1;
      }
      length := length - count;
      assert Distinct(characters) by {
        DistinctWithout(old(characters), pos, pos + count);
      }
      assert Cells() == Deleted(old(Cells()), pos, count) by {
        WithoutCells(old(characters), pos, count);
        CellsKept(old(characters));
      }
      return Pass;
    }

    /** getText: the characters, in order. */
    method GetText() returns (s: string)
      requires Valid()
      ensures s == Chars()
    {
      s := "";
      var i := 0;
      while i < |characters|
        invariant 0 <= i <= |characters|
        invariant s == Chars()[..i]
      {
        s := s + [characters[i].character];
        i := i + 1;
      }
    }

    /** getLine: the StyledChar objects of line `index`, from just after the index-th
        newline up to the next newline or the end. An index at or below 0 gives line 0, an
        index past the last line gives the empty list. */
    method GetLine(index: int) returns (line: seq<StyledChar>)
      requires Valid()
      ensures line == characters[LineStart(Chars(), index)..LineEnd(Chars(), index)]
    {
      ghost var s := Chars();
      var currentLine := 0;
      var pos := 0;
      while currentLine < index && pos < length
        invariant 0 <= pos <= |s|
        invariant currentLine == NewlinesBefore(s, pos)
        invariant currentLine <= index || (currentLine == 0 && pos == 0)
        invariant pos == 0 || s[pos - 1] == '\n' || currentLine < index
      {
        if CharAt(pos).value == '\n' {
          currentLine := currentLine + 1;
        }
        pos := pos + 1;
      }
      assert pos == LineStart(s, index) by {
        if index > 0 {
          if currentLine == index {
            LineStartAt(s, pos, index);
          } else {
            BeyondLastLine(s, index);
          }
        }
      }
      var start := pos;
      line := [];
      while pos < length && CharAt(pos).value != '\n'
        invariant start <= pos <= |s|
        invariant line == characters[start..pos]
        invariant forall k :: start <= k < pos ==> s[k] != '\n'
      {
        assert characters[start..pos + 1] == characters[start..pos] + [characters[pos]];
        line := line + [GetStyledChar(pos).value];
        pos := pos + 1;
      }
      assert pos == LineEnd(s, index) by {
        NextNewlineAt(s, start, pos);
      }
    }

    /** getLineCount: one more than the number of newlines. */
    method GetLineCount() returns (count: int)
      requires Valid()
      ensures count == LineCount(Chars())
    {
      ghost var s := Chars();
      count := 1;
      var i := 0;
      while i < length
        invariant 0 <= i <= length
        invariant count == 1 + NewlinesBefore(s, i)
      {
        if CharAt(i).value == '\n' {
          count := count + 1;
        }
        i := i + 1;
      }
    }

    /** copy: the clipboard is cleared, then receives the StyledChar objects themselves at
        positions start, start + 1, ... below both `end` and `length`. Reading a negative
        position throws, which leaves the clipboard empty. */
    method Copy(start: int, end: int, clip: Clipboard) returns (r: Outcome)
      requires Valid()
      modifies clip
      ensures r.Fail? <==> start < 0 && start < end
      ensures r.Fail? ==> clip.items == []
      ensures r.Pass? ==> clip.items == if start < end && start < length then characters[start..Min(end, length)] else []
      ensures r.Pass? ==> Ok(clip.Cells()) == Copied(Cells(), start, end)
    {
      clip.items := [];
      var i := start;
      while i < end && i < length
        invariant start <= i
        invariant i == start || (0 <= start && i <= end && i <= length)
        invariant clip.items == if i == start then [] else characters[start..i]
      {
        var sc := GetStyledChar(i);
        if sc.Err? {
          return Fail(sc.error);
        }
        SliceGrows(characters, start, i);
        clip.items := clip.items + [sc.value];
        i := i + 1;
      }
      if start < end && start < length {
        CellsOfSlice(characters, start, i);
      }
      return Pass;
    }

    /** cut: copy, then delete the same range. The delete is the corrected one, so a
        reversed range throws after the copy has cleared the clipboard. */
    method Cut(start: int, end: int, clip: Clipboard) returns (r: Outcome)
      requires Valid()
      modifies this`characters, this`length, clip
      ensures Valid() && pieces == old(pieces)
      ensures r.Pass? <==> 0 <= start <= end <= old(length)
      ensures r.Pass? ==> Cells() == Deleted(old(Cells()), start, end - start)
      ensures r.Pass? ==> clip.items == old(characters)[start..end]
      ensures r.Pass? ==> Replaced(old(characters), characters, start, end - start, 0)
      ensures r.Fail? ==> characters == old(characters) && length == old(length)
      ensures clip.items == if 0 <= start < end && start < old(length) then old(characters)[start..Min(end, old(length))] else []
    {
      r := Copy(start, end, clip);
      if r.Fail? {
        return;
      }
      r := Delete(start, end - start);
    }

    /** paste: each clipboard entry, in order, inserted as a new StyledChar with the same
        character and font at pos, pos + 1, ... Only the first insertion can fail, so a
        failure changes nothing. */
    method Paste(pos: int, clip: Clipboard) returns (r: Outcome)
      requires Valid()
      modifies this`characters, this`length
      ensures Valid() && pieces == old(pieces)
      ensures r.Fail? <==> clip.items != [] && (pos < 0 || pos > old(length))
      ensures r.Pass? && clip.items != [] ==> Cells() == Inserted(old(Cells()), pos, clip.Cells())
      ensures r.Pass? && clip.items != [] ==> Replaced(old(characters), characters, pos, 0, |clip.items|)
      ensures r.Pass? ==> forall k :: pos <= k < pos + |clip.items| ==> fresh(characters[k])
      ensures r.Fail? || clip.items == [] ==> characters == old(characters) && length == old(length)
    {
      ghost var pasted := clip.Cells();
      ghost var before := Cells();
      ghost var added: seq<StyledChar> := [];
      r := Pass;
      for i := 0 to |clip.items|
        invariant r.Pass? && Valid()
        invariant forall k :: 0 <= k < |clip.items| ==> pasted[k] == Cell(clip.items[k].character, clip.items[k].font)
        invariant i == 0 ==> characters == old(characters) && length == old(length)
        invariant i > 0 ==> 0 <= pos <= old(length) && length == old(length) + i
        invariant i > 0 ==> Cells() == Inserted(before, pos, pasted[..i])
        invariant |added| == i && forall k :: 0 <= k < i ==> fresh(added[k])
        invariant i > 0 ==> characters == old(characters)[..pos] + added + old(characters)[pos..]
      {
        var sc := clip.items[i];
        ghost var prev := characters;
        r := Insert(pos + i, [sc.character], sc.font);
        if r.Fail? {
          return;
        }
        if i == 0 {
          assert prev == old(characters)[..pos] + added + old(characters)[pos..];
        }
        SpliceExtends(old(characters), pos, added, prev, characters);
        added := added + [characters[pos + i]];
        assert Cells() == Inserted(before, pos, pasted[..i + 1]) by {
          assert TextCells([sc.character], sc.font) == pasted[i..i + 1];
          InsertedSnoc(before, pos, pasted[..i], pasted[i..i + 1]);
          assert pasted[..i] + pasted[i..i + 1] == pasted[..i + 1];
        }
      }
      if clip.items != [] {
        SplicedReplaced(old(characters), pos, added);
        assert pasted[..|clip.items|] == pasted;
        assert clip.Cells() == pasted;
      }
    }

    /** saveWithFontInfo, given the text it writes: the header for the fonts of the
        characters, then "---\n", then the characters. */
    method SaveWithFontInfo() returns (out: string)
      requires Valid()
      ensures out == Encode(Cells())
    {
      out := FontHeader(FontsOf(Cells()));
      var body := GetText();
      out := out + SEPARATOR + "\n" + body;
    }
  }

  /** The header loop of saveWithFontInfo over the fonts of the characters: whenever the
      font changes, and once past the last character, the range since the last change is
      written as "start,end,name,style,size" and '\n'. */
  method FontHeader(fs: seq<Font>) returns (out: string)
    ensures out == Terminated(HeaderLines(Runs(fs)))
  {
    var n := |fs|;
    var cur: Option<Font> := None;
    var rangeStart := 0;
    ghost var written: seq<Range> := [];
    out := "";
    for i := 0 to n + 1
      invariant out == Terminated(HeaderLines(written))
      invariant i == 0 ==> cur.None? && written == [] && rangeStart == 0
      invariant 0 < i <= n ==> cur == Some(fs[i - 1]) && 0 <= rangeStart < i
      invariant 0 < i <= n ==> written + [Range(rangeStart, i, fs[i - 1])] == Runs(fs[..i])
      invariant i == n + 1 ==> written == Runs(fs)
    {
      var font: Option<Font> := if i < n then Some(fs[i]) else None;
      if 0 < i < n {
        RunsGrow(fs, i, written, rangeStart, cur.value);
      } else if i == 0 < n {
        assert fs[..1] == [fs[0]];
      } else if i == n {
        assert fs[..n] == fs;
      }
      if i == n || (cur.Some? && font.value != cur.value) {
        if cur.Some? {
          var r := Range(rangeStart, i, cur.value);
          HeaderLinesSnoc(written, r);
          TerminatedSnoc(HeaderLines(written), HeaderLine(r));
          out := out + HeaderLine(r) + "\n";
          written := written + [r];
        }
        rangeStart := i;
      }
      cur := if i < n then font else None;
    }
  }

  /** fontMap.get: the font the map holds for position `k`, if any. */
  function Lookup(fontMap: map<int, Font>, k: int): Option<Font>
  {
    if k in fontMap then Some(fontMap[k]) else None
  }

  /** The header and body passes of the Text constructor: the font map read from the
      header, if there is a separator, and one new StyledChar per character of the body,
      in the font the map gives its position or the default font. */
  method LoadCharacters(lines: seq<string>) returns (cs: seq<StyledChar>)
    ensures Distinct(cs) && CellsOf(cs) == Decode(lines)
    ensures forall k :: 0 <= k < |cs| ==> fresh(cs[k])
  {
    var sep := SeparatorIndex(lines);
    var fontMap: map<int, Font> := map[];
    if sep != -1 {
      fontMap := ReadFontMap(ParseHeader(lines[..sep]));
    } else {
      assert ParseHeader([]) == [];
    }
    var content := JoinBody(lines, sep + 1);
    cs := NewCharacters(content, fontMap);
    DecodedCells(lines, fontMap, CellsOf(cs));
  }

  /** The header pass of the Text constructor, over the header lines as ParseHeaderLine
      reads them: every line that parsed puts its font on each position of its range, in
      order, so a later line overrides an earlier one; a line that did not parse is
      skipped. */
  method ReadFontMap(parsed: seq<Option<Range>>) returns (fontMap: map<int, Font>)
    ensures forall k :: Lookup(fontMap, k) == RunFontAt(Applied(parsed), k)
  {
    fontMap := map[];
    for i := 0 to |parsed|
      invariant MapsRanges(fontMap, Applied(parsed[..i]))
    {
      ghost var before := fontMap;
      if parsed[i].Some? {
        fontMap := PutRange(fontMap, parsed[i].value);
      }
      MapsNextRange(before, fontMap, parsed[..i], parsed[i]);
      assert parsed[..i + 1] == parsed[..i] + [parsed[i]];
    }
    assert parsed[..|parsed|] == parsed;
  }

  /** The inner loop of the header pass: `r`'s font put on every position of `r`. */
  method PutRange(fontMap: map<int, Font>, r: Range) returns (m: map<int, Font>)
    ensures forall k :: Lookup(m, k) == if Covers(r, k) then Some(r.font) else Lookup(fontMap, k)
  {
    m := fontMap;
    var pos := r.start;
    while pos < r.end
      invariant pos == r.start || r.start < pos <= r.end
      invariant forall k :: Lookup(m, k) == if r.start <= k < pos then Some(r.font) else Lookup(fontMap, k)
    {
      ghost var prev := m;
      m := m[pos := r.font];
      assert forall k :: k != pos ==> Lookup(m, k) == Lookup(prev, k);
      pos := pos + 1;
    }
  }

  /** The font map agrees with the ranges at every position. */
  ghost predicate MapsRanges(fontMap: map<int, Font>, rs: seq<Range>)
  {
    forall k :: Lookup(fontMap, k) == RunFontAt(rs, k)
  }

  /** A map that agrees with the ranges applied so far, overwritten on the range of the
      next line when that line parsed, agrees with the ranges including that line. */
  lemma {:induction false} MapsNextRange(before: map<int, Font>, after: map<int, Font>, parsed: seq<Option<Range>>, o: Option<Range>)
    requires MapsRanges(before, Applied(parsed))
    requires o.None? ==> after == before
    requires o.Some? ==> forall k :: Lookup(after, k) == (if Covers(o.value, k) then Some(o.value.font) else Lookup(before, k))
    ensures MapsRanges(after, Applied(parsed + [o]))
  {
    forall k
      ensures Lookup(after, k) == RunFontAt(Applied(parsed + [o]), k)
    {
      AppliedSnoc(parsed, o, k);
    }
  }

  /** Cells that hold the body's characters and the map's fonts are the decoded document. */
  lemma {:induction false} DecodedCells(lines: seq<string>, fontMap: map<int, Font>, cells: seq<Cell>)
    requires forall k :: Lookup(fontMap, k) == FontAt(Header(lines), k)
    requires |cells| == |Join(BodyLines(lines))|
    requires forall k :: 0 <= k < |cells| ==>
      cells[k] == Cell(Join(BodyLines(lines))[k], FontOrDefault(Lookup(fontMap, k)))
    ensures cells == Decode(lines)
  {
  }

  /** The body pass of the Text constructor: the lines from `from` on, each followed by
      '\n' except the last. */
  method JoinBody(lines: seq<string>, from: int) returns (content: string)
    requires 0 <= from <= |lines|
    ensures content == Join(lines[from..])
  {
    content := "";
    var i := from;
    while i < |lines|
      invariant from <= i <= |lines|
      invariant i == from ==> content == ""
      invariant i > from ==> content == Join(lines[from..i]) + (if i < |lines| then "\n" else "")
    {
      if i > from {
        assert lines[from..i + 1] == lines[from..i] + [lines[i]];
        JoinSnoc(lines[from..i], lines[i]);
      } else {
        assert lines[from..i + 1] == [lines[i]];
      }
      content := content + lines[i];
      if i != |lines| - 1 {
        content := content + "\n";
      }
      i := i + 1;
    }
    assert lines[from..i] == lines[from..];
  }

  /** The character pass of the Text constructor: a new StyledChar per character of the
      body, with the font the map holds for its position or the default font. */
  method NewCharacters(content: string, fontMap: map<int, Font>) returns (cs: seq<StyledChar>)
    ensures |cs| == |content| && Distinct(cs)
    ensures forall k :: 0 <= k < |cs| ==> fresh(cs[k])
    ensures forall k :: 0 <= k < |cs| ==>
      cs[k].character == content[k] && cs[k].font == FontOrDefault(Lookup(fontMap, k))
  {
    cs := [];
    for i := 0 to |content|
      invariant |cs| == i
      invariant forall k :: 0 <= k < i ==> fresh(cs[k])
      invariant Distinct(cs)
      invariant forall k :: 0 <= k < i ==>
        cs[k].character == content[k] && cs[k].font == FontOrDefault(Lookup(fontMap, k))
    {
      var sc := new StyledChar(content[i], FontOrDefault(Lookup(fontMap, i)));
      DistinctSnoc(cs, sc);
      cs := cs + [sc];
    }
  }

  /** The piece pass of the Text constructor: consecutive positions of equal font grouped
      into one piece each, left to right. */
  method BuildPieces(fs: seq<Font>) returns (ps: seq<Range>)
    ensures ps == Runs(fs)
  {
    ps := [];
    if fs != [] {
      var cur := fs[0];
      var start := 0;
      assert fs[..1] == [fs[0]];
      for i := 1 to |fs|
        invariant 0 <= start < i
        invariant ps + [Range(start, i, cur)] == Runs(fs[..i])
      {
        RunsGrow(fs, i, ps, start, cur);
        if fs[i] != cur {
          ps := ps + [Range(start, i, cur)];
          start := i;
          cur := fs[i];
        }
      }
      ps := ps + [Range(start, |fs|, cur)];
      assert fs[..|fs|] == fs;
    }
  }

  /** Dropping a stretch from a list without repeats leaves a list without repeats. */
  lemma {:induction false} DistinctWithout(cs: seq<StyledChar>, a: int, b: int)
    requires Distinct(cs) && 0 <= a <= b <= |cs|
    ensures Distinct(cs[..a] + cs[b..])
  {
    var d := cs[..a] + cs[b..];
    forall i, j | 0 <= i < |d| && 0 <= j < |d| && i != j
      ensures Apart(d, i, j)
    {
      var i' := if i < a then i else i + b - a;
      var j' := if j < a then j else j + b - a;
      assert d[i] == cs[i'] && d[j] == cs[j'];
      assert Apart(cs, i', j');
    }
  }

  /** The list after one more insertion: the new object goes right after the ones added so far. */
  lemma {:induction false} AddedStep(cs: seq<StyledChar>, pos: int, added: seq<StyledChar>, sc: StyledChar)
    requires 0 <= pos <= |cs|
    ensures (cs[..pos] + added + cs[pos..])[..pos + |added|] + [sc] + (cs[..pos] + added + cs[pos..])[pos + |added|..] ==
      cs[..pos] + (added + [sc]) + cs[pos..]
  {
    var d := cs[..pos] + added + cs[pos..];
    assert d[..pos + |added|] == cs[..pos] + added;
    assert d[pos + |added|..] == cs[pos..];
  }

  lemma {:induction false} CellsOfSnoc(cs: seq<StyledChar>, sc: StyledChar)
    ensures CellsOf(cs + [sc]) == CellsOf(cs) + [Cell(sc.character, sc.font)]
  {
  }

  /** The cells of a spliced list are the spliced cells. */
  lemma {:induction false} SpliceCells(cs: seq<StyledChar>, pos: int, added: seq<StyledChar>)
    requires 0 <= pos <= |cs|
    ensures CellsOf(cs[..pos] + added + cs[pos..]) == Inserted(CellsOf(cs), pos, CellsOf(added))
  {
    var d := cs[..pos] + added + cs[pos..];
    forall k | 0 <= k < |d|
      ensures CellsOf(d)[k] == Inserted(CellsOf(cs), pos, CellsOf(added))[k]
    {
      InsertedAt(CellsOf(cs), pos, CellsOf(added), k);
    }
  }

  /** The cells of a list with a stretch removed are the cells with that stretch removed. */
  lemma {:induction false} WithoutCells(cs: seq<StyledChar>, pos: int, n: int)
    requires 0 <= pos && 0 <= n && pos + n <= |cs|
    ensures CellsOf(cs[..pos] + cs[pos + n..]) == Deleted(CellsOf(cs), pos, n)
  {
    var d := cs[..pos] + cs[pos + n..];
    forall k | 0 <= k < |d|
      ensures CellsOf(d)[k] == Deleted(CellsOf(cs), pos, n)[k]
    {
      if k < pos {
        assert d[k] == cs[k];
      } else {
        assert d[k] == cs[k + n];
      }
    }
  }

  /** A new object appended to a list without repeats leaves a list without repeats. */
  lemma {:induction false} DistinctSnoc(cs: seq<StyledChar>, sc: StyledChar)
    requires Distinct(cs) && sc !in cs
    ensures Distinct(cs + [sc])
  {
    var d := cs + [sc];
    forall i, j | 0 <= i < |d| && 0 <= j < |d| && i != j
      ensures Apart(d, i, j)
    {
      if i < |cs| && j < |cs| {
        assert Apart(cs, i, j);
      } else if i < |cs| {
        assert d[i] in cs;
      } else {
        assert d[j] in cs;
      }
    }
  }

  /** Splicing new objects into a list without repeats leaves a list without repeats. */
  lemma {:induction false} DistinctSplice(cs: seq<StyledChar>, pos: int, added: seq<StyledChar>)
    requires 0 <= pos <= |cs| && Distinct(cs) && Distinct(added)
    requires forall k :: 0 <= k < |added| ==> added[k] !in cs
    ensures Distinct(cs[..pos] + added + cs[pos..])
  {
    var d := cs[..pos] + added + cs[pos..];
    var n := |added|;
    forall i, j | 0 <= i < |d| && 0 <= j < |d| && i != j
      ensures Apart(d, i, j)
    {
      var inI, inJ := pos <= i < pos + n, pos <= j < pos + n;
      if inI && inJ {
        assert Apart(added, i - pos, j - pos);
      } else if inI {
        assert d[j] in cs;
      } else if inJ {
        assert d[i] in cs;
      } else {
        var i' := if i < pos then i else i - n;
        var j' := if j < pos then j else j - n;
        assert d[i] == cs[i'] && d[j] == cs[j'];
        assert Apart(cs, i', j');
      }
    }
  }

  /** Objects whose fields did not change hold the same cells. */
  twostate lemma CellsKept(cs: seq<StyledChar>)
    requires forall k :: 0 <= k < |cs| ==> old(allocated(cs[k]))
    requires forall k :: 0 <= k < |cs| ==> cs[k].character == old(cs[k].character) && cs[k].font == old(cs[k].font)
    ensures CellsOf(cs) == old(CellsOf(cs))
  {
  }

  /** A text none of whose objects changed holds the same cells. */
  twostate lemma TextKept(t: Text)
    requires old(allocated(t)) && unchanged(t)
    requires forall k :: 0 <= k < |t.characters| ==> old(allocated(t.characters[k])) && unchanged(t.characters[k])
    ensures t.Cells() == old(t.Cells()) && t.Chars() == old(t.Chars())
  {
    CellsKept(t.characters);
  }

  /** The cells of a stretch of the list are that stretch of its cells. */
  lemma {:induction false} CellsOfSlice(cs: seq<StyledChar>, a: int, b: int)
    requires 0 <= a <= b <= |cs|
    ensures CellsOf(cs[a..b]) == CellsOf(cs)[a..b]
  {
  }

  lemma {:induction false} SliceGrows<T>(xs: seq<T>, a: int, b: int)
    requires 0 <= a <= b < |xs|
    ensures xs[a..b + 1] == xs[a..b] + [xs[b]]
  {
  }
}
