/** The editing rules of the editor, as functions on values: what a typed key does to the
    document, the caret and the selection; where the arrow keys move the caret; which
    match find-next selects; and which font the font menus give a character. The Editor
    class proves each of its handlers against these. */
module EditRules {
  import opened Outcomes
  import opened Styles
  import opened JavaLib
  import opened Lines
  import opened FontRuns
  import opened Document

  /** KeyEvent.VK_BACK_SPACE and KeyEvent.VK_ENTER, as the characters keyTyped compares
      the typed character with (8 and 10). */
  const BACK_SPACE: char := '\U{8}'
  const ENTER: char := '\U{A}'

  /** Key codes of KeyEvent. */
  const VK_SHIFT: int := 16
  const VK_LEFT: int := 37
  const VK_UP: int := 38
  const VK_RIGHT: int := 39
  const VK_DOWN: int := 40

  /** The editor's test for a selection to act on: a start at or after 0 and an end past it. */
  predicate Selected(start: int, end: int)
  {
    start >= 0 && end > start
  }

  /** What keyTyped reads and changes: the document, the caret and the selection. */
  datatype Typing = Typing(cells: seq<Cell>, caret: int, selStart: int, selEnd: int)

  /** A key that inserts itself: Enter, or any character that is not an ISO control. */
  predicate Inserts(c: char)
  {
    c == ENTER || !IsISOControl(c)
  }

  /** The selection step of Backspace, Enter and a printable key: a selection is deleted,
      the caret goes to where it started and the selection is cleared (-1, -1). Deleting
      throws when the selection runs past the end of the document. */
  function RemoveSelection(t: Typing): (r: Result<Typing>)
    ensures !Selected(t.selStart, t.selEnd) ==> r == Ok(t)
    ensures r.Err? <==> Selected(t.selStart, t.selEnd) && t.selEnd > |t.cells|
  {
    if !Selected(t.selStart, t.selEnd) then Ok(t)
    else if t.selEnd > |t.cells| then Err(IndexOutOfBounds)
    else Ok(Typing(Deleted(t.cells, t.selStart, t.selEnd - t.selStart), t.selStart, -1, -1))
  }

  /** keyTyped: Backspace removes the selection, or else the character before the caret;
      Enter and printable characters replace the selection, if any, by themselves in the
      default font and move the caret past them; other control characters do nothing. */
  function Typed(t: Typing, c: char): Result<Typing>
  {
    if c == BACK_SPACE then
      if Selected(t.selStart, t.selEnd) then RemoveSelection(t)
      else if t.caret > 0 then
        if t.caret > |t.cells| then Err(IndexOutOfBounds)
        else Ok(t.(cells := Deleted(t.cells, t.caret - 1, 1), caret := t.caret - 1))
      else Ok(t)
    else if Inserts(c) then
      match RemoveSelection(t)
      case Err(e) => Err(e)
      case Ok(u) =>
        if u.caret < 0 || u.caret > |u.cells| then Err(IndexOutOfBounds)
        else Ok(u.(cells := Inserted(u.cells, u.caret, TextCells([c], DefaultFont)), caret := u.caret + 1))
    else Ok(t)
  }

  /** A stretch of the document an edit replaces: `removed` entries from `pos` give way to
      `added` new ones. */
  datatype Span = Span(pos: int, removed: int, added: int)

  /** The stretch a typed key replaces: Backspace removes the selection or the character
      before the caret; Enter and printable keys replace the selection, or nothing at the
      caret, by one new character; any other key replaces nothing. */
  function TypedSpan(t: Typing, c: char): Span
  {
    if c == BACK_SPACE then
      if Selected(t.selStart, t.selEnd) then Span(t.selStart, t.selEnd - t.selStart, 0)
      else if t.caret > 0 then Span(t.caret - 1, 1, 0)
      else Span(t.caret, 0, 0)
    else if Inserts(c) then
      if Selected(t.selStart, t.selEnd) then Span(t.selStart, t.selEnd - t.selStart, 1)
      else Span(t.caret, 0, 1)
    else Span(t.caret, 0, 0)
  }

  /** Where an arrow key moves a caret that is inside the document: Left and Right by one
      within [0, |s|]; Up and Down to the same column of the line above or below, clamped
      to that line, or nowhere from the first or last line. Other keys leave it. */
  function CaretMoved(s: string, caret: int, keyCode: int): (c: int)
    requires 0 <= caret <= |s|
    ensures 0 <= c <= |s|
  {
    if keyCode == VK_LEFT && caret > 0 then caret - 1
    else if keyCode == VK_RIGHT && caret < |s| then caret + 1
    else if keyCode == VK_UP || keyCode == VK_DOWN then
      PositionOfLineColumn(s, caret);
      var l := LineOfPosition(s, caret);
      var col := ColumnOfPosition(s, caret);
      if keyCode == VK_UP && l > 0 then PositionAt(s, l - 1, col)
      else if keyCode == VK_DOWN && l < LineCount(s) - 1 then PositionAt(s, l + 1, col)
      else caret
    else caret
  }

  /** findNext: the first occurrence of `needle` after the last match, or else, wrapping
      around, the first occurrence in the whole text. */
  function NextMatch(content: string, needle: string, last: int): Option<int>
    requires needle != []
  {
    var p := IndexOf(content, needle, last + 1);
    if p >= 0 then Some(p)
    else
      var q := IndexOf(content, needle, 0);
      if q >= 0 then Some(q) else None
  }

  /** The font setSelectionFont gives a character in font `f`: the family if one is given,
      the size and the style unless they are -1, and otherwise those of `f`, through the
      Font constructor. */
  function Reassigned(f: Font, name: Option<string>, size: int, style: int): Font
  {
    NewFont(if name.Some? then name.value else f.name,
            if style != -1 then style else f.style,
            if size != -1 then size else f.size)
  }

  /** The font change setSelectionFont applies to each selected character. */
  function ReassignedBy(name: Option<string>, size: int, style: int): Font -> Font
  {
    f => Reassigned(f, name, size, style)
  }

  /** The font change updateSelectedTextStyle applies to each selected character. */
  function UpdatedBy(mask: int, turnOn: bool): Font -> Font
  {
    f => StyleUpdated(f, mask, turnOn)
  }

  // ---------------------------------------------------------------- lemmas

  /** Typing a character and then Backspace restores the document and the caret. */
  lemma {:induction false} TypeThenBackspace(t: Typing, c: char)
    requires Inserts(c) && !Selected(t.selStart, t.selEnd)
    requires 0 <= t.caret <= |t.cells|
    ensures Typed(t, c).Ok?
    ensures Typed(Typed(t, c).value, BACK_SPACE) == Ok(t)
  {
    var u := Typed(t, c).value;
    assert u.cells == Inserted(t.cells, t.caret, TextCells([c], DefaultFont));
    DeleteInserted(t.cells, t.caret, TextCells([c], DefaultFont));
  }

  /** A typed key that completes changes the document only inside its TypedSpan: every
      cell before and after that stretch is kept. */
  lemma {:induction false} TypedWithinSpan(t: Typing, c: char)
    requires 0 <= t.caret <= |t.cells| && Typed(t, c).Ok?
    ensures var s := TypedSpan(t, c);
      Replaced(t.cells, Typed(t, c).value.cells, s.pos, s.removed, s.added)
  {
    var s := TypedSpan(t, c);
    if c == BACK_SPACE || Inserts(c) {
      EditsReplace(t.cells, s.pos, [], s.removed);
      if c != BACK_SPACE {
        var u := RemoveSelection(t).value;
        EditsReplace(u.cells, u.caret, TextCells([c], DefaultFont), 0);
        ReplacedThen(t.cells, u.cells, Typed(t, c).value.cells, s.pos, s.removed, 1);
      }
    } else {
      assert Typed(t, c).value.cells == t.cells;
    }
  }

  /** Backspace never lengthens the document, and it changes it exactly when there is a
      selection or the caret is past the start. */
  lemma {:induction false} BackspaceShrinks(t: Typing)
    requires Typed(t, BACK_SPACE).Ok?
    ensures |Typed(t, BACK_SPACE).value.cells| <= |t.cells|
    ensures Typed(t, BACK_SPACE).value.cells == t.cells <==> !Selected(t.selStart, t.selEnd) && t.caret <= 0
  {
    var u := Typed(t, BACK_SPACE).value;
    if Selected(t.selStart, t.selEnd) || t.caret > 0 {
      assert |u.cells| < |t.cells|;
    }
  }

  /** A typed character replaces the selection, or is put at the caret when there is none:
      the cells before that place stay, the character follows in the default font, then
      the cells after the replaced stretch; the caret ends just after the character and no
      selection is left. The key fails exactly when the selection runs past the end, or,
      without a selection, when the caret is outside the document. */
  lemma {:induction false} TypedReplaces(t: Typing, c: char)
    requires Inserts(c) && c != BACK_SPACE
    ensures Typed(t, c).Err? <==>
      if Selected(t.selStart, t.selEnd) then t.selEnd > |t.cells| else t.caret < 0 || t.caret > |t.cells|
    ensures Typed(t, c).Ok? ==>
      var p := if Selected(t.selStart, t.selEnd) then t.selStart else t.caret;
      var e := if Selected(t.selStart, t.selEnd) then t.selEnd else t.caret;
      var u := Typed(t, c).value;
      0 <= p <= e <= |t.cells| && u.caret == p + 1 && !Selected(u.selStart, u.selEnd) &&
      u.cells == t.cells[..p] + [Cell(c, DefaultFont)] + t.cells[e..]
  {
    if Typed(t, c).Ok? {
      var p := if Selected(t.selStart, t.selEnd) then t.selStart else t.caret;
      var e := if Selected(t.selStart, t.selEnd) then t.selEnd else t.caret;
      var u := RemoveSelection(t).value;
      assert u.cells[..p] == t.cells[..p];
      assert u.cells[p..] == t.cells[e..];
      assert TextCells([c], DefaultFont) == [Cell(c, DefaultFont)];
    }
  }

  /** Control characters other than Backspace and Enter change nothing. */
  lemma {:induction false} ControlIgnored(t: Typing, c: char)
    requires IsISOControl(c) && c != BACK_SPACE && c != ENTER
    ensures Typed(t, c) == Ok(t)
  {
  }

  /** Up and Down move to the neighbouring line at the same column, clamped to that line's
      length, and stay put on the first line (Up) or the last line (Down). */
  lemma {:induction false} VerticalMove(s: string, caret: int, keyCode: int)
    requires 0 <= caret <= |s| && (keyCode == VK_UP || keyCode == VK_DOWN)
    ensures var l: int := LineOfPosition(s, caret);
      var c := CaretMoved(s, caret, keyCode);
      var l' := if keyCode == VK_UP then l - 1 else l + 1;
      if 0 <= l' < LineCount(s) then
        LineOfPosition(s, c) == l' && ColumnOfPosition(s, c) == Min(ColumnOfPosition(s, caret), LineLength(s, l'))
      else c == caret
  {
    PositionOfLineColumn(s, caret);
    PositionLine(s, caret);
    var l: int := LineOfPosition(s, caret);
    var l' := if keyCode == VK_UP then l - 1 else l + 1;
    if 0 <= l' < LineCount(s) {
      PositionAtRoundTrip(s, l', ColumnOfPosition(s, caret));
    }
  }

  /** Up and Down spelled out: the neighbouring line at the caret's column, or no move. */
  lemma {:induction false} VerticalCases(s: string, caret: int)
    requires 0 <= caret <= |s|
    ensures LineStart(s, LineOfPosition(s, caret)) <= caret
    ensures var l := LineOfPosition(s, caret);
      CaretMoved(s, caret, VK_UP) == if l > 0 then PositionAt(s, l - 1, caret - LineStart(s, l)) else caret
    ensures var l := LineOfPosition(s, caret);
      CaretMoved(s, caret, VK_DOWN) == if l < LineCount(s) - 1 then PositionAt(s, l + 1, caret - LineStart(s, l)) else caret
  {
    PositionOfLineColumn(s, caret);
  }

  /** The Up key's arithmetic: from a line after the first, the start of the line above
      (this line's start less that line's length and its newline) plus the column clamped
      to that line. */
  lemma {:induction false} UpArithmetic(s: string, caret: int, line: int, pos: int, prevSize: int)
    requires 0 <= caret <= |s| && line == LineOfPosition(s, caret) && pos == LineStart(s, line)
    requires line > 0 && prevSize == LineLength(s, line - 1)
    ensures CaretMoved(s, caret, VK_UP) == pos - prevSize - 1 + Min(caret - pos, prevSize)
  {
    VerticalCases(s, caret);
    PositionLine(s, caret);
    LineFollows(s, line - 1);
  }

  /** The Down key's arithmetic: from a line before the last, the end of this line plus
      its newline, plus the column clamped to the line below. */
  lemma {:induction false} DownArithmetic(s: string, caret: int, line: int, pos: int, thisSize: int, nextSize: int)
    requires 0 <= caret <= |s| && line == LineOfPosition(s, caret) && pos == LineStart(s, line)
    requires line < LineCount(s) - 1 && thisSize == LineLength(s, line) && nextSize == LineLength(s, line + 1)
    ensures CaretMoved(s, caret, VK_DOWN) == pos + thisSize + 1 + Min(caret - pos, nextSize)
  {
    VerticalCases(s, caret);
    LineFollows(s, line);
  }

  /** Down and then Up come back to the same place when the line below is long enough to
      hold the caret's column. */
  lemma {:induction false} DownThenUp(s: string, caret: int)
    requires 0 <= caret <= |s|
    requires LineOfPosition(s, caret) < LineCount(s) - 1
    requires ColumnOfPosition(s, caret) <= LineLength(s, LineOfPosition(s, caret) + 1)
    ensures CaretMoved(s, CaretMoved(s, caret, VK_DOWN), VK_UP) == caret
  {
    var d := CaretMoved(s, caret, VK_DOWN);
    VerticalMove(s, caret, VK_DOWN);
    VerticalMove(s, d, VK_UP);
    PositionOfLineColumn(s, caret);
    PositionLine(s, caret);
  }

  /** Left and Right keep a caret inside the document and undo each other. */
  lemma {:induction false} LeftRightInverse(s: string, caret: int)
    requires 0 < caret <= |s|
    ensures CaretMoved(s, CaretMoved(s, caret, VK_LEFT), VK_RIGHT) == caret
    ensures CaretMoved(s, caret, VK_LEFT) == caret - 1
  {
  }

  /** A match find-next reports is an occurrence of the needle. It is the first occurrence
      after the last match when there is one; otherwise it is the first occurrence of all.
      There is no match exactly when the needle occurs nowhere. */
  lemma {:induction false} NextMatchFinds(content: string, needle: string, last: int)
    requires needle != []
    ensures var r := NextMatch(content, needle, last);
      (r.None? <==> forall k :: !OccursAt(content, needle, k)) &&
      (r.Some? ==> OccursAt(content, needle, r.value)) &&
      (r.Some? && r.value > last ==> forall k :: last < k < r.value ==> !OccursAt(content, needle, k)) &&
      (r.Some? && r.value <= last ==>
        (forall k :: k > last ==> !OccursAt(content, needle, k)) &&
        (forall k :: k < r.value ==> !OccursAt(content, needle, k)))
  {
    var p := IndexOf(content, needle, last + 1);
    if p < 0 {
      var q := IndexOf(content, needle, 0);
      forall k
        ensures !OccursAt(content, needle, k) || (q >= 0 && k >= q)
      {
        if k < 0 {
          assert !OccursAt(content, needle, k);
        }
      }
    }
  }

  /** setSelectionFont keeps every attribute that is not given and sets every one that is
      (a style through the Font constructor, so outside 0..3 it becomes PLAIN). */
  lemma {:induction false} ReassignedAttributes(f: Font, name: Option<string>, size: int, style: int)
    requires 0 <= f.style <= 3
    ensures Reassigned(f, name, size, style).name == (if name.Some? then name.value else f.name)
    ensures Reassigned(f, name, size, style).size == (if size != -1 then size else f.size)
    ensures style == -1 ==> Reassigned(f, name, size, style).style == f.style
    ensures 0 <= style <= 3 ==> Reassigned(f, name, size, style).style == style
    ensures name.None? && size == -1 && style == -1 ==> Reassigned(f, name, size, style) == f
  {
  }

  /** The style updateSelectedTextStyle gives, for a style in 0..3 and the BOLD or ITALIC
      mask, is Java's `style | mask` when setting and `style & ~mask` when clearing. */
  lemma {:induction false} StyleUpdatedIsBitwise(f: Font, mask: int, turnOn: bool)
    requires 0 <= f.style <= 3 && (mask == BOLD || mask == ITALIC)
    ensures turnOn ==> StyleUpdated(f, mask, turnOn).style == ((f.style as bv8) | (mask as bv8)) as int
    ensures !turnOn ==> StyleUpdated(f, mask, turnOn).style == ((f.style as bv8) & !(mask as bv8)) as int
    ensures StyleUpdated(f, mask, turnOn).name == f.name && StyleUpdated(f, mask, turnOn).size == f.size
  {
    if f.style == 0 {
    } else if f.style == 1 {
    } else if f.style == 2 {
    } else {
      assert f.style == 3;
    }
  }

  /** Setting a style bit twice is setting it once, and clearing it after setting it is
      clearing it. */
  lemma {:induction false} StyleToggle(f: Font, mask: int)
    requires mask == BOLD || mask == ITALIC
    ensures StyleUpdated(StyleUpdated(f, mask, true), mask, true) == StyleUpdated(f, mask, true)
    ensures StyleUpdated(StyleUpdated(f, mask, true), mask, false) == StyleUpdated(f, mask, false)
  {
  }

  /** Changing fonts never changes the text. */
  lemma {:induction false} RestyleKeepsText(cells: seq<Cell>, s: int, e: int, g: Font -> Font)
    ensures CharsOf(Restyled(cells, s, e, g)) == CharsOf(cells)
  {
    RestyledCells(cells, s, e, g);
  }
}
