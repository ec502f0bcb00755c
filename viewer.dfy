/** The selection and caret rules of the viewer component.

    A mouse event is given by the line it falls on (`clickedLine`, the scroll offset and
    the y coordinate divided by the line height) and by `hit`, the column at which the
    pixel scan over the line's character widths stops; `getPositionFromCoordinates` turns
    the pair into a document position. A double click (decided from the wall clock in the
    editor) is an input flag, and Character.isLetterOrDigit is the parameter `isWord`. */
module ViewerModel {
  import opened Outcomes
  import opened Lines
  import opened TextModel

  /** The position a click at (`clickedLine`, `hit`) lands on: the end of the document
      below the last line, else column `hit` of that line, clamped to the line. */
  function ClickPosition(s: string, clickedLine: int, hit: nat): (p: nat)
    ensures p <= |s|
    ensures clickedLine >= LineCount(s) ==> p == |s|
  {
    if clickedLine >= LineCount(s) then |s| else PositionAt(s, clickedLine, hit)
  }

  /** A click on an existing line lands on that line (line 0 for a line above the first),
      at column `hit` clamped to the line's length. */
  lemma {:induction false} ClickOnLine(s: string, clickedLine: int, hit: nat)
    requires clickedLine < LineCount(s)
    ensures var l := if clickedLine < 0 then 0 else clickedLine;
      LineOfPosition(s, ClickPosition(s, clickedLine, hit)) == l &&
      ColumnOfPosition(s, ClickPosition(s, clickedLine, hit)) == Min(hit, LineLength(s, l))
  {
    var l := if clickedLine < 0 then 0 else clickedLine;
    assert PositionAt(s, clickedLine, hit) == PositionAt(s, l, hit);
    PositionAtRoundTrip(s, l, hit);
  }

  /** [start, end) is the word around `pos`: it holds `pos` (possibly at its end), all its
      characters are word characters, and it extends as far as it can either way. */
  predicate IsWordAround(s: string, pos: int, start: int, end: int, isWord: char -> bool)
  {
    0 <= start <= pos <= end <= |s| &&
    (forall k :: start <= k < end ==> isWord(s[k])) &&
    (start == 0 || !isWord(s[start - 1])) &&
    (end == |s| || !isWord(s[end]))
  }

  predicate WordChar(s: string, k: int, isWord: char -> bool)
  {
    0 <= k < |s| && isWord(s[k])
  }

  /** There is only one word around a position. */
  lemma {:induction false} WordAroundUnique(s: string, pos: int, a: int, b: int, c: int, d: int, isWord: char -> bool)
    requires IsWordAround(s, pos, a, b, isWord) && IsWordAround(s, pos, c, d, isWord)
    ensures a == c && b == d
  {
    assert a < c ==> WordChar(s, c - 1, isWord);
    assert c < a ==> WordChar(s, a - 1, isWord);
    assert b < d ==> WordChar(s, b, isWord);
    assert d < b ==> WordChar(s, d, isWord);
  }

  /** The word scan of selectWordAt (and of the editor's double click): `start` moves left
      and `end` moves right over word characters, reading each through charAt. The scan
      throws exactly when `pos` is outside [0, length]. */
  method WordAt(text: Text, pos: int, isWord: char -> bool) returns (r: Outcome, start: int, end: int)
    requires text.Valid()
    ensures r.Fail? <==> pos < 0 || pos > text.length
    ensures r.Pass? ==> IsWordAround(old(text.Chars()), pos, start, end, isWord)
  {
    ghost var s := text.Chars();
    start := pos;
    end := pos;
    while start > 0
      invariant start <= pos
      invariant start == pos || 0 <= start < pos <= text.length
      invariant forall k :: start <= k < pos ==> isWord(s[k])
    {
      var c := text.CharAt(start - 1);
      if c.Err? {
        return Fail(c.error), start, end;
      }
      if !isWord(c.value) {
        break;
      }
      start := start - 1;
    }
    while end < text.length
      invariant pos <= end
      invariant end == pos || 0 <= pos < end <= text.length
      invariant forall k :: pos <= k < end ==> isWord(s[k])
    {
      var c := text.CharAt(end);
      if c.Err? {
        return Fail(c.error), start, end;
      }
      if !isWord(c.value) {
        break;
      }
      end := end + 1;
    }
    return Pass, start, end;
  }

  /** The pixel scan over a line's characters, with the font metrics abstracted away: the
      scan stops at column `hit` or at the end of the line. */
  method ScanColumn(line: seq<StyledChar>, hit: nat) returns (charOffset: int)
    ensures charOffset == Min(hit, |line|)
  {
    charOffset := 0;
    while charOffset < |line|
      invariant charOffset <= |line| && charOffset <= hit
    {
      if charOffset >= hit {
        break;
      }
      charOffset := charOffset + 1;
    }
  }

  /** The loop of the click handlers that adds up, for each line above line `n`, its length
      plus one for its newline. */
  method AddUpLines(text: Text, n: int) returns (pos: int)
    requires text.Valid()
    ensures pos == LinesBefore(old(text.Chars()), n)
  {
    ghost var s := text.Chars();
    pos := 0;
    var i := 0;
    while i < n
      invariant 0 <= i && (i <= n || i == 0)
      invariant pos == LinesBefore(s, i)
    {
      var l := text.GetLine(i);
      assert pos + |l| + 1 == LinesBefore(s, i + 1) by {
        TextKept(text);
        assert |l| == LineLength(s, i);
      }
      pos := pos + |l| + 1;
      i := i + 1;
    }
    TextKept(text);
  }

  class Viewer {
    var text: Text
    var caretPosition: int
    var selectionStart: int
    var selectionEnd: int
    var isDragging: bool
    var dragStartPos: int

    /** A viewer on `text`, caret at 0, no selection, no drag. */
    constructor (text: Text)
      ensures this.text == text && caretPosition == 0
      ensures selectionStart == -1 && selectionEnd == -1
      ensures !isDragging && dragStartPos == -1
    {
      this.text := text;
      caretPosition := 0;
      selectionStart := -1;
      selectionEnd := -1;
      isDragging := false;
      dragStartPos := -1;
    }

    /** getPositionFromCoordinates: the end of the document below the last line; else the
        start of the clicked line, found by adding up the lengths of the lines above it
        plus their newlines, plus the column the pixel scan stops at, capped by the
        length. */
    method PositionFromCoordinates(clickedLine: int, hit: nat) returns (pos: int)
      requires text.Valid()
      ensures pos == ClickPosition(text.Chars(), clickedLine, hit)
    {
      ghost var s := text.Chars();
      assert |s| == text.length;
      var count := text.GetLineCount();
      if clickedLine >= count {
        return text.length;
      }
      var line := text.GetLine(clickedLine);
      assert |line| == LineLength(s, clickedLine);
      var charOffset := ScanColumn(line, hit);
      pos := AddUpLines(text, clickedLine);
      LinesBeforeStart(s, clickedLine);
      assert pos + charOffset == PositionAt(s, clickedLine, hit);
      pos := pos + charOffset;
      pos := Min(pos, text.length);
    }

    /** selectWordAt: the selection becomes the word around `pos`; when the scan throws
        the selection is left as it was. */
    method SelectWordAt(pos: int, isWord: char -> bool) returns (r: Outcome)
      requires text.Valid()
      modifies this`selectionStart, this`selectionEnd
      ensures r.Fail? <==> pos < 0 || pos > text.length
      ensures r.Pass? ==> IsWordAround(text.Chars(), pos, selectionStart, selectionEnd, isWord)
      ensures r.Fail? ==> selectionStart == old(selectionStart) && selectionEnd == old(selectionEnd)
    {
      var start, end;
      r, start, end := WordAt(text, pos, isWord);
      if r.Pass? {
        selectionStart, selectionEnd := start, end;
      }
    }

    /** handleMousePress: the caret goes to the clicked position; a double click selects
        the word there, a single click collapses the selection onto it and starts a drag
        from it. */
    method HandleMousePress(clickedLine: int, hit: nat, isDoubleClick: bool, isWord: char -> bool)
      requires text.Valid()
      modifies this`caretPosition, this`selectionStart, this`selectionEnd, this`isDragging, this`dragStartPos
      ensures caretPosition == ClickPosition(text.Chars(), clickedLine, hit)
      ensures isDoubleClick ==> IsWordAround(text.Chars(), caretPosition, selectionStart, selectionEnd, isWord)
      ensures isDoubleClick ==> isDragging == old(isDragging) && dragStartPos == old(dragStartPos)
      ensures !isDoubleClick ==> selectionStart == caretPosition && selectionEnd == caretPosition
      ensures !isDoubleClick ==> dragStartPos == caretPosition && isDragging
    {
      var pos := PositionFromCoordinates(clickedLine, hit);
      assert pos <= text.length;
      caretPosition := pos;
      if isDoubleClick {
        var r := SelectWordAt(pos, isWord);
        assert r.Pass?;
      } else {
        selectionStart := pos;
        selectionEnd := pos;
        dragStartPos := pos;
        isDragging := true;
      }
      TextKept(text);
    }

    /** handleMouseDrag: outside a drag nothing happens; during one the caret follows the
        mouse and the selection spans from the drag start to it, whichever way round. */
    method HandleMouseDrag(clickedLine: int, hit: nat)
      requires text.Valid()
      modifies this`caretPosition, this`selectionStart, this`selectionEnd
      ensures !isDragging ==>
        caretPosition == old(caretPosition) && selectionStart == old(selectionStart) && selectionEnd == old(selectionEnd)
      ensures isDragging ==> caretPosition == ClickPosition(text.Chars(), clickedLine, hit)
      ensures isDragging ==> selectionStart <= selectionEnd
      ensures isDragging ==> selectionStart == Min(caretPosition, dragStartPos)
      ensures isDragging ==>
        (selectionStart == caretPosition && selectionEnd == dragStartPos) || (selectionStart == dragStartPos && selectionEnd == caretPosition)
    {
      if !isDragging {
        return;
      }
      var pos := PositionFromCoordinates(clickedLine, hit);
      caretPosition := pos;
      if pos < dragStartPos {
        selectionStart := pos;
        selectionEnd := dragStartPos;
      } else {
        selectionStart := dragStartPos;
        selectionEnd := pos;
      }
      TextKept(text);
    }

    /** mouseReleased: the drag ends. */
    method HandleMouseRelease()
      modifies this`isDragging
      ensures !isDragging
    {
      isDragging := false;
    }

    method SetCaretPosition(pos: int)
      modifies this`caretPosition
      ensures caretPosition == pos
    {
      caretPosition := pos;
    }

    method SetText(newText: Text)
      modifies this`text
      ensures text == newText
    {
      text := newText;
    }

    method SetSelection(start: int, end: int)
      modifies this`selectionStart, this`selectionEnd
      ensures selectionStart == start && selectionEnd == end
    {
      selectionStart := start;
      selectionEnd := end;
    }
  }
}
