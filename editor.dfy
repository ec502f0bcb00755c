/** The editor: the state the Editor class keeps in static fields (caret, selection anchor,
    Shift state, last search), the document and the viewer it works on, and its key,
    mouse, menu and find handlers. Each handler is proved against the editing rules of
    EditRules, the viewer's click rules, or the Text operations it calls.

    A handler that lets IndexOutOfBoundsException escape returns `Fail`; what it changed
    before the throw stays changed, as in the editor. Dialogs, repainting and scrolling
    are not modelled; a handler that shows a message returns which one instead. */
module EditorModel {
  import opened Outcomes
  import opened Styles
  import opened JavaLib
  import opened Lines
  import opened Document
  import opened Codec
  import opened TextModel
  import opened ViewerModel
  import opened EditRules

  /** The line-finding loop of the Up and Down keys: lines are skipped from the top, each
      with its newline, while the caret lies past the end of the line. */
  method FindCaretLine(text: Text, caret: int) returns (line: int, pos: int)
    requires text.Valid() && 0 <= caret <= text.length
    ensures line == LineOfPosition(old(text.Chars()), caret)
    ensures pos == LineStart(old(text.Chars()), line)
  {
    ghost var s := text.Chars();
    assert |s| == text.length;
    line := 0;
    pos := 0;
    var l := text.GetLine(line);
    assert |l| == LineLength(s, line) by {
      TextKept(text);
    }
    while pos + |l| + 1 <= caret
      invariant 0 <= line <= NewlineCount(s)
      invariant pos == LineStart(s, line) && pos <= caret
      invariant |l| == LineLength(s, line)
      decreases caret - pos
    {
      assert pos + |l| + 1 == LineStart(s, line + 1) && line < NewlineCount(s) by {
        if line == NewlineCount(s) {
          LastLineEnd(s);
        }
        LineFollows(s, line);
      }
      pos := pos + |l| + 1;
      line := line + 1;
      l := text.GetLine(line);
      assert |l| == LineLength(s, line) by {
        TextKept(text);
      }
    }
    OnLine(s, line, caret);
    TextKept(text);
  }

  /** `getLine(i).size()`. */
  method LineSize(text: Text, i: int) returns (n: int)
    requires text.Valid()
    ensures n == LineLength(old(text.Chars()), i)
  {
    var line := text.GetLine(i);
    n := |line|;
  }

  /** The Up key: to the same column of the line above, clamped to its length; nowhere
      from the first line. */
  method CaretUp(text: Text, caret: int) returns (c: int)
    requires text.Valid() && 0 <= caret <= text.length
    ensures c == CaretMoved(old(text.Chars()), caret, VK_UP)
  {
    ghost var s := text.Chars();
    assert |s| == text.length;
    var line, pos := FindCaretLine(text, caret);
    TextKept(text);
    c := caret;
    if line > 0 {
      c := UpFromLine(text, caret, line, pos);
    } else {
      VerticalCases(s, caret);
    }
  }

  /** The Up key once the caret's line is known and is not the first one: the start of the
      line above plus the caret's column, clamped to that line's length. */
  method UpFromLine(text: Text, caret: int, line: int, pos: int) returns (c: int)
    requires text.Valid() && 0 <= caret <= text.length
    requires line == LineOfPosition(text.Chars(), caret) && pos == LineStart(text.Chars(), line)
    requires line > 0
    ensures c == CaretMoved(old(text.Chars()), caret, VK_UP)
  {
    ghost var s := text.Chars();
    var offset := caret - pos;
    var prevSize := LineSize(text, line - 1);
    UpArithmetic(s, caret, line, pos, prevSize);
    c := pos - prevSize - 1 + Min(offset, prevSize);
  }

  /** The Down key: to the same column of the line below, clamped to its length; nowhere
      from the last line. */
  method CaretDown(text: Text, caret: int) returns (c: int)
    requires text.Valid() && 0 <= caret <= text.length
    ensures c == CaretMoved(old(text.Chars()), caret, VK_DOWN)
  {
    ghost var s := text.Chars();
    assert |s| == text.length;
    var line, pos := FindCaretLine(text, caret);
    var count := text.GetLineCount();
    TextKept(text);
    c := caret;
    if line < count - 1 {
      c := DownFromLine(text, caret, line, pos);
    } else {
      VerticalCases(s, caret);
    }
  }

  /** The Down key once the caret's line is known and is not the last one: the start of the
      line below plus the caret's column, clamped to that line's length. */
  method DownFromLine(text: Text, caret: int, line: int, pos: int) returns (c: int)
    requires text.Valid() && 0 <= caret <= text.length
    requires line == LineOfPosition(text.Chars(), caret) && pos == LineStart(text.Chars(), line)
    requires line < LineCount(text.Chars()) - 1
    ensures c == CaretMoved(old(text.Chars()), caret, VK_DOWN)
  {
    ghost var s := text.Chars();
    var offset := caret - pos;
    var nextSize := LineSize(text, line + 1);
    var thisSize := LineSize(text, line);
    assert thisSize == LineLength(s, line) by {
      TextKept(text);
    }
    DownArithmetic(s, caret, line, pos, thisSize, nextSize);
    c := pos + thisSize + 1 + Min(offset, nextSize);
  }

  /** The caret arithmetic of the editor's own mouse listener. Unlike the viewer it does
      not test for a click below the last line: there the line is empty, the sum runs past
      the end of the document, and the cap by the length brings the caret back to the end,
      so both listeners agree. */
  method ClickedCaret(text: Text, clickedLine: int, hit: nat) returns (caret: int)
    requires text.Valid()
    ensures caret == ClickPosition(old(text.Chars()), clickedLine, hit)
  {
    ghost var s := text.Chars();
    assert |s| == text.length;
    var line := text.GetLine(clickedLine);
    TextKept(text);
    assert |line| == LineLength(s, clickedLine);
    var charOffset := ScanColumn(line, hit);
    var newCaret := AddUpLines(text, clickedLine);
    LinesBeforeStart(s, clickedLine);
    if clickedLine > NewlineCount(s) {
      BeyondLastLine(s, clickedLine);
    }
    newCaret := newCaret + charOffset;
    caret := Min(newCaret, text.length);
  }

  /** The loops of setSelectionFont and updateSelectedTextStyle: the font of each
      StyledChar from `s` up to `e` is replaced by `g` of it, in place, fetching each with
      getStyledChar. Reaching the end of the document before `e` throws, after every
      position up to the end has been changed. */
  method RestyleRange(text: Text, s: int, e: int, g: Font -> Font) returns (r: Outcome)
    requires text.Valid() && 0 <= s
    modifies text.characters
    ensures r.Fail? <==> s < e && e > text.length
    ensures text.Cells() == Restyled(old(text.Cells()), s, e, g)
  {
    ghost var before := text.Cells();
    RestyledEmpty(before, s, s, g);
    var i := s;
    while i < e
      invariant s <= i && (i == s || i <= e)
      invariant i == s || i <= text.length
      invariant text.Cells() == Restyled(before, s, i, g)
    {
      var sc := text.GetStyledChar(i);
      if sc.Err? {
        RestyledPastEnd(before, s, i, e, g);
        return Fail(sc.error);
      }
      ghost var cells := text.Cells();
      sc.value.font := g(sc.value.font);
      forall k | 0 <= k < |text.characters| && k != i
        ensures text.Cells()[k] == cells[k]
      {
        assert Apart(text.characters, k, i);
      }
      assert text.Cells() == cells[i := Cell(cells[i].character, g(cells[i].font))];
      RestyledStep(before, s, i, g);
      i := i + 1;
    }
    return Pass;
  }

  /** Which message findNext shows: none, the wrap-around notice, or "Text not found". */
  datatype FindNotice = Silent | WrappedToTop | NotFound

  class Editor {
    var caretPosition: int
    var selectionAnchor: int
    var shiftPressed: bool
    var lastSearchText: string
    var lastSearchPosition: int
    var text: Text
    var viewer: Viewer
    /** Text's static clipboard, shared by every document. */
    var clipboard: Clipboard

    /** The viewer shows the editor's document, the caret is inside it, and a selection
        the handlers act on starts inside it. (Its end may lie past the end: a Shift
        selection keeps a stale anchor, and a drag a stale start, after the text shrinks.) */
    ghost predicate Valid()
      reads this, viewer, text
    {
      viewer.text == text && text.Valid() &&
      0 <= caretPosition <= text.length &&
      (Selected(viewer.selectionStart, viewer.selectionEnd) ==> viewer.selectionStart <= text.length)
    }

    /** What keyTyped reads and changes. */
    ghost function State(): Typing
      reads this, viewer, text, text.characters
    {
      Typing(text.Cells(), caretPosition, viewer.selectionStart, viewer.selectionEnd)
    }

    /** main, given the lines of the file named on the command line: the document, the
        viewer on it, an empty clipboard, the caret at 0 and no anchor or search. */
    constructor (lines: seq<string>)
      ensures Valid() && fresh(text) && fresh(viewer)
      ensures text.Cells() == Decode(lines)
      ensures caretPosition == 0 && selectionAnchor == -1 && !shiftPressed
      ensures lastSearchText == "" && lastSearchPosition == 0
      ensures clipboard.items == []
      ensures viewer.caretPosition == 0 && viewer.selectionStart == -1 && viewer.selectionEnd == -1
    {
      var t := new Text(lines);
      var v := new Viewer(t);
      var c := new Clipboard();
      caretPosition := 0;
      selectionAnchor := -1;
      shiftPressed := false;
      lastSearchText := "";
      lastSearchPosition := 0;
      text := t;
      viewer := v;
      clipboard := c;
    }

    /** keyTyped: the document, caret and selection become what Typed gives for the key;
        a throw leaves them as they were. The viewer's caret follows. */
    method KeyTyped(keyChar: char) returns (r: Outcome)
      requires Valid()
      modifies this`caretPosition, text`characters, text`length
      modifies viewer`selectionStart, viewer`selectionEnd, viewer`caretPosition
      ensures Valid()
      ensures Typed(old(State()), keyChar) == if r.Pass? then Ok(State()) else Err(r.error)
      ensures r.Fail? ==>
        text.characters == old(text.characters) && caretPosition == old(caretPosition) &&
        viewer.selectionStart == old(viewer.selectionStart) && viewer.selectionEnd == old(viewer.selectionEnd) &&
        viewer.caretPosition == old(viewer.caretPosition)
      ensures r.Pass? ==> viewer.caretPosition == caretPosition
      ensures r.Pass? ==> var s := TypedSpan(old(State()), keyChar);
        Replaced(old(text.characters), text.characters, s.pos, s.removed, s.added)
      ensures r.Pass? && keyChar != BACK_SPACE && Inserts(keyChar) ==>
        1 <= caretPosition && fresh(text.characters[caretPosition - 1])
    {
      if keyChar == BACK_SPACE {
        r := Backspace();
      } else if keyChar == ENTER || !IsISOControl(keyChar) {
        r := TypeCharacter(keyChar);
      } else {
        r := Pass;
        assert Replaced(text.characters, text.characters, caretPosition, 0, 0);
      }
      if r.Pass? {
        viewer.SetCaretPosition(caretPosition);
      }
    }

    /** The Backspace branch of keyTyped. */
    method Backspace() returns (r: Outcome)
      requires Valid()
      modifies this`caretPosition, text`characters, text`length, viewer`selectionStart, viewer`selectionEnd
      ensures Valid()
      ensures Typed(old(State()), BACK_SPACE) == if r.Pass? then Ok(State()) else Err(r.error)
      ensures r.Fail? ==>
        text.characters == old(text.characters) && caretPosition == old(caretPosition) &&
        viewer.selectionStart == old(viewer.selectionStart) && viewer.selectionEnd == old(viewer.selectionEnd)
      ensures r.Pass? ==> var s := TypedSpan(old(State()), BACK_SPACE);
        Replaced(old(text.characters), text.characters, s.pos, s.removed, s.added)
    {
      var start, end := viewer.selectionStart, viewer.selectionEnd;
      if start >= 0 && end > start {
        r := text.Delete(start, end - start);
        if r.Fail? {
          return;
        }
        caretPosition := start;
        viewer.SetSelection(-1, -1);
      } else if caretPosition > 0 {
        r := text.Delete(caretPosition - 1, 1);
        assert r.Pass?;
        caretPosition := caretPosition - 1;
      } else {
        r := Pass;
        assert Replaced(text.characters, text.characters, caretPosition, 0, 0);
      }
    }

    /** The Enter and printable-character branches of keyTyped, which are the same code:
        the selection, if any, is deleted, then the character is inserted at the caret in
        the default font and the caret moves past it. */
    method TypeCharacter(c: char) returns (r: Outcome)
      requires Valid() && Inserts(c) && c != BACK_SPACE
      modifies this`caretPosition, text`characters, text`length, viewer`selectionStart, viewer`selectionEnd
      ensures Valid()
      ensures Typed(old(State()), c) == if r.Pass? then Ok(State()) else Err(r.error)
      ensures r.Fail? ==>
        text.characters == old(text.characters) && caretPosition == old(caretPosition) &&
        viewer.selectionStart == old(viewer.selectionStart) && viewer.selectionEnd == old(viewer.selectionEnd)
      ensures r.Pass? ==> var s := TypedSpan(old(State()), c);
        Replaced(old(text.characters), text.characters, s.pos, s.removed, s.added)
      ensures r.Pass? ==> 1 <= caretPosition && fresh(text.characters[caretPosition - 1])
    {
      var start, end := viewer.selectionStart, viewer.selectionEnd;
      ghost var removed := 0;
      if start >= 0 && end > start {
        r := text.Delete(start, end - start);
        if r.Fail? {
          return;
        }
        removed := end - start;
        caretPosition := start;
        viewer.SetSelection(-1, -1);
      } else {
        assert Replaced(text.characters, text.characters, caretPosition, 0, 0);
      }
      ghost var kept := text.characters;
      r := text.Insert(caretPosition, [c], DefaultFont);
      assert r.Pass?;
      ReplacedThen(old(text.characters), kept, text.characters, caretPosition, removed, 1);
      caretPosition := caretPosition + 1;
    }

    /** keyPressed. Shift sets the anchor at the caret, if none is set, and does nothing
        else. Any other key moves the caret as CaretMoved says; then with Shift held the
        selection spans from the anchor (the old caret when none was set) to the caret,
        and without it the anchor is dropped. The viewer's caret follows. */
    method KeyPressed(keyCode: int)
      requires Valid()
      modifies this`caretPosition, this`shiftPressed, this`selectionAnchor
      modifies viewer`selectionStart, viewer`selectionEnd, viewer`caretPosition
      ensures Valid() && shiftPressed == (old(shiftPressed) || keyCode == VK_SHIFT)
      ensures keyCode == VK_SHIFT ==>
        caretPosition == old(caretPosition) && viewer.caretPosition == old(viewer.caretPosition) &&
        viewer.selectionStart == old(viewer.selectionStart) && viewer.selectionEnd == old(viewer.selectionEnd)
      ensures keyCode == VK_SHIFT || shiftPressed ==>
        selectionAnchor == if old(selectionAnchor) == -1 then old(caretPosition) else old(selectionAnchor)
      ensures keyCode != VK_SHIFT ==>
        caretPosition == CaretMoved(old(text.Chars()), old(caretPosition), keyCode) && viewer.caretPosition == caretPosition
      ensures keyCode != VK_SHIFT && shiftPressed ==>
        viewer.selectionStart == Min(selectionAnchor, caretPosition) &&
        viewer.selectionEnd == Max(selectionAnchor, caretPosition)
      ensures keyCode != VK_SHIFT && !shiftPressed ==>
        selectionAnchor == -1 &&
        viewer.selectionStart == old(viewer.selectionStart) && viewer.selectionEnd == old(viewer.selectionEnd)
    {
      var oldCaretPosition := caretPosition;
      if keyCode == VK_SHIFT {
        shiftPressed := true;
        if selectionAnchor == -1 {
          selectionAnchor := caretPosition;
        }
        return;
      }
      MoveCaret(keyCode);
      SelectFromAnchor(oldCaretPosition);
      viewer.SetCaretPosition(caretPosition);
    }

    /** The arrow keys of keyPressed. */
    method MoveCaret(keyCode: int)
      requires Valid()
      modifies this`caretPosition
      ensures Valid()
      ensures caretPosition == CaretMoved(old(text.Chars()), old(caretPosition), keyCode)
    {
      if keyCode == VK_LEFT && caretPosition > 0 {
        caretPosition := caretPosition - 1;
      } else if keyCode == VK_RIGHT && caretPosition < text.length {
        caretPosition := caretPosition + 1;
      } else if keyCode == VK_UP {
        caretPosition := CaretUp(text, caretPosition);
      } else if keyCode == VK_DOWN {
        caretPosition := CaretDown(text, caretPosition);
      }
    }

    /** The selection step of keyPressed after a key other than Shift moved the caret
        from `oldCaret`. */
    method SelectFromAnchor(oldCaret: int)
      requires Valid()
      modifies this`selectionAnchor, viewer`selectionStart, viewer`selectionEnd
      ensures Valid()
      ensures shiftPressed ==>
        selectionAnchor == (if old(selectionAnchor) == -1 then oldCaret else old(selectionAnchor)) &&
        viewer.selectionStart == Min(selectionAnchor, caretPosition) &&
        viewer.selectionEnd == Max(selectionAnchor, caretPosition)
      ensures !shiftPressed ==>
        selectionAnchor == -1 &&
        viewer.selectionStart == old(viewer.selectionStart) && viewer.selectionEnd == old(viewer.selectionEnd)
    {
      if shiftPressed {
        if selectionAnchor == -1 {
          selectionAnchor := oldCaret;
        }
        viewer.SetSelection(Min(selectionAnchor, caretPosition), Max(selectionAnchor, caretPosition));
      } else {
        selectionAnchor := -1;
      }
    }

    /** keyReleased: releasing Shift clears the Shift state; the anchor stays. */
    method KeyReleased(keyCode: int)
      modifies this`shiftPressed
      ensures shiftPressed == (old(shiftPressed) && keyCode != VK_SHIFT)
    {
      if keyCode == VK_SHIFT {
        shiftPressed := false;
      }
    }

    /** A mouse press, as the two listeners handle it in the order they were registered:
        first the viewer's (caret, selection and drag state), then the editor's, which
        puts its own caret at the same place and replaces the selection by the word
        there on a double click, or by none on a single click. */
    method MousePressed(clickedLine: int, hit: nat, isDoubleClick: bool, isWord: char -> bool)
      requires Valid()
      modifies this`caretPosition
      modifies viewer`caretPosition, viewer`selectionStart, viewer`selectionEnd, viewer`isDragging, viewer`dragStartPos
      ensures Valid()
      ensures caretPosition == ClickPosition(old(text.Chars()), clickedLine, hit)
      ensures viewer.caretPosition == caretPosition
      ensures isDoubleClick ==> IsWordAround(old(text.Chars()), caretPosition, viewer.selectionStart, viewer.selectionEnd, isWord)
      ensures isDoubleClick ==> viewer.isDragging == old(viewer.isDragging) && viewer.dragStartPos == old(viewer.dragStartPos)
      ensures !isDoubleClick ==> viewer.selectionStart == -1 && viewer.selectionEnd == -1
      ensures !isDoubleClick ==> viewer.isDragging && viewer.dragStartPos == caretPosition
    {
      viewer.HandleMousePress(clickedLine, hit, isDoubleClick, isWord);
      TextKept(text);
      ClickSelect(clickedLine, hit, isDoubleClick, isWord);
      viewer.SetCaretPosition(caretPosition);
    }

    /** The editor's own mouse listener: the caret goes to the clicked position, and the
        selection becomes the word there on a double click, none on a single click. */
    method ClickSelect(clickedLine: int, hit: nat, isDoubleClick: bool, isWord: char -> bool)
      requires Valid()
      modifies this`caretPosition, viewer`selectionStart, viewer`selectionEnd
      ensures Valid()
      ensures caretPosition == ClickPosition(old(text.Chars()), clickedLine, hit)
      ensures isDoubleClick ==> IsWordAround(old(text.Chars()), caretPosition, viewer.selectionStart, viewer.selectionEnd, isWord)
      ensures !isDoubleClick ==> viewer.selectionStart == -1 && viewer.selectionEnd == -1
    {
      var newCaret := ClickedCaret(text, clickedLine, hit);
      if isDoubleClick {
        var r, start, end := WordAt(text, newCaret, isWord);
        assert r.Pass?;
        viewer.SetSelection(start, end);
      } else {
        viewer.SetSelection(-1, -1);
      }
      caretPosition := newCaret;
    }

    /** A drag, which only the viewer listens to; the editor's caret stays. Outside a drag
        nothing changes; during one the viewer's caret follows the mouse and the selection
        runs from the smaller to the larger of it and the drag start. */
    method MouseDragged(clickedLine: int, hit: nat)
      requires Valid()
      modifies viewer`caretPosition, viewer`selectionStart, viewer`selectionEnd
      ensures Valid()
      ensures viewer.isDragging ==> viewer.caretPosition == ClickPosition(text.Chars(), clickedLine, hit)
      ensures viewer.isDragging ==> viewer.selectionStart == Min(viewer.caretPosition, viewer.dragStartPos)
      ensures viewer.isDragging ==> viewer.selectionEnd == Max(viewer.caretPosition, viewer.dragStartPos)
      ensures !viewer.isDragging ==>
        viewer.caretPosition == old(viewer.caretPosition) &&
        viewer.selectionStart == old(viewer.selectionStart) && viewer.selectionEnd == old(viewer.selectionEnd)
    {
      viewer.HandleMouseDrag(clickedLine, hit);
      TextKept(text);
    }

    /** openFile, given the lines of the chosen file: a new document, shown by the viewer,
        with the caret at 0 and no selection. The anchor and the last search stay. */
    method OpenFile(lines: seq<string>)
      requires Valid()
      modifies this`text, this`caretPosition, viewer`text, viewer`caretPosition, viewer`selectionStart, viewer`selectionEnd
      ensures Valid() && fresh(text)
      ensures forall k :: 0 <= k < |text.characters| ==> fresh(text.characters[k])
      ensures text.Cells() == Decode(lines)
      ensures caretPosition == 0 && viewer.caretPosition == 0
      ensures viewer.selectionStart == -1 && viewer.selectionEnd == -1
    {
      var t := new Text(lines);
      label Built:
      text := t;
      viewer.SetText(text);
      caretPosition := 0;
      viewer.SetCaretPosition(caretPosition);
      viewer.SetSelection(-1, -1);
      TextKept@Built(t);
    }

    /** saveFile: the text saveWithFontInfo writes for the document. */
    method SaveFile() returns (out: string)
      requires Valid()
      ensures out == Encode(text.Cells())
    {
      out := text.SaveWithFontInfo();
    }

    /** cutSelection: with a selection, cut it, put the caret at its start and clear it.
        A selection running past the end throws from the delete, after the copy has put
        the part inside the document on the clipboard. Without a selection nothing
        happens. */
    method CutSelection() returns (r: Outcome)
      requires Valid()
      modifies this`caretPosition, text`characters, text`length, clipboard
      modifies viewer`selectionStart, viewer`selectionEnd, viewer`caretPosition
      ensures Valid()
      ensures var start, end := old(viewer.selectionStart), old(viewer.selectionEnd);
        Selected(start, end) ==>
          (r.Fail? <==> end > old(text.length)) &&
          clipboard.items == old(text.characters)[start..Min(end, old(text.length))]
      ensures var start, end := old(viewer.selectionStart), old(viewer.selectionEnd);
        Selected(start, end) && r.Pass? ==>
          text.Cells() == Deleted(old(text.Cells()), start, end - start) &&
          Replaced(old(text.characters), text.characters, start, end - start, 0) &&
          caretPosition == start && viewer.caretPosition == start &&
          viewer.selectionStart == -1 && viewer.selectionEnd == -1
      ensures r.Fail? || !Selected(old(viewer.selectionStart), old(viewer.selectionEnd)) ==>
        text.characters == old(text.characters) && caretPosition == old(caretPosition) &&
        viewer.selectionStart == old(viewer.selectionStart) && viewer.selectionEnd == old(viewer.selectionEnd) &&
        viewer.caretPosition == old(viewer.caretPosition)
      ensures !Selected(old(viewer.selectionStart), old(viewer.selectionEnd)) ==>
        r.Pass? && clipboard.items == old(clipboard.items)
    {
      var start, end := viewer.selectionStart, viewer.selectionEnd;
      r := Pass;
      if start >= 0 && end > start {
        r := text.Cut(start, end, clipboard);
        if r.Fail? {
          return;
        }
        caretPosition := start;
        viewer.SetSelection(-1, -1);
        viewer.SetCaretPosition(caretPosition);
      }
    }

    /** copySelection: with a selection, the clipboard receives the document's own
        StyledChar objects from its start up to its end or the end of the document. */
    method CopySelection()
      requires Valid()
      modifies clipboard
      ensures var start, end := viewer.selectionStart, viewer.selectionEnd;
        Selected(start, end) ==>
          clipboard.items == text.characters[start..Min(end, text.length)] &&
          Ok(clipboard.Cells()) == Copied(text.Cells(), start, end)
      ensures !Selected(viewer.selectionStart, viewer.selectionEnd) ==> clipboard.items == old(clipboard.items)
    {
      var start, end := viewer.selectionStart, viewer.selectionEnd;
      if start >= 0 && end > start {
        var r := text.Copy(start, end, clipboard);
        assert r.Pass?;
      }
    }

    /** pasteClipboard: the clipboard is inserted at the start of the selection, or at the
        caret without one; the caret goes past the pasted text and the selection is
        cleared. The paste position is always inside the document, so it never throws. */
    method PasteClipboard()
      requires Valid()
      modifies this`caretPosition, text`characters, text`length
      modifies viewer`selectionStart, viewer`selectionEnd, viewer`caretPosition
      ensures Valid()
      ensures var p := if Selected(old(viewer.selectionStart), old(viewer.selectionEnd)) then old(viewer.selectionStart) else old(caretPosition);
        text.Cells() == Inserted(old(text.Cells()), p, clipboard.Cells()) &&
        caretPosition == p + |clipboard.items|
      ensures viewer.caretPosition == caretPosition
      ensures viewer.selectionStart == -1 && viewer.selectionEnd == -1
      ensures var p := if Selected(old(viewer.selectionStart), old(viewer.selectionEnd)) then old(viewer.selectionStart) else old(caretPosition);
        Replaced(old(text.characters), text.characters, p, 0, |clipboard.items|) &&
        forall k :: p <= k < caretPosition ==> fresh(text.characters[k])
    {
      var pastePosition := if viewer.selectionStart >= 0 && viewer.selectionEnd > viewer.selectionStart
        then viewer.selectionStart else caretPosition;
      ghost var before := text.Cells();
      var r := text.Paste(pastePosition, clipboard);
      assert r.Pass?;
      if clipboard.items == [] {
        assert before[..pastePosition] + [] + before[pastePosition..] == before;
        assert Replaced(text.characters, text.characters, pastePosition, 0, 0);
      }
      caretPosition := pastePosition + |clipboard.items|;
      viewer.SetSelection(-1, -1);
      viewer.SetCaretPosition(caretPosition);
    }

    /** The Find Next button: a non-empty input becomes the search text and findNext runs;
        an empty input does nothing. When nothing is found, only the search text changes. */
    method FindButton(input: string) returns (notice: FindNotice)
      requires Valid()
      modifies this`lastSearchText, this`lastSearchPosition, this`caretPosition
      modifies viewer`selectionStart, viewer`selectionEnd, viewer`caretPosition
      ensures Valid()
      ensures input == [] ==> lastSearchText == old(lastSearchText) && notice == Silent
      ensures input != [] ==> lastSearchText == input
      ensures input != [] ==> Found(old(lastSearchPosition), notice)
      ensures input == [] || notice == NotFound ==>
        lastSearchPosition == old(lastSearchPosition) && caretPosition == old(caretPosition) &&
        viewer.selectionStart == old(viewer.selectionStart) && viewer.selectionEnd == old(viewer.selectionEnd) &&
        viewer.caretPosition == old(viewer.caretPosition)
    {
      notice := Silent;
      if input != [] {
        lastSearchText := input;
        notice := FindNext();
      }
    }

    /** What findNext did with the search text, starting after position `last`. */
    ghost predicate Found(last: int, notice: FindNotice)
      reads this, viewer, text, text.characters
      requires lastSearchText != []
    {
      var m := NextMatch(text.Chars(), lastSearchText, last);
      (notice == NotFound <==> m.None?) &&
      (notice == WrappedToTop <==> m.Some? && m.value <= last) &&
      (m.Some? ==>
        lastSearchPosition == m.value && caretPosition == m.value && viewer.caretPosition == m.value &&
        viewer.selectionStart == m.value && viewer.selectionEnd == m.value + |lastSearchText|)
    }

    /** findNext: the next occurrence of the search text after the last match, wrapping to
        the top, becomes the selection and the caret; with no occurrence nothing moves. */
    method FindNext() returns (notice: FindNotice)
      requires Valid()
      modifies this`lastSearchPosition, this`caretPosition
      modifies viewer`selectionStart, viewer`selectionEnd, viewer`caretPosition
      ensures Valid()
      ensures lastSearchText == [] ==> notice == Silent
      ensures lastSearchText != [] ==> Found(old(lastSearchPosition), notice)
      ensures notice == NotFound || lastSearchText == [] ==>
        lastSearchPosition == old(lastSearchPosition) && caretPosition == old(caretPosition) &&
        viewer.selectionStart == old(viewer.selectionStart) && viewer.selectionEnd == old(viewer.selectionEnd) &&
        viewer.caretPosition == old(viewer.caretPosition)
    {
      if lastSearchText == [] {
        return Silent;
      }
      var content := text.GetText();
      var foundPos := IndexOf(content, lastSearchText, lastSearchPosition + 1);
      if foundPos >= 0 {
        notice := Silent;
      } else {
        foundPos := IndexOf(content, lastSearchText, 0);
        if foundPos < 0 {
          return NotFound;
        }
        notice := WrappedToTop;
      }
      lastSearchPosition := foundPos;
      caretPosition := foundPos;
      viewer.SetSelection(foundPos, foundPos + |lastSearchText|);
      viewer.SetCaretPosition(caretPosition);
      TextKept(text);
    }

    /** setSelectionFont: with a selection, each selected character gets the font
        Reassigned gives; the text is unchanged. A selection running past the end throws
        once the characters up to the end have been changed. */
    method SetSelectionFont(name: Option<string>, size: int, style: int) returns (r: Outcome)
      requires Valid()
      modifies text.characters
      ensures Valid()
      ensures r.Fail? <==> Selected(viewer.selectionStart, viewer.selectionEnd) && viewer.selectionEnd > text.length
      ensures Selected(viewer.selectionStart, viewer.selectionEnd) ==>
        text.Cells() == Restyled(old(text.Cells()), viewer.selectionStart, viewer.selectionEnd, ReassignedBy(name, size, style))
      ensures !Selected(viewer.selectionStart, viewer.selectionEnd) ==> text.Cells() == old(text.Cells())
      ensures text.Chars() == old(text.Chars())
    {
      r := Pass;
      if viewer.selectionStart >= 0 && viewer.selectionEnd > viewer.selectionStart {
        r := RestyleRange(text, viewer.selectionStart, viewer.selectionEnd, ReassignedBy(name, size, style));
        RestyleKeepsText(old(text.Cells()), viewer.selectionStart, viewer.selectionEnd, ReassignedBy(name, size, style));
      }
    }

    /** updateSelectedTextStyle: with a selection, each selected character's bold or italic
        bit (`mask`) is set or cleared; the text is unchanged. A selection running past the
        end throws once the characters up to the end have been changed. */
    method UpdateSelectedTextStyle(mask: int, turnOn: bool) returns (r: Outcome)
      requires Valid()
      modifies text.characters
      ensures Valid()
      ensures r.Fail? <==> Selected(viewer.selectionStart, viewer.selectionEnd) && viewer.selectionEnd > text.length
      ensures Selected(viewer.selectionStart, viewer.selectionEnd) ==>
        text.Cells() == Restyled(old(text.Cells()), viewer.selectionStart, viewer.selectionEnd, UpdatedBy(mask, turnOn))
      ensures !Selected(viewer.selectionStart, viewer.selectionEnd) ==> text.Cells() == old(text.Cells())
      ensures text.Chars() == old(text.Chars())
    {
      r := Pass;
      if viewer.selectionStart >= 0 && viewer.selectionEnd > viewer.selectionStart {
        r := RestyleRange(text, viewer.selectionStart, viewer.selectionEnd, UpdatedBy(mask, turnOn));
        RestyleKeepsText(old(text.Cells()), viewer.selectionStart, viewer.selectionEnd, UpdatedBy(mask, turnOn));
      }
    }
  }
}
