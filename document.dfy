/** The document as a value: the sequence of cells (character and font) a Text holds, and
    the edits the Text methods make to it, written as functions. The Text class proves
    each of its methods against these; the lemmas here relate the edits to each other. */
module Document {
  import opened Outcomes
  import opened Styles

  /** The cells `insert` creates for `text`: one per character, all in `font`. */
  function TextCells(text: string, font: Font): (cells: seq<Cell>)
    ensures |cells| == |text|
    ensures forall i :: 0 <= i < |text| ==> cells[i] == Cell(text[i], font)
  {
    seq(|text|, i requires 0 <= i < |text| => Cell(text[i], font))
  }

  /** `ins` spliced in at position `pos`. */
  function Inserted(cells: seq<Cell>, pos: int, ins: seq<Cell>): (r: seq<Cell>)
    requires 0 <= pos <= |cells|
    ensures |r| == |cells| + |ins|
  {
    cells[..pos] + ins + cells[pos..]
  }

  /** The `n` cells from position `pos` removed. */
  function Deleted(cells: seq<Cell>, pos: int, n: int): (r: seq<Cell>)
    requires 0 <= pos && 0 <= n && pos + n <= |cells|
    ensures |r| == |cells| - n
  {
    cells[..pos] + cells[pos + n..]
  }

  /** `now` is `before` with the `removed` entries from `pos` replaced by `added` others:
      every entry outside that stretch is kept, in order. */
  predicate Replaced<T(==)>(before: seq<T>, now: seq<T>, pos: int, removed: int, added: int)
  {
    0 <= pos && 0 <= removed && 0 <= added && pos + removed <= |before| &&
    |now| == |before| - removed + added &&
    now[..pos] == before[..pos] && now[pos + added..] == before[pos + removed..]
  }

  /** What `copy(start, end)` puts on the clipboard: positions [start, min(end, length)).
      It throws when it would read a negative position, which happens exactly when
      start < 0 and start < end. */
  function Copied(cells: seq<Cell>, start: int, end: int): (r: Result<seq<Cell>>)
    ensures r.Err? <==> start < 0 && start < end
    ensures r.Ok? && start < end && start < |cells| ==> r.value == cells[start..if end < |cells| then end else |cells|]
    ensures r.Ok? && (end <= start || |cells| <= start) ==> r.value == []
  {
    if start < 0 && start < end then Err(IndexOutOfBounds)
    else if start < end && start < |cells| then Ok(cells[start..if end < |cells| then end else |cells|])
    else Ok([])
  }

  /** Positions [s, e) with `g` applied to their fonts; the characters and all other
      positions keep what they had. */
  function Restyled(cells: seq<Cell>, s: int, e: int, g: Font -> Font): (r: seq<Cell>)
  {
    seq(|cells|, i requires 0 <= i < |cells| =>
      if s <= i < e then Cell(cells[i].character, g(cells[i].font)) else cells[i])
  }

  /** What `delete(pos, n)` does as written, on the cells and the `length` field: the
      guard rejects pos < 0 and pos + n > length, the loop removes n cells (none when n is
      negative), and `length` drops by n. */
  function DeleteAsWritten(cells: seq<Cell>, length: int, pos: int, n: int): (r: Result<(seq<Cell>, int)>)
    requires length == |cells|
    ensures r.Ok? <==> 0 <= pos && pos + n <= length
    ensures r.Ok? && n >= 0 ==> r.value.0 == Deleted(cells, pos, n) && r.value.1 == |r.value.0|
  {
    if pos < 0 || pos + n > length then Err(IndexOutOfBounds)
    else if n >= 0 then Ok((Deleted(cells, pos, n), length - n))
    else Ok((cells, length - n))
  }

  // ---------------------------------------------------------------- lemmas

  /** Deleting what was just inserted restores the document. */
  lemma {:induction false} DeleteInserted(cells: seq<Cell>, pos: int, ins: seq<Cell>)
    requires 0 <= pos <= |cells|
    ensures Deleted(Inserted(cells, pos, ins), pos, |ins|) == cells
  {
    var r := Inserted(cells, pos, ins);
    assert r[..pos] == cells[..pos];
    assert r[pos + |ins|..] == cells[pos..];
  }

  /** Inserting what was just deleted, at the same place, restores the document: cut then
      paste is the identity. */
  lemma {:induction false} InsertDeleted(cells: seq<Cell>, pos: int, n: int)
    requires 0 <= pos && 0 <= n && pos + n <= |cells|
    ensures Inserted(Deleted(cells, pos, n), pos, cells[pos..pos + n]) == cells
  {
    var d := Deleted(cells, pos, n);
    assert d[..pos] == cells[..pos];
    assert d[pos..] == cells[pos + n..];
  }

  /** Inserting keeps the cells before `pos`, puts `ins` at `pos`, and shifts the rest by |ins|. */
  lemma {:induction false} InsertedAt(cells: seq<Cell>, pos: int, ins: seq<Cell>, k: int)
    requires 0 <= pos <= |cells| && 0 <= k < |cells| + |ins|
    ensures Inserted(cells, pos, ins)[k] ==
      if k < pos then cells[k] else if k < pos + |ins| then ins[k - pos] else cells[k - |ins|]
  {
  }

  /** Restyling keeps the length and every character, applies `g` inside [s, e), and leaves
      the cells outside it as they were. */
  lemma {:induction false} RestyledCells(cells: seq<Cell>, s: int, e: int, g: Font -> Font)
    ensures |Restyled(cells, s, e, g)| == |cells|
    ensures forall i :: 0 <= i < |cells| ==> Restyled(cells, s, e, g)[i].character == cells[i].character
    ensures forall i :: 0 <= i < |cells| && s <= i < e ==> Restyled(cells, s, e, g)[i].font == g(cells[i].font)
    ensures forall i :: 0 <= i < |cells| && !(s <= i < e) ==> Restyled(cells, s, e, g)[i] == cells[i]
  {
  }

  /** Restyling one more position extends the restyled range by one. */
  lemma {:induction false} RestyledStep(cells: seq<Cell>, s: int, i: int, g: Font -> Font)
    requires 0 <= s <= i < |cells|
    ensures Restyled(cells, s, i, g)[i := Cell(cells[i].character, g(cells[i].font))] == Restyled(cells, s, i + 1, g)
  {
  }

  /** Only the positions inside the document matter to a restyle. */
  lemma {:induction false} RestyledPastEnd(cells: seq<Cell>, s: int, i: int, e: int, g: Font -> Font)
    requires |cells| <= i <= e
    ensures Restyled(cells, s, i, g) == Restyled(cells, s, e, g)
  {
  }

  /** Restyling an empty range changes nothing. */
  lemma {:induction false} RestyledEmpty(cells: seq<Cell>, s: int, e: int, g: Font -> Font)
    requires e <= s
    ensures Restyled(cells, s, e, g) == cells
  {
    assert forall i :: 0 <= i < |cells| ==> Restyled(cells, s, e, g)[i] == cells[i];
  }

  /** Copying a range and pasting it right after itself duplicates it in place. */
  lemma {:induction false} CopyPasteDuplicates(cells: seq<Cell>, start: int, end: int)
    requires 0 <= start < end <= |cells|
    ensures Copied(cells, start, end) == Ok(cells[start..end])
    ensures Inserted(cells, end, cells[start..end]) == cells[..end] + cells[start..]
  {
    assert cells[..end] + cells[start..end] + cells[end..] == cells[..end] + (cells[start..end] + cells[end..]);
    assert cells[start..end] + cells[end..] == cells[start..];
  }

  /** As written, `delete` with a negative count passes its guard whenever the position is
      in range, removes nothing, and leaves `length` larger than the number of cells. */
  lemma {:induction false} NegativeDeleteDesynchronises(cells: seq<Cell>, pos: int, n: int)
    requires 0 <= pos <= |cells| && n < 0
    ensures DeleteAsWritten(cells, |cells|, pos, n) == Ok((cells, |cells| - n))
    ensures |cells| - n > |cells|
  {
  }

  /** As written, `cut` of a reversed range starting inside the document completes: the
      copy finds nothing, and the delete of the negative count end - start passes its
      guard, removes nothing and leaves `length` larger than the number of cells. */
  lemma {:induction false} ReversedCutDesynchronises(cells: seq<Cell>, start: int, end: int)
    requires 0 <= start <= |cells| && end < start
    ensures Copied(cells, start, end) == Ok([])
    ensures DeleteAsWritten(cells, |cells|, start, end - start) == Ok((cells, |cells| + (start - end)))
    ensures |cells| + (start - end) > |cells|
  {
  }

  /** An insertion replaces nothing by the inserted cells, and a deletion replaces the
      deleted cells by nothing; all other cells are kept. */
  lemma {:induction false} EditsReplace(cells: seq<Cell>, pos: int, ins: seq<Cell>, n: int)
    requires 0 <= pos && 0 <= n && pos + n <= |cells|
    ensures Replaced(cells, Inserted(cells, pos, ins), pos, 0, |ins|)
    ensures Replaced(cells, Deleted(cells, pos, n), pos, n, 0)
  {
    var d := Inserted(cells, pos, ins);
    assert d[..pos] == cells[..pos];
    assert d[pos + |ins|..] == cells[pos..];
  }

  /** Removing a stretch and then adding at the same position replaces the stretch. */
  lemma {:induction false} ReplacedThen<T>(a: seq<T>, b: seq<T>, c: seq<T>, pos: int, n: int, m: int)
    requires Replaced(a, b, pos, n, 0) && Replaced(b, c, pos, 0, m)
    ensures Replaced(a, c, pos, n, m)
  {
  }

  /** A list spliced into `a` at `pos` replaces nothing there, and sits at [pos, pos + |added|). */
  lemma {:induction false} SplicedReplaced<T>(a: seq<T>, pos: int, added: seq<T>)
    requires 0 <= pos <= |a|
    ensures Replaced(a, a[..pos] + added + a[pos..], pos, 0, |added|)
    ensures forall k :: pos <= k < pos + |added| ==> (a[..pos] + added + a[pos..])[k] == added[k - pos]
  {
    var d := a[..pos] + added + a[pos..];
    assert d[..pos] == a[..pos];
    assert d[pos + |added|..] == a[pos..];
  }

  /** One more entry added right after a spliced-in list extends that list. */
  lemma {:induction false} SpliceExtends<T>(a: seq<T>, pos: int, added: seq<T>, prev: seq<T>, now: seq<T>)
    requires 0 <= pos <= |a| && prev == a[..pos] + added + a[pos..]
    requires Replaced(prev, now, pos + |added|, 0, 1)
    ensures now == a[..pos] + (added + [now[pos + |added|]]) + a[pos..]
  {
    var p := pos + |added|;
    assert prev[..p] == a[..pos] + added;
    assert prev[p..] == a[pos..];
    assert now == now[..p] + [now[p]] + now[p + 1..];
  }

  /** Inserting `ins` and then `x` right after it is inserting `ins + x`. */
  lemma {:induction false} InsertedSnoc(cells: seq<Cell>, pos: int, ins: seq<Cell>, x: seq<Cell>)
    requires 0 <= pos <= |cells|
    ensures Inserted(Inserted(cells, pos, ins), pos + |ins|, x) == Inserted(cells, pos, ins + x)
  {
    var d := Inserted(cells, pos, ins);
    assert d[..pos + |ins|] == cells[..pos] + ins;
    assert d[pos + |ins|..] == cells[pos..];
  }
}
