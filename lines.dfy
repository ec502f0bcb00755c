/** Line arithmetic over the plain text of a document.

    Lines are separated by '\n'; a document with N newlines has N + 1 lines, the last of
    which runs to the end of the text. Line i starts just after the i-th newline. A line
    index at or below 0 means line 0, and a line index past the last line denotes the
    empty line at the end of the text: this is what the position-scanning loop of
    Text.getLine does with such indices. */
module Lines {

  /** The number of '\n' characters before position `p`. */
  function NewlinesBefore(s: string, p: nat): (n: nat)
    requires p <= |s|
    ensures n <= p
  {
    if p == 0 then 0
    else NewlinesBefore(s, p - 1) + (if s[p - 1] == '\n' then 1 else 0)
  }

  /** The number of '\n' characters in `s`. */
  function NewlineCount(s: string): nat
  {
    NewlinesBefore(s, |s|)
  }

  /** The number of lines: one more than the number of newlines. */
  function LineCount(s: string): nat
  {
    1 + NewlineCount(s)
  }

  /** The index of the first '\n' at or after `p`, or |s| when there is none. */
  function NextNewline(s: string, p: nat): (q: nat)
    requires p <= |s|
    ensures p <= q <= |s|
    ensures q < |s| ==> s[q] == '\n'
    ensures forall k :: p <= k < q ==> s[k] != '\n'
    decreases |s| - p
  {
    if p == |s| || s[p] == '\n' then p else NextNewline(s, p + 1)
  }

  /** Where line `i` starts: 0 for i <= 0, just after the i-th newline, or |s| when the
      text has fewer than i newlines. */
  function LineStart(s: string, i: int): (p: nat)
    ensures p <= |s|
    decreases if i < 0 then 0 else i
  {
    if i <= 0 then 0
    else if NextNewline(s, LineStart(s, i - 1)) < |s| then NextNewline(s, LineStart(s, i - 1)) + 1
    else |s|
  }

  /** Where line `i` ends: the newline that closes it, or |s|. */
  function LineEnd(s: string, i: int): (q: nat)
    ensures LineStart(s, i) <= q <= |s|
  {
    NextNewline(s, LineStart(s, i))
  }

  function LineLength(s: string, i: int): nat
  {
    LineEnd(s, i) - LineStart(s, i)
  }

  /** The line a caret at position `p` is on. */
  function LineOfPosition(s: string, p: nat): nat
    requires p <= |s|
  {
    NewlinesBefore(s, p)
  }

  /** The offset of position `p` from the start of its line. */
  function ColumnOfPosition(s: string, p: nat): int
    requires p <= |s|
  {
    p - LineStart(s, LineOfPosition(s, p))
  }

  function Min(a: int, b: int): int
  {
    if a <= b then a else b
  }

  function Max(a: int, b: int): int
  {
    if a <= b then b else a
  }

  /** The position at column `c` of line `l`, with the column clamped to the line. */
  function PositionAt(s: string, l: int, c: nat): (p: nat)
    ensures LineStart(s, l) <= p <= LineEnd(s, l)
  {
    LineStart(s, l) + Min(c, LineLength(s, l))
  }

  /** The lengths of lines 0 .. n - 1, each plus one for its newline: what the click
      handlers add up to find where line `n` starts. */
  function LinesBefore(s: string, n: int): nat
    decreases if n < 0 then 0 else n
  {
    if n <= 0 then 0 else LinesBefore(s, n - 1) + LineLength(s, n - 1) + 1
  }

  // ---------------------------------------------------------------- lemmas

  /** A stretch without newlines adds nothing to the count. */
  lemma {:induction false} CountSkip(s: string, p: nat, q: nat)
    requires p <= q <= |s|
    requires forall k :: p <= k < q ==> s[k] != '\n'
    ensures NewlinesBefore(s, q) == NewlinesBefore(s, p)
    decreases q - p
  {
    if p < q {
      CountSkip(s, p, q - 1);
    }
  }

  /** Counting newlines is monotone in the position. */
  lemma {:induction false} CountMonotone(s: string, p: nat, q: nat)
    requires p <= q <= |s|
    ensures NewlinesBefore(s, p) <= NewlinesBefore(s, q)
    decreases q - p
  {
    if p < q {
      CountMonotone(s, p, q - 1);
    }
  }

  /** Line i (for i up to the number of newlines) starts right after the i-th newline. */
  lemma {:induction false} LineStartCounts(s: string, i: nat)
    requires i <= NewlineCount(s)
    ensures NewlinesBefore(s, LineStart(s, i)) == i
    ensures i > 0 ==> LineStart(s, i) > 0 && s[LineStart(s, i) - 1] == '\n'
  {
    if i > 0 {
      LineStartCounts(s, i - 1);
      if NextNewline(s, LineStart(s, i - 1)) == |s| {
        NoNewlineToEnd(s, LineStart(s, i - 1));
        assert false;
      }
      CountSkip(s, LineStart(s, i - 1), NextNewline(s, LineStart(s, i - 1)));
    }
  }

  /** With no newline from `p` to the end, every newline comes before `p`. */
  lemma {:induction false} NoNewlineToEnd(s: string, p: nat)
    requires p <= |s| && NextNewline(s, p) == |s|
    ensures NewlinesBefore(s, p) == NewlineCount(s)
  {
    CountSkip(s, p, |s|);
  }

  /** A newline at or after `p` means at least one newline comes after `p`. */
  lemma {:induction false} NewlineAfter(s: string, p: nat)
    requires p <= |s| && NextNewline(s, p) < |s|
    ensures NewlinesBefore(s, p) < NewlineCount(s)
  {
    CountSkip(s, p, NextNewline(s, p));
    CountMonotone(s, NextNewline(s, p) + 1, |s|);
  }

  /** A line before the last ends at a newline, and the next line starts after it. */
  lemma {:induction false} LineFollows(s: string, i: nat)
    requires i < NewlineCount(s)
    ensures LineEnd(s, i) < |s| && s[LineEnd(s, i)] == '\n'
    ensures LineStart(s, i + 1) == LineEnd(s, i) + 1
  {
    LineStartCounts(s, i);
    if NextNewline(s, LineStart(s, i)) == |s| {
      NoNewlineToEnd(s, LineStart(s, i));
      assert false;
    }
  }

  /** The last line runs to the end of the text, and every line after it is empty and
      sits at the end. */
  lemma {:induction false} LastLineReachesEnd(s: string, i: int)
    requires i >= NewlineCount(s)
    ensures LineEnd(s, i) == |s|
    ensures i > NewlineCount(s) ==> LineStart(s, i) == |s|
  {
    LastLineEnd(s);
    if i > NewlineCount(s) {
      BeyondLastLine(s, i);
    }
  }

  lemma {:induction false} LastLineEnd(s: string)
    ensures LineEnd(s, NewlineCount(s)) == |s|
  {
    LineStartCounts(s, NewlineCount(s));
    if NextNewline(s, LineStart(s, NewlineCount(s))) < |s| {
      NewlineAfter(s, LineStart(s, NewlineCount(s)));
      assert false;
    }
  }

  lemma {:induction false} BeyondLastLine(s: string, i: int)
    requires i > NewlineCount(s)
    ensures LineStart(s, i) == |s| && LineEnd(s, i) == |s|
    decreases i
  {
    if i - 1 > NewlineCount(s) {
      BeyondLastLine(s, i - 1);
    } else {
      LastLineEnd(s);
    }
  }

  /** Line starts never decrease. */
  lemma {:induction false} LineStartMonotone(s: string, i: int, j: int)
    requires i <= j
    ensures LineStart(s, i) <= LineStart(s, j)
    decreases j - i
  {
    if i < j {
      LineStartMonotone(s, i, j - 1);
    }
  }

  /** The first newline at or after `p` is the one a forward scan from `p` stops at. */
  lemma {:induction false} NextNewlineAt(s: string, p: nat, q: nat)
    requires p <= q <= |s|
    requires forall k :: p <= k < q ==> s[k] != '\n'
    requires q == |s| || s[q] == '\n'
    ensures NextNewline(s, p) == q
  {
  }

  /** A position at the start of the text or just after a newline, with `i` newlines before
      it, is where line `i` starts. */
  lemma {:induction false} LineStartAt(s: string, p: nat, i: nat)
    requires p <= |s| && NewlinesBefore(s, p) == i
    requires p == 0 || s[p - 1] == '\n'
    ensures LineStart(s, i) == p
  {
    CountMonotone(s, p, |s|);
    LineStartCounts(s, i);
    var q := LineStart(s, i);
    if q < p {
      CountMonotone(s, q, p - 1);
    } else if p < q {
      CountMonotone(s, p, q - 1);
    }
  }

  /** Every position lies on the line LineOfPosition names, between its start and end,
      and that line exists. */
  lemma {:induction false} PositionLine(s: string, p: nat)
    requires p <= |s|
    ensures LineOfPosition(s, p) < LineCount(s)
    ensures LineStart(s, LineOfPosition(s, p)) <= p <= LineEnd(s, LineOfPosition(s, p))
  {
    FindLine(s, p, 0);
  }

  /** Searching forward from a line that starts at or before `p` reaches the line holding `p`. */
  lemma {:induction false} FindLine(s: string, p: nat, l: nat)
    requires p <= |s| && l < LineCount(s) && LineStart(s, l) <= p
    ensures LineOfPosition(s, p) < LineCount(s)
    ensures LineStart(s, LineOfPosition(s, p)) <= p <= LineEnd(s, LineOfPosition(s, p))
    decreases NewlineCount(s) - l
  {
    if p <= LineEnd(s, l) {
      OnLine(s, l, p);
    } else {
      if l == NewlineCount(s) {
        LastLineEnd(s);
        assert false;
      }
      LineFollows(s, l);
      FindLine(s, p, l + 1);
    }
  }

  /** Conversely, a position between the start and end of an existing line is on that line. */
  lemma {:induction false} OnLine(s: string, l: nat, p: nat)
    requires l < LineCount(s)
    requires LineStart(s, l) <= p <= LineEnd(s, l)
    ensures LineOfPosition(s, p) == l
  {
    LineStartCounts(s, l);
    CountSkip(s, LineStart(s, l), p);
  }

  /** PositionAt and (LineOfPosition, ColumnOfPosition) are inverse: the position at a
      column of an existing line is on that line, at that column clamped to its length. */
  lemma {:induction false} PositionAtRoundTrip(s: string, l: nat, c: nat)
    requires l < LineCount(s)
    ensures LineOfPosition(s, PositionAt(s, l, c)) == l
    ensures ColumnOfPosition(s, PositionAt(s, l, c)) == Min(c, LineLength(s, l))
  {
    OnLine(s, l, PositionAt(s, l, c));
  }

  /** Every position is the position at its own line and column. */
  lemma {:induction false} PositionOfLineColumn(s: string, p: nat)
    requires p <= |s|
    ensures ColumnOfPosition(s, p) >= 0
    ensures PositionAt(s, LineOfPosition(s, p), ColumnOfPosition(s, p)) == p
  {
    PositionLine(s, p);
  }

  /** A line holds no newline. */
  lemma {:induction false} LineHasNoNewline(s: string, i: int)
    ensures '\n' !in s[LineStart(s, i)..LineEnd(s, i)]
  {
    forall k | 0 <= k < LineLength(s, i)
      ensures s[LineStart(s, i)..LineEnd(s, i)][k] != '\n'
    {
      assert s[LineStart(s, i)..LineEnd(s, i)][k] == s[LineStart(s, i) + k];
    }
  }

  /** Adding up line lengths reaches the start of line `n` when that line exists, and past
      the last line every further (empty) line adds one: the sum overshoots the text. */
  lemma {:induction false} LinesBeforeStart(s: string, n: int)
    ensures n <= NewlineCount(s) ==> LinesBefore(s, n) == LineStart(s, n)
    ensures n > NewlineCount(s) ==> LinesBefore(s, n) == |s| + n - NewlineCount(s)
    decreases if n < 0 then 0 else n
  {
    if n > 0 {
      LinesBeforeStart(s, n - 1);
      if n - 1 < NewlineCount(s) {
        SumReachesLine(s, n);
      } else if n - 1 == NewlineCount(s) {
        SumPassesEnd(s, n);
      } else {
        SumBeyondEnd(s, n);
      }
    }
  }

  lemma {:induction false} SumReachesLine(s: string, n: int)
    requires 0 < n <= NewlineCount(s) && LinesBefore(s, n - 1) == LineStart(s, n - 1)
    ensures LinesBefore(s, n) == LineStart(s, n)
  {
    LineFollows(s, n - 1);
  }

  lemma {:induction false} SumPassesEnd(s: string, n: int)
    requires n - 1 == NewlineCount(s) && LinesBefore(s, n - 1) == LineStart(s, n - 1)
    ensures LinesBefore(s, n) == |s| + 1
  {
    LastLineEnd(s);
  }

  lemma {:induction false} SumBeyondEnd(s: string, n: int)
    requires n - 1 > NewlineCount(s)
    ensures LinesBefore(s, n) == LinesBefore(s, n - 1) + 1
  {
    BeyondLastLine(s, n - 1);
  }
}
