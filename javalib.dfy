/** The Java library routines the editor core calls, written out from their
    documented behaviour: String.trim, String.split(","), Integer.parseInt,
    the "%d" conversion of String.format, String.indexOf, Character.isISOControl
    and the line splitting of Files.readAllLines. */
module JavaLib {
  import opened Outcomes

  const MIN_INT: int := -0x8000_0000
  const MAX_INT: int := 0x7fff_ffff

  /** The values of a Java `int`. */
  predicate IsInt(x: int) { MIN_INT <= x <= MAX_INT }

  // ---------------------------------------------------------------- trim

  function TrimStart(s: string): (t: string)
    ensures |t| <= |s| && t == s[|s| - |t|..]
    ensures t == [] || t[0] > ' '
  {
    if s != [] && s[0] <= ' ' then TrimStart(s[1..]) else s
  }

  function TrimEnd(s: string): (t: string)
    ensures |t| <= |s| && t == s[..|t|]
    ensures t == [] || t[|t| - 1] > ' '
  {
    if s != [] && s[|s| - 1] <= ' ' then TrimEnd(s[..|s| - 1]) else s
  }

  /** String.trim: removes every leading and trailing char whose code is at most U+0020. */
  function Trim(s: string): string
  {
    TrimEnd(TrimStart(s))
  }

  /** Trimming a string that starts and ends above U+0020 changes nothing. */
  lemma {:induction false} TrimKeeps(s: string)
    requires s == [] || (s[0] > ' ' && s[|s| - 1] > ' ')
    ensures Trim(s) == s
  {
  }

  // ---------------------------------------------------------------- split

  /** The pieces of `s` between commas, empty ones included. */
  function SplitAll(s: string): (parts: seq<string>)
    ensures |parts| >= 1
  {
    if s == [] then [""]
    else if s[0] == ',' then [""] + SplitAll(s[1..])
    else
      var rest := SplitAll(s[1..]);
      [[s[0]] + rest[0]] + rest[1..]
  }

  function DropTrailingEmpty(parts: seq<string>): (r: seq<string>)
    ensures |r| <= |parts| && r == parts[..|r|]
    ensures r == [] || r[|r| - 1] != ""
  {
    if parts != [] && parts[|parts| - 1] == "" then DropTrailingEmpty(parts[..|parts| - 1]) else parts
  }

  /** String.split(","): with no comma the result is the string itself; otherwise the
      pieces between commas with the trailing empty pieces removed. */
  function Split(s: string): seq<string>
  {
    if ',' !in s then [s] else DropTrailingEmpty(SplitAll(s))
  }

  lemma {:induction false} SplitAllNoComma(s: string)
    requires ',' !in s
    ensures SplitAll(s) == [s]
  {
    if s != [] {
      assert s[0] == s[0..1][0];
      assert ',' !in s[1..] by {
        forall i | 0 <= i < |s[1..]| ensures s[1..][i] != ',' {
          assert s[1..][i] == s[i + 1];
        }
      }
      SplitAllNoComma(s[1..]);
      assert [s[0]] + s[1..] == s;
    }
  }

  lemma {:induction false} SplitAllField(x: string, y: string)
    requires ',' !in x
    ensures SplitAll(x + "," + y) == [x] + SplitAll(y)
  {
    if x == [] {
      assert x + "," + y == [','] + y;
      assert (x + "," + y)[1..] == y;
    } else {
      assert (x + "," + y)[1..] == x[1..] + "," + y;
      SplitAllField(x[1..], y);
      assert [x[0]] + x[1..] == x;
    }
  }

  /** Splitting five comma-free fields joined by commas gives the fields back,
      as long as the last one is not empty. */
  lemma {:induction false} SplitFiveFields(a: string, b: string, c: string, d: string, e: string)
    requires ',' !in a && ',' !in b && ',' !in c && ',' !in d && ',' !in e
    requires e != ""
    ensures Split(a + "," + b + "," + c + "," + d + "," + e) == [a, b, c, d, e]
  {
    JoinFive(a, b, c, d, e);
    SplitAllFive(a, b, c, d, e);
    assert (a + "," + (b + "," + (c + "," + (d + "," + e))))[|a|] == ',';
    assert DropTrailingEmpty([a, b, c, d, e]) == [a, b, c, d, e];
  }

  lemma {:induction false} JoinFive(a: string, b: string, c: string, d: string, e: string)
    ensures a + "," + b + "," + c + "," + d + "," + e == a + "," + (b + "," + (c + "," + (d + "," + e)))
  {
  }

  lemma {:induction false} SplitAllFive(a: string, b: string, c: string, d: string, e: string)
    requires ',' !in a && ',' !in b && ',' !in c && ',' !in d && ',' !in e
    ensures SplitAll(a + "," + (b + "," + (c + "," + (d + "," + e)))) == [a, b, c, d, e]
  {
    SplitAllNoComma(e);
    SplitAllField(d, e);
    SplitAllField(c, d + "," + e);
    SplitAllField(b, c + "," + (d + "," + e));
    SplitAllField(a, b + "," + (c + "," + (d + "," + e)));
  }

  // ---------------------------------------------------------------- integers

  predicate IsDigit(c: char) { '0' <= c <= '9' }

  /** The value of a string of decimal digits. */
  function DigitsValue(ds: string): nat
    requires forall i :: 0 <= i < |ds| ==> IsDigit(ds[i])
  {
    if ds == [] then 0
    else
      var last := ds[|ds| - 1];
      assert IsDigit(last);
      10 * DigitsValue(ds[..|ds| - 1]) + (last as int - '0' as int)
  }

  /** Integer.parseInt(s): an optional sign followed by at least one decimal digit,
      whose value fits in an int; anything else throws NumberFormatException (`None`).
      Only the ASCII digits are read; parseInt's other Unicode decimal digits are not. */
  function ParseInt(s: string): Option<int>
  {
    if s == [] then None
    else
      var digits := if s[0] == '-' || s[0] == '+' then s[1..] else s;
      if digits == [] || exists i :: 0 <= i < |digits| && !IsDigit(digits[i]) then None
      else
        var n: int := DigitsValue(digits);
        var v := if s[0] == '-' then -n else n;
        if IsInt(v) then Some(v) else None
  }

  /** The decimal digits of a natural number, without leading zeros. */
  function NatToDigits(n: nat): (ds: string)
    ensures ds != [] && IsDigit(ds[0])
    ensures forall i :: 0 <= i < |ds| ==> IsDigit(ds[i])
  {
    if n < 10 then [('0' as int + n) as char]
    else NatToDigits(n / 10) + [('0' as int + n % 10) as char]
  }

  /** The "%d" conversion: an optional minus sign followed by the decimal digits, in
      ASCII whatever the default locale. */
  function IntToString(x: int): string
  {
    if x < 0 then "-" + NatToDigits(-x) else NatToDigits(x)
  }

  lemma {:induction false} DigitsValueOfNat(n: nat)
    ensures DigitsValue(NatToDigits(n)) == n
  {
    if n >= 10 {
      DigitsValueOfNat(n / 10);
      var ds := NatToDigits(n);
      assert ds[..|ds| - 1] == NatToDigits(n / 10);
    }
  }

  /** Integer.parseInt reads back every int that "%d" writes. */
  lemma {:induction false} ParseIntToString(x: int)
    requires IsInt(x)
    ensures ParseInt(IntToString(x)) == Some(x)
  {
    var s := IntToString(x);
    if x < 0 {
      DigitsValueOfNat(-x);
      assert s[1..] == NatToDigits(-x);
    } else {
      DigitsValueOfNat(x);
    }
  }

  /** What "%d" writes contains no comma, no line break and nothing that trim removes. */
  lemma {:induction false} IntToStringPlain(x: int)
    ensures var s := IntToString(x);
      s != [] && s[0] > ' ' && s[|s| - 1] > ' ' &&
      ',' !in s && '\n' !in s && '\r' !in s
  {
    var s := IntToString(x);
    assert forall i :: 0 <= i < |s| ==> IsDigit(s[i]) || s[i] == '-';
  }

  // ---------------------------------------------------------------- search

  /** `t` occurs in `s` at index `k`. */
  predicate OccursAt(s: string, t: string, k: int)
  {
    0 <= k && k + |t| <= |s| && s[k..k + |t|] == t
  }

  /** String.indexOf(t, from) for a non-empty `t`: the first index at or after `from`
      (a negative `from` counts as 0) where `t` occurs, or -1. */
  function IndexOf(s: string, t: string, from: int): (r: int)
    requires t != []
    ensures r == -1 || (r >= from && OccursAt(s, t, r))
    ensures forall k :: from <= k && (r == -1 || k < r) ==> !OccursAt(s, t, k)
    decreases if from < 0 then |s| + 1 else |s| - from
  {
    if from < 0 then IndexOf(s, t, 0)
    else if from + |t| > |s| then -1
    else if s[from..from + |t|] == t then from
    else IndexOf(s, t, from + 1)
  }

  // ---------------------------------------------------------------- characters

  /** Character.isISOControl: U+0000..U+001F and U+007F..U+009F. */
  predicate IsISOControl(c: char)
  {
    c <= '\U{1F}' || ('\U{7F}' <= c <= '\U{9F}')
  }

  // ---------------------------------------------------------------- reading lines

  predicate IsLineBreak(c: char) { c == '\n' || c == '\r' }

  /** A line: text holding no line break. */
  predicate NoLineBreak(line: string)
  {
    forall i :: 0 <= i < |line| ==> !IsLineBreak(line[i])
  }

  /** The index of the first line break in `s`, or |s|. */
  function LineBreakIndex(s: string): (k: nat)
    ensures k <= |s|
    ensures k < |s| ==> IsLineBreak(s[k])
    ensures forall i :: 0 <= i < k ==> !IsLineBreak(s[i])
  {
    LineBreakFrom(s, 0)
  }

  /** The index of the first line break at or after `p`, or |s|. */
  function LineBreakFrom(s: string, p: nat): (k: nat)
    requires p <= |s|
    ensures p <= k <= |s|
    ensures k < |s| ==> IsLineBreak(s[k])
    ensures forall i :: p <= i < k ==> !IsLineBreak(s[i])
    decreases |s| - p
  {
    if p == |s| || IsLineBreak(s[p]) then p else LineBreakFrom(s, p + 1)
  }

  /** Where the second line of `s` starts: just past the first line break, where "\r\n"
      counts as one break, or |s| when there is no break. */
  function NextLineStart(s: string): (k: nat)
    requires s != []
    ensures 0 < k <= |s|
    ensures LineBreakIndex(s) < |s| ==> LineBreakIndex(s) < k <= LineBreakIndex(s) + 2
  {
    if LineBreakIndex(s) == |s| then |s|
    else if s[LineBreakIndex(s)] == '\r' && LineBreakIndex(s) + 1 < |s| && s[LineBreakIndex(s) + 1] == '\n' then
      LineBreakIndex(s) + 2
    else LineBreakIndex(s) + 1
  }

  /** The lines Files.readAllLines returns for a file holding `s`: lines end at
      "\n", "\r" or "\r\n", and a final line break does not start another line. */
  function ReadAllLines(s: string): seq<string>
    decreases |s|
  {
    if s == [] then [] else [s[..LineBreakIndex(s)]] + ReadAllLines(s[NextLineStart(s)..])
  }

  /** A line without breaks, followed by "\n", reads back as that line. */
  lemma {:induction false} ReadLineThenRest(line: string, rest: string)
    requires NoLineBreak(line)
    ensures ReadAllLines(line + "\n" + rest) == [line] + ReadAllLines(rest)
  {
    var s := line + "\n" + rest;
    assert s[|line|] == '\n';
    assert LineBreakIndex(s) == |line| by {
      LineBreakIndexAt(s, |line|);
    }
    assert s[..|line|] == line;
    assert s[|line| + 1..] == rest;
  }

  lemma {:induction false} LineBreakIndexAt(s: string, k: nat)
    requires k < |s| && IsLineBreak(s[k])
    requires forall i :: 0 <= i < k ==> !IsLineBreak(s[i])
    ensures LineBreakIndex(s) == k
  {
  }
}
