/** Text and its lines: joining lines with '\n' as the loader builds the body, writing
    lines each followed by '\n' as saveWithFontInfo writes the header, and how
    Files.readAllLines splits such text back into lines. */
module FileLines {
  import opened JavaLib

  /** The lines joined with '\n' between them and none after the last. */
  function Join(ls: seq<string>): string
  {
    if ls == [] then ""
    else if |ls| == 1 then ls[0]
    else ls[0] + "\n" + Join(ls[1..])
  }

  /** Each line followed by '\n'. */
  function Terminated(ls: seq<string>): string
  {
    if ls == [] then "" else Terminated(ls[..|ls| - 1]) + ls[|ls| - 1] + "\n"
  }

  /** No line holds a line break. */
  predicate Unbroken(ls: seq<string>)
  {
    forall j :: 0 <= j < |ls| ==> NoLineBreak(ls[j])
  }

  /** Joining one more line puts a single '\n' before it. */
  lemma {:induction false} JoinSnoc(ls: seq<string>, x: string)
    requires ls != []
    ensures Join(ls + [x]) == Join(ls) + "\n" + x
    decreases |ls|
  {
    if |ls| == 1 {
      assert (ls + [x])[1..] == [x];
    } else {
      assert (ls + [x])[1..] == ls[1..] + [x];
      JoinSnoc(ls[1..], x);
    }
  }

  lemma {:induction false} JoinCons(x: string, tail: seq<string>)
    requires tail != []
    ensures Join([x] + tail) == x + "\n" + Join(tail)
  {
    assert ([x] + tail)[1..] == tail;
  }

  /** Reading back lines that were each written with a trailing '\n' gives those lines. */
  lemma {:induction false} ReadTerminated(ls: seq<string>, rest: string)
    requires Unbroken(ls)
    ensures ReadAllLines(Terminated(ls) + rest) == ls + ReadAllLines(rest)
  {
    if ls != [] {
      var pre := ls[..|ls| - 1];
      var x := ls[|ls| - 1];
      var rest' := x + "\n" + rest;
      assert Terminated(ls) + rest == Terminated(pre) + rest';
      assert Unbroken(pre) by {
        forall j | 0 <= j < |pre|
          ensures NoLineBreak(pre[j])
        {
          assert pre[j] == ls[j];
        }
      }
      var tail := ReadAllLines(rest);
      calc {
        ReadAllLines(Terminated(ls) + rest);
        ReadAllLines(Terminated(pre) + rest');
        { ReadTerminated(pre, rest'); }
        pre + ReadAllLines(rest');
        { ReadLineThenRest(x, rest); }
        pre + ([x] + tail);
        { Associate(pre, x, tail); }
        (pre + [x]) + tail;
        { assert pre + [x] == ls; }
        ls + tail;
      }
    } else {
      assert Terminated(ls) + rest == rest;
      assert ls + ReadAllLines(rest) == ReadAllLines(rest);
    }
  }

  lemma {:induction false} Associate(pre: seq<string>, x: string, tail: seq<string>)
    ensures pre + ([x] + tail) == (pre + [x]) + tail
  {
  }

  /** Reading a text whose first line break is a '\n' gives its first line, then the
      lines of the rest. */
  lemma {:induction false} ReadAllLinesStep(body: string)
    requires LineBreakIndex(body) < |body| && body[LineBreakIndex(body)] == '\n'
    ensures ReadAllLines(body) == [body[..LineBreakIndex(body)]] + ReadAllLines(body[LineBreakIndex(body) + 1..])
  {
    assert NextLineStart(body) == LineBreakIndex(body) + 1;
  }

  /** Splitting a text into lines and joining them again gives the text back, when it holds
      no '\r' and does not end with '\n'. */
  lemma {:induction false} JoinReadAllLines(body: string)
    requires '\r' !in body
    requires body == [] || body[|body| - 1] != '\n'
    ensures Join(ReadAllLines(body)) == body
    decreases |body|
  {
    if body != [] {
      var k := LineBreakIndex(body);
      if k < |body| {
        NoCarriageReturnAfter(body, k);
        JoinReadAllLines(body[k + 1..]);
        JoinFirstLine(body, k);
      }
    }
  }

  /** One step of JoinReadAllLines: the first line, a '\n', and the rest rejoined. */
  lemma {:induction false} JoinFirstLine(body: string, k: nat)
    requires k == LineBreakIndex(body) && k < |body| && body[k] == '\n'
    requires Join(ReadAllLines(body[k + 1..])) == body[k + 1..]
    requires body[k + 1..] != []
    ensures Join(ReadAllLines(body)) == body
  {
    ReadAllLinesStep(body);
    SplitAtNewline(body, k);
    JoinCons(body[..k], ReadAllLines(body[k + 1..]));
  }

  lemma {:induction false} SplitAtNewline(body: string, k: nat)
    requires k < |body| && body[k] == '\n'
    ensures body == body[..k] + "\n" + body[k + 1..]
  {
  }

  /** The first line break of a text without '\r' is a '\n', and what follows it holds no '\r'
      either, ends as the text does and is not empty when the text does not end in '\n'. */
  lemma {:induction false} NoCarriageReturnAfter(body: string, k: nat)
    requires '\r' !in body
    requires body == [] || body[|body| - 1] != '\n'
    requires k < |body| && IsLineBreak(body[k])
    ensures body[k] == '\n'
    ensures '\r' !in body[k + 1..]
    ensures body[k + 1..] != []
    ensures body[k + 1..][|body[k + 1..]| - 1] != '\n'
  {
    assert body[k] in body;
    var rest := body[k + 1..];
    forall i | 0 <= i < |rest|
      ensures rest[i] != '\r'
    {
      assert rest[i] == body[k + 1 + i];
      assert body[k + 1 + i] in body;
    }
  }

  /** A final '\n' starts no line: the text reads back as without it, so joining the lines
      again loses it. */
  lemma {:induction false} JoinDropsFinalNewline(body: string)
    requires '\r' !in body
    requires body == [] || body[|body| - 1] != '\n'
    ensures Join(ReadAllLines(body + "\n")) == body
  {
    if body == [] {
      assert body + "\n" == "" + "\n" + "";
      ReadLineThenRest("", "");
    } else {
      ReadFinalNewline(body);
      JoinReadAllLines(body);
    }
  }

  lemma {:induction false} ReadFinalNewline(body: string)
    requires '\r' !in body
    requires body != [] && body[|body| - 1] != '\n'
    ensures ReadAllLines(body + "\n") == ReadAllLines(body)
    decreases |body|
  {
    var k := LineBreakIndex(body);
    if k < |body| {
      NoCarriageReturnAfter(body, k);
      var line := body[..k];
      var rest := body[k + 1..];
      SplitAtNewline(body, k);
      assert body + "\n" == line + "\n" + (rest + "\n");
      ReadLineThenRest(line, rest);
      ReadLineThenRest(line, rest + "\n");
      ReadFinalNewline(rest);
    } else {
      assert body + "\n" == body + "\n" + "";
      ReadLineThenRest(body, "");
      assert body[..k] == body;
    }
  }

  /** Writing one more line appends it and its '\n'. */
  lemma {:induction false} TerminatedSnoc(ls: seq<string>, x: string)
    ensures Terminated(ls + [x]) == Terminated(ls) + x + "\n"
  {
    assert (ls + [x])[..|ls|] == ls;
  }
}
