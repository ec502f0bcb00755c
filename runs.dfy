/** Runs of equal fonts.

    Both the loader (which groups consecutive characters of equal font into pieces) and
    saveWithFontInfo (which writes one header line per such group) compute the maximal
    runs of equal fonts, left to right. `Runs` is that computation as a function; the
    lemmas show it is a partition of [0, n) into ascending, end-exclusive ranges whose
    neighbours differ in font, and the only such partition. */
module FontRuns {
  import opened Outcomes
  import opened Styles

  /** The positions start, ..., end - 1, all carrying `font`. */
  datatype Range = Range(start: int, end: int, font: Font)

  predicate Covers(r: Range, k: int)
  {
    r.start <= k < r.end
  }

  function FontsOf(cells: seq<Cell>): (fs: seq<Font>)
    ensures |fs| == |cells|
    ensures forall i :: 0 <= i < |cells| ==> fs[i] == cells[i].font
  {
    seq(|cells|, i requires 0 <= i < |cells| => cells[i].font)
  }

  function CharsOf(cells: seq<Cell>): (s: string)
    ensures |s| == |cells|
    ensures forall i :: 0 <= i < |cells| ==> s[i] == cells[i].character
  {
    seq(|cells|, i requires 0 <= i < |cells| => cells[i].character)
  }

  /** The runs after one more position `n - 1` of font `f`: the last run grows when it has
      font `f`, otherwise a run of length one starts. */
  function Extend(rs: seq<Range>, f: Font, n: nat): (rs': seq<Range>)
    requires n > 0
    ensures rs' != [] && rs'[|rs'| - 1].end == n && rs'[|rs'| - 1].font == f
  {
    if rs != [] && rs[|rs| - 1].font == f then rs[..|rs| - 1] + [Range(rs[|rs| - 1].start, n, f)]
    else rs + [Range(n - 1, n, f)]
  }

  /** The maximal runs of equal fonts in `fs`, computed left to right. */
  function Runs(fs: seq<Font>): (rs: seq<Range>)
    ensures (rs == []) == (fs == [])
    ensures rs != [] ==> rs[|rs| - 1].end == |fs| && rs[|rs| - 1].font == fs[|fs| - 1]
  {
    if fs == [] then [] else Extend(Runs(fs[..|fs| - 1]), fs[|fs| - 1], |fs|)
  }

  /** `rs` tiles [0, |fs|) from left to right, each range non-empty and carrying the font
      of every position it covers. */
  ghost predicate Tiles(rs: seq<Range>, fs: seq<Font>)
    decreases |rs|
  {
    (rs == [] && fs == []) ||
    (rs != [] && 0 <= rs[|rs| - 1].start < rs[|rs| - 1].end == |fs| &&
     (forall k :: rs[|rs| - 1].start <= k < rs[|rs| - 1].end ==> fs[k] == rs[|rs| - 1].font) &&
     Tiles(rs[..|rs| - 1], fs[..rs[|rs| - 1].start]))
  }

  /** Neighbouring ranges carry different fonts. */
  predicate Maximal(rs: seq<Range>)
  {
    forall j :: 0 < j < |rs| ==> rs[j - 1].font != rs[j].font
  }

  /** The ranges partition [0, n): the first starts at 0, each is non-empty, each ends
      where the next starts, and the last ends at n. */
  predicate Partition(rs: seq<Range>, n: int)
  {
    (rs == [] ==> n == 0) &&
    (rs != [] ==> rs[0].start == 0 && rs[|rs| - 1].end == n) &&
    (forall j :: 0 <= j < |rs| ==> rs[j].start < rs[j].end) &&
    (forall j :: 0 < j < |rs| ==> rs[j - 1].end == rs[j].start)
  }

  /** The font the last range covering `k` gives it, if any range does. */
  function RunFontAt(rs: seq<Range>, k: int): Option<Font>
  {
    if rs == [] then None
    else if Covers(rs[|rs| - 1], k) then Some(rs[|rs| - 1].font)
    else RunFontAt(rs[..|rs| - 1], k)
  }

  // ---------------------------------------------------------------- lemmas

  /** The runs tile the fonts and are maximal. */
  lemma {:induction false} RunsTile(fs: seq<Font>)
    ensures Tiles(Runs(fs), fs) && Maximal(Runs(fs))
  {
    if fs != [] {
      RunsTile(fs[..|fs| - 1]);
      ExtendTiles(Runs(fs[..|fs| - 1]), fs);
    }
  }

  /** Extending a maximal tiling of all but the last font by that font gives a maximal
      tiling of all fonts. */
  lemma {:induction false} ExtendTiles(rs: seq<Range>, fs: seq<Font>)
    requires fs != [] && Tiles(rs, fs[..|fs| - 1]) && Maximal(rs)
    ensures Tiles(Extend(rs, fs[|fs| - 1], |fs|), fs) && Maximal(Extend(rs, fs[|fs| - 1], |fs|))
  {
    if rs != [] && rs[|rs| - 1].font == fs[|fs| - 1] {
      GrowLastTile(rs, fs);
    } else {
      AddTile(rs, fs);
    }
  }

  lemma {:induction false} GrowLastTile(rs: seq<Range>, fs: seq<Font>)
    requires fs != [] && Tiles(rs, fs[..|fs| - 1]) && Maximal(rs)
    requires rs != [] && rs[|rs| - 1].font == fs[|fs| - 1]
    ensures Tiles(rs[..|rs| - 1] + [Range(rs[|rs| - 1].start, |fs|, fs[|fs| - 1])], fs)
    ensures Maximal(rs[..|rs| - 1] + [Range(rs[|rs| - 1].start, |fs|, fs[|fs| - 1])])
  {
    var rs' := rs[..|rs| - 1] + [Range(rs[|rs| - 1].start, |fs|, fs[|fs| - 1])];
    assert rs'[..|rs'| - 1] == rs[..|rs| - 1];
    assert fs[..rs[|rs| - 1].start] == fs[..|fs| - 1][..rs[|rs| - 1].start];
    forall k | rs[|rs| - 1].start <= k < |fs|
      ensures fs[k] == fs[|fs| - 1]
    {
      if k < |fs| - 1 {
        assert fs[k] == fs[..|fs| - 1][k];
      }
    }
  }

  lemma {:induction false} AddTile(rs: seq<Range>, fs: seq<Font>)
    requires fs != [] && Tiles(rs, fs[..|fs| - 1]) && Maximal(rs)
    requires rs == [] || rs[|rs| - 1].font != fs[|fs| - 1]
    ensures Tiles(rs + [Range(|fs| - 1, |fs|, fs[|fs| - 1])], fs)
    ensures Maximal(rs + [Range(|fs| - 1, |fs|, fs[|fs| - 1])])
  {
    assert (rs + [Range(|fs| - 1, |fs|, fs[|fs| - 1])])[..|rs|] == rs;
  }

  /** A tiling covers each position with the font of that position, and nothing else. */
  lemma {:induction false} TilesCover(rs: seq<Range>, fs: seq<Font>, k: int)
    requires Tiles(rs, fs)
    ensures RunFontAt(rs, k) == if 0 <= k < |fs| then Some(fs[k]) else None
    decreases |rs|
  {
    if rs != [] {
      var last := rs[|rs| - 1];
      if !Covers(last, k) {
        TilesCover(rs[..|rs| - 1], fs[..last.start], k);
      }
    }
  }

  /** A tiling is an ascending partition of [0, |fs|) whose ranges carry the font at
      their start. */
  lemma {:induction false} TilesPartition(rs: seq<Range>, fs: seq<Font>)
    requires Tiles(rs, fs)
    ensures Partition(rs, |fs|)
    ensures forall j :: 0 <= j < |rs| ==> 0 <= rs[j].start < rs[j].end <= |fs| && rs[j].font == fs[rs[j].start]
    decreases |rs|
  {
    if rs != [] {
      var pre := rs[..|rs| - 1];
      var last := rs[|rs| - 1];
      TilesPartition(pre, fs[..last.start]);
      if pre == [] {
        assert last.start == 0;
      }
    }
  }

  /** Appending a block of one font that differs from the font before it adds exactly one run. */
  lemma {:induction false} RunsExtend(fs: seq<Font>, s: nat, f: Font)
    requires s < |fs|
    requires forall k :: s <= k < |fs| ==> fs[k] == f
    requires s == 0 || fs[s - 1] != f
    ensures Runs(fs) == Runs(fs[..s]) + [Range(s, |fs|, f)]
    decreases |fs|
  {
    var n := |fs|;
    var fs' := fs[..n - 1];
    assert fs'[..s] == fs[..s];
    if n - 1 > s {
      RunsExtend(fs', s, f);
    }
  }

  /** The maximal partition is unique: any maximal tiling of `fs` is `Runs(fs)`. */
  lemma {:induction false} RunsUnique(rs: seq<Range>, fs: seq<Font>)
    requires Tiles(rs, fs) && Maximal(rs)
    ensures rs == Runs(fs)
    decreases |rs|
  {
    if rs != [] {
      var pre := rs[..|rs| - 1];
      var last := rs[|rs| - 1];
      var s := last.start;
      assert Maximal(pre);
      RunsUnique(pre, fs[..s]);
      if s > 0 {
        TilesPartition(pre, fs[..s]);
        assert pre[|pre| - 1].end == s;
        assert fs[..s][s - 1] == fs[s - 1];
      }
      RunsExtend(fs, s, last.font);
    }
  }

  /** The runs of `fs` are an ascending partition of [0, |fs|) in which neighbours differ
      in font. */
  lemma {:induction false} RunsPartition(fs: seq<Font>)
    ensures Partition(Runs(fs), |fs|) && Maximal(Runs(fs))
  {
    RunsTile(fs);
    TilesPartition(Runs(fs), fs);
  }

  /** Each run lies within the fonts and carries the font of every position it covers. */
  lemma {:induction false} RunsCarryFonts(fs: seq<Font>)
    ensures forall j :: 0 <= j < |Runs(fs)| ==>
      forall k :: Covers(Runs(fs)[j], k) ==> 0 <= k < |fs| && fs[k] == Runs(fs)[j].font
  {
    RunsTile(fs);
    forall j | 0 <= j < |Runs(fs)|
      ensures forall k :: Covers(Runs(fs)[j], k) ==> 0 <= k < |fs| && fs[k] == Runs(fs)[j].font
    {
      forall k | Covers(Runs(fs)[j], k)
        ensures 0 <= k < |fs| && fs[k] == Runs(fs)[j].font
      {
        RunFontOfTile(Runs(fs), fs, j, k);
      }
    }
  }

  lemma {:induction false} RunFontOfTile(rs: seq<Range>, fs: seq<Font>, j: int, k: int)
    requires Tiles(rs, fs)
    requires 0 <= j < |rs| && Covers(rs[j], k)
    ensures 0 <= k < |fs| && fs[k] == rs[j].font
    decreases |rs|
  {
    var last := rs[|rs| - 1];
    if j < |rs| - 1 {
      var pre := rs[..|rs| - 1];
      assert pre[j] == rs[j];
      RunFontOfTile(pre, fs[..last.start], j, k);
    }
  }

  /** RunFontAt is "last writer wins": it is None exactly when no range covers `k`, and
      otherwise the font of a covering range that no later range overrides. */
  lemma {:induction false} RunFontAtLastWriter(rs: seq<Range>, k: int)
    ensures RunFontAt(rs, k).None? <==> forall j :: 0 <= j < |rs| ==> !Covers(rs[j], k)
    ensures RunFontAt(rs, k).Some? ==>
      exists j :: 0 <= j < |rs| && Covers(rs[j], k) && rs[j].font == RunFontAt(rs, k).value &&
        forall j' :: j < j' < |rs| ==> !Covers(rs[j'], k)
    decreases |rs|
  {
    if rs != [] {
      var n := |rs| - 1;
      var pre := rs[..n];
      RunFontAtLastWriter(pre, k);
      if Covers(rs[n], k) {
        assert rs[n].font == RunFontAt(rs, k).value;
      } else if RunFontAt(pre, k).Some? {
        var j :| 0 <= j < |pre| && Covers(pre[j], k) && pre[j].font == RunFontAt(pre, k).value &&
          forall j' :: j < j' < |pre| ==> !Covers(pre[j'], k);
        assert rs[j] == pre[j];
        forall j' | j < j' < |rs|
          ensures !Covers(rs[j'], k)
        {
          if j' < n {
            assert rs[j'] == pre[j'];
          }
        }
      } else {
        forall j | 0 <= j < |rs|
          ensures !Covers(rs[j], k)
        {
          if j < n {
            assert rs[j] == pre[j];
          }
        }
      }
    }
  }

  /** One more position, as the loader and saveWithFontInfo scan them: a position with the
      font of the open run extends it, any other font closes it and opens a new one. */
  lemma {:induction false} RunsGrow(fs: seq<Font>, i: int, ps: seq<Range>, start: int, cur: Font)
    requires 0 < i < |fs|
    requires ps + [Range(start, i, cur)] == Runs(fs[..i])
    ensures fs[i] == cur ==> ps + [Range(start, i + 1, cur)] == Runs(fs[..i + 1])
    ensures fs[i] != cur ==> ps + [Range(start, i, cur)] + [Range(i, i + 1, fs[i])] == Runs(fs[..i + 1])
  {
    assert fs[..i + 1][..i] == fs[..i];
    var rs := Runs(fs[..i]);
    assert rs[..|rs| - 1] == ps;
  }
}
