/** Raising every block's font size by the same amount leaves the outline
    of `build_outline` (Challenge_1a/process_pdfs.py) unchanged: the mean
    moves with the sizes, the population standard deviation does not, and
    levels are ranks among the heading sizes. */
module Invariance {
  import opened Stats
  import opened Ranking
  import opened Extraction
  import opened Outline

  function Raised(b: Block, c: real): Block {
    b.(fontSize := b.fontSize + c)
  }

  /** Every block's font size raised by `c`, nothing else touched. */
  function Raise(blocks: seq<Block>, c: real): (r: seq<Block>)
    ensures |r| == |blocks|
    ensures forall i :: 0 <= i < |blocks| ==> r[i] == Raised(blocks[i], c)
  {
    if |blocks| == 0 then [] else [Raised(blocks[0], c)] + Raise(blocks[1..], c)
  }

  lemma SizesRaise(blocks: seq<Block>, c: real)
    ensures Sizes(Raise(blocks, c)) == Shift(Sizes(blocks), c)
  {
  }

  lemma RaiseAppend(a: seq<Block>, b: seq<Block>, c: real)
    ensures Raise(a + b, c) == Raise(a, c) + Raise(b, c)
  {
  }

  lemma RaiseSorted(s: seq<Block>, c: real)
    requires SortedByKey(s)
    ensures SortedByKey(Raise(s, c))
  {
    var r := Raise(s, c);
    forall i, j | 0 <= i < j < |r| ensures KeyLe(r[i], r[j]) {
      assert KeyLe(s[i], s[j]);
    }
  }

  /** Raising the sizes and the threshold together admits the same blocks. */
  lemma {:induction false} AdmittedRaise(blocks: seq<Block>, t: real, c: real)
    ensures Admitted(Raise(blocks, c), t + c) == Raise(Admitted(blocks, t), c)
  {
    if |blocks| > 0 {
      AdmittedRaise(blocks[1..], t, c);
      assert Raise(blocks, c)[1..] == Raise(blocks[1..], c);
      var head := if blocks[0].fontSize >= t then [blocks[0]] else [];
      RaiseAppend(head, Admitted(blocks[1..], t), c);
    }
  }

  lemma {:induction false} InsertRaise(x: Block, s: seq<Block>, c: real)
    requires SortedByKey(s)
    ensures SortedByKey(Raise(s, c))
    ensures InsertByKey(Raised(x, c), Raise(s, c)) == Raise(InsertByKey(x, s), c)
  {
    RaiseSorted(s, c);
    if |s| > 0 {
      if KeyLe(x, s[0]) {
        RaiseAppend([x], s, c);
      } else {
        assert Raise(s, c)[1..] == Raise(s[1..], c);
        InsertRaise(x, s[1..], c);
        RaiseAppend([s[0]], InsertByKey(x, s[1..]), c);
      }
    }
  }

  /** The (page, block) sort does not look at sizes. */
  lemma {:induction false} SortRaise(s: seq<Block>, c: real)
    ensures SortByKey(Raise(s, c)) == Raise(SortByKey(s), c)
  {
    if |s| > 0 {
      assert Raise(s, c)[1..] == Raise(s[1..], c);
      SortRaise(s[1..], c);
      InsertRaise(s[0], SortByKey(s[1..]), c);
    }
  }

  lemma DistinctShift(xs: seq<real>, c: real)
    ensures DistinctDesc(Shift(xs, c)) == Shift(DistinctDesc(xs), c)
  {
    var d := DistinctDesc(xs);
    ShiftSubset(d, xs, c);
    ShiftSubset(xs, d, c);
    ShiftDecreasing(d, c);
    DecreasingListingUnique(DistinctDesc(Shift(xs, c)), Shift(d, c));
  }

  /** Shifting preserves inclusion of members. */
  lemma ShiftSubset(a: seq<real>, b: seq<real>, c: real)
    requires forall x :: x in a ==> x in b
    ensures forall y :: y in Shift(a, c) ==> y in Shift(b, c)
  {
    var sa := Shift(a, c);
    var sb := Shift(b, c);
    forall y | y in sa ensures y in sb {
      var k :| 0 <= k < |sa| && sa[k] == y;
      assert a[k] in b;
      var j :| 0 <= j < |b| && b[j] == a[k];
      assert sb[j] == y;
    }
  }

  lemma RankShift(d: seq<real>, x: real, c: real)
    requires StrictlyDecreasing(d) && x in d
    ensures StrictlyDecreasing(Shift(d, c)) && x + c in Shift(d, c)
    ensures Rank(Shift(d, c), x + c) == Rank(d, x)
  {
    var k := IndexOf(d, x);
    RankOfPosition(d, k);
    assert Shift(d, c)[k] == x + c;
    RankOfPosition(Shift(d, c), k);
  }

  /** The raised sizes keep their standard deviation and raise the
      threshold by the same amount. */
  lemma ThresholdRaise(blocks: seq<Block>, sd: real, c: real)
    requires IsPStdDev(Sizes(blocks), sd) && |blocks| > 0
    ensures IsPStdDev(Sizes(Raise(blocks, c)), sd)
    ensures Threshold(Raise(blocks, c), sd) == Threshold(blocks, sd) + c
  {
    SizesRaise(blocks, c);
    ShiftMoments(Sizes(blocks), c);
  }

  /** The raised blocks admit the raised heads. */
  lemma HeadsRaise(blocks: seq<Block>, sd: real, c: real)
    requires IsPStdDev(Sizes(blocks), sd) && |blocks| > 0
    ensures Heads(Raise(blocks, c), sd) == Raise(Heads(blocks, sd), c)
  {
    ThresholdRaise(blocks, sd, c);
    AdmittedRaise(blocks, Threshold(blocks, sd), c);
  }

  /** The raised blocks emit their heads in the same order. */
  lemma OrderedRaise(blocks: seq<Block>, sd: real, c: real)
    requires IsPStdDev(Sizes(blocks), sd) && |blocks| > 0
    ensures Ordered(Raise(blocks, c), sd) == Raise(Ordered(blocks, sd), c)
  {
    HeadsRaise(blocks, sd, c);
    SortRaise(Heads(blocks, sd), c);
  }

  /** The distinct heading sizes are raised with the blocks. */
  lemma LevelSizesRaise(blocks: seq<Block>, sd: real, c: real)
    requires IsPStdDev(Sizes(blocks), sd) && |blocks| > 0
    ensures LevelSizes(Raise(blocks, c), sd) == Shift(LevelSizes(blocks, sd), c)
  {
    HeadsRaise(blocks, sd, c);
    SizesRaise(Heads(blocks, sd), c);
    DistinctShift(Sizes(Heads(blocks, sd)), c);
  }

  /** The raised blocks' sizes are among the raised sizes, which stay
      strictly decreasing. */
  lemma RaisedRanked(ordered: seq<Block>, ranks: seq<real>, c: real)
    requires StrictlyDecreasing(ranks)
    requires forall i :: 0 <= i < |ordered| ==> ordered[i].fontSize in ranks
    ensures StrictlyDecreasing(Shift(ranks, c))
    ensures forall i :: 0 <= i < |ordered| ==> Raise(ordered, c)[i].fontSize in Shift(ranks, c)
  {
    ShiftDecreasing(ranks, c);
    var up := Raise(ordered, c);
    forall i | 0 <= i < |ordered| ensures up[i].fontSize in Shift(ranks, c) {
      RaisedSizeAt(ordered, c, i);
      ShiftMember(ranks, ordered[i].fontSize, c);
    }
  }

  lemma RaisedSizeAt(ordered: seq<Block>, c: real, i: nat)
    requires i < |ordered|
    ensures Raise(ordered, c)[i].fontSize == ordered[i].fontSize + c
  {
  }

  lemma ShiftDecreasing(d: seq<real>, c: real)
    requires StrictlyDecreasing(d)
    ensures StrictlyDecreasing(Shift(d, c))
  {
    var e := Shift(d, c);
    forall i, j | 0 <= i < j < |e| ensures e[i] > e[j] {
      assert d[i] > d[j];
    }
  }

  lemma ShiftMember(d: seq<real>, x: real, c: real)
    requires x in d
    ensures x + c in Shift(d, c)
  {
    var k :| 0 <= k < |d| && d[k] == x;
    assert Shift(d, c)[k] == x + c;
  }

  /** Levelling the raised blocks against the raised sizes gives the
      same entries. */
  lemma EntriesRaise(ordered: seq<Block>, ranks: seq<real>, c: real)
    requires StrictlyDecreasing(ranks)
    requires forall i :: 0 <= i < |ordered| ==> ordered[i].fontSize in ranks
    ensures StrictlyDecreasing(Shift(ranks, c))
    ensures forall i :: 0 <= i < |ordered| ==> Raise(ordered, c)[i].fontSize in Shift(ranks, c)
    ensures Entries(Raise(ordered, c), Shift(ranks, c)) == Entries(ordered, ranks)
  {
    RaisedRanked(ordered, ranks, c);
    var r1 := Entries(Raise(ordered, c), Shift(ranks, c));
    var r2 := Entries(ordered, ranks);
    forall i | 0 <= i < |ordered| ensures r1[i] == r2[i] {
      EntryRaiseAt(ordered, ranks, c, i);
    }
  }

  lemma EntryRaiseAt(ordered: seq<Block>, ranks: seq<real>, c: real, i: nat)
    requires StrictlyDecreasing(ranks)
    requires forall i :: 0 <= i < |ordered| ==> ordered[i].fontSize in ranks
    requires StrictlyDecreasing(Shift(ranks, c))
    requires forall i :: 0 <= i < |ordered| ==> Raise(ordered, c)[i].fontSize in Shift(ranks, c)
    requires i < |ordered|
    ensures Entries(Raise(ordered, c), Shift(ranks, c))[i] == Entries(ordered, ranks)[i]
  {
    RankShift(ranks, ordered[i].fontSize, c);
  }

  /** The outline of the raised blocks is the outline of the blocks, entry
      for entry: same headings, same levels, same order. */
  lemma OutlineShiftInvariant(blocks: seq<Block>, sd: real, c: real)
    requires IsPStdDev(Sizes(blocks), sd)
    ensures IsPStdDev(Sizes(Raise(blocks, c)), sd)
    ensures BuildOutline(Raise(blocks, c), sd) == BuildOutline(blocks, sd)
  {
    if |blocks| > 0 {
      ThresholdRaise(blocks, sd, c);
      HeadsRaise(blocks, sd, c);
      OrderedRaise(blocks, sd, c);
      LevelSizesRaise(blocks, sd, c);
      if |Heads(blocks, sd)| > 0 {
        var ordered := Ordered(blocks, sd);
        forall i | 0 <= i < |ordered| ensures ordered[i].fontSize in LevelSizes(blocks, sd) {
          OrderedSizesRanked(blocks, sd, i);
        }
        EntriesRaise(ordered, LevelSizes(blocks, sd), c);
      }
    }
  }
}
