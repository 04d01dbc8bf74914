/** `assign_levels(spans, top_n)` of src/classifier.py: the `top_n`
    largest distinct sizes become H1..Hk, and the spans of those sizes are
    kept in input order. The frequency count the code builds is never
    consulted; only its keys (the distinct sizes) are used. */
module Classifier {
  import opened Ranking
  import opened Levels

  /** A word of the pdfplumber extractor. Font name and x position are
      carried by the source but not read here. */
  datatype Span = Span(text: string, size: real, page: int)

  function SpanSizes(spans: seq<Span>): (r: seq<real>)
    ensures |r| == |spans|
    ensures forall i :: 0 <= i < |spans| ==> r[i] == spans[i].size
  {
    if |spans| == 0 then [] else [spans[0].size] + SpanSizes(spans[1..])
  }

  function Min(a: nat, b: nat): nat {
    if a <= b then a else b
  }

  /** `sorted(size_counts, reverse=True)[:top_n]`: at most `topN` sizes,
      the largest ones, in descending order. */
  function CommonSizes(spans: seq<Span>, topN: nat): (r: seq<real>)
    ensures StrictlyDecreasing(r)
    ensures |r| == Min(topN, |DistinctDesc(SpanSizes(spans))|)
    ensures r == DistinctDesc(SpanSizes(spans))[..|r|]
  {
    var d := DistinctDesc(SpanSizes(spans));
    if topN <= |d| then d[..topN] else d
  }

  /** The output entry for a span whose size has a level. */
  function EntryOf(sp: Span, common: seq<real>): Entry
    requires StrictlyDecreasing(common) && sp.size in common
  {
    Entry(Rank(common, sp.size), sp.text, sp.page)
  }

  /** The loop over `spans` from position `i`: one entry per span whose
      size has a level. */
  function EmitFrom(spans: seq<Span>, common: seq<real>, i: nat): seq<Entry>
    requires StrictlyDecreasing(common) && i <= |spans|
    decreases |spans| - i
  {
    if i == |spans| then []
    else (if spans[i].size in common then [EntryOf(spans[i], common)] else [])
         + EmitFrom(spans, common, i + 1)
  }

  /** `assign_levels(spans, top_n)` for a non-negative `top_n`, which
      defaults to 3. */
  function AssignLevels(spans: seq<Span>, topN: nat := 3): (r: seq<Entry>)
    ensures |spans| == 0 || topN == 0 ==> r == []
  {
    var common := CommonSizes(spans, topN);
    assert topN == 0 ==> common == [];
    EmitNone(spans, common, 0);
    EmitFrom(spans, common, 0)
  }

  lemma {:induction false} EmitNone(spans: seq<Span>, common: seq<real>, i: nat)
    requires StrictlyDecreasing(common) && i <= |spans|
    ensures common == [] ==> EmitFrom(spans, common, i) == []
    decreases |spans| - i
  {
    if i < |spans| { EmitNone(spans, common, i + 1); }
  }

  /** The positions from `i` on whose span is kept, in increasing order. */
  function KeptFrom(spans: seq<Span>, common: seq<real>, i: nat): (idx: seq<nat>)
    requires i <= |spans|
    ensures forall k :: 0 <= k < |idx| ==> i <= idx[k] < |spans| && spans[idx[k]].size in common
    ensures forall k, l :: 0 <= k < l < |idx| ==> idx[k] < idx[l]
    ensures forall j :: i <= j < |spans| && spans[j].size in common ==> j in idx
    decreases |spans| - i
  {
    if i == |spans| then []
    else (if spans[i].size in common then [i] else []) + KeptFrom(spans, common, i + 1)
  }

  /** The positions of the kept spans. */
  function Kept(spans: seq<Span>, topN: nat): seq<nat> {
    KeptFrom(spans, CommonSizes(spans, topN), 0)
  }

  lemma {:induction false} EmitFromIsSubsequence(spans: seq<Span>, common: seq<real>, i: nat)
    requires StrictlyDecreasing(common) && i <= |spans|
    ensures |EmitFrom(spans, common, i)| == |KeptFrom(spans, common, i)|
    ensures forall k :: 0 <= k < |KeptFrom(spans, common, i)| ==>
      EmitFrom(spans, common, i)[k] == EntryOf(spans[KeptFrom(spans, common, i)[k]], common)
    decreases |spans| - i
  {
    if i < |spans| {
      EmitFromIsSubsequence(spans, common, i + 1);
      var e := EmitFrom(spans, common, i + 1);
      var idx := KeptFrom(spans, common, i + 1);
      if spans[i].size in common {
        EmitStep(spans, common, i, e, idx);
      } else {
        assert EmitFrom(spans, common, i) == e;
        assert KeptFrom(spans, common, i) == idx;
      }
    }
  }

  /** A kept span at position `i` puts its entry in front of the rest. */
  lemma EmitStep(spans: seq<Span>, common: seq<real>, i: nat, e: seq<Entry>, idx: seq<nat>)
    requires StrictlyDecreasing(common) && i < |spans| && spans[i].size in common
    requires e == EmitFrom(spans, common, i + 1) && idx == KeptFrom(spans, common, i + 1)
    requires |e| == |idx|
    requires forall k :: 0 <= k < |idx| ==> e[k] == EntryOf(spans[idx[k]], common)
    ensures |EmitFrom(spans, common, i)| == |KeptFrom(spans, common, i)|
    ensures forall k :: 0 <= k < |KeptFrom(spans, common, i)| ==>
      EmitFrom(spans, common, i)[k] == EntryOf(spans[KeptFrom(spans, common, i)[k]], common)
  {
    var e' := EmitFrom(spans, common, i);
    var idx' := KeptFrom(spans, common, i);
    assert e' == [EntryOf(spans[i], common)] + e;
    assert idx' == [i] + idx;
    forall k | 0 <= k < |idx'| ensures e'[k] == EntryOf(spans[idx'[k]], common) {
      if k > 0 { assert e'[k] == e[k - 1] && idx'[k] == idx[k - 1]; }
    }
  }

  /** The output is the subsequence of the input formed by the kept spans,
      in their original order: entry `k` is made from span `Kept[k]`,
      copying its text and page, and every kept position is listed. */
  lemma AssignLevelsIsSubsequence(spans: seq<Span>, topN: nat)
    ensures var r := AssignLevels(spans, topN); var idx := Kept(spans, topN);
      && |r| == |idx|
      && (forall k, l :: 0 <= k < l < |idx| ==> idx[k] < idx[l])
      && (forall j :: 0 <= j < |spans| ==> (j in idx <==> spans[j].size in CommonSizes(spans, topN)))
      && (forall k :: 0 <= k < |idx| ==>
            r[k] == Entry(Rank(CommonSizes(spans, topN), spans[idx[k]].size), spans[idx[k]].text, spans[idx[k]].page))
  {
    EmitFromIsSubsequence(spans, CommonSizes(spans, topN), 0);
  }

  /** Membership in a prefix of a strictly decreasing listing is a matter
      of position. */
  lemma InPrefixIff(d: seq<real>, n: nat, x: real)
    requires StrictlyDecreasing(d) && x in d && n <= |d|
    ensures x in d[..n] <==> IndexOf(d, x) < n
  {
    if x in d[..n] {
      var j :| 0 <= j < n && d[..n][j] == x;
      RankOfPosition(d, j);
    }
    if IndexOf(d, x) < n {
      assert d[..n][IndexOf(d, x)] == x;
    }
  }

  /** Which spans are kept: exactly those whose size is among the `topN`
      largest distinct sizes, that is, fewer than `topN` distinct sizes
      are strictly larger. */
  lemma KeptIff(spans: seq<Span>, topN: nat, i: nat)
    requires i < |spans|
    ensures spans[i].size in CommonSizes(spans, topN) <==>
      |Above(SpanSizes(spans), spans[i].size)| < topN
  {
    var sizes := SpanSizes(spans);
    var d := DistinctDesc(sizes);
    var x := spans[i].size;
    assert x in sizes;
    RankOfDistinct(sizes, x);
    var c := CommonSizes(spans, topN);
    InPrefixIff(d, |c|, x);
  }

  /** A level of the kept prefix is the level in the full ranking. */
  lemma RankInPrefix(d: seq<real>, n: nat, x: real)
    requires StrictlyDecreasing(d) && n <= |d| && x in d[..n]
    ensures StrictlyDecreasing(d[..n]) && Rank(d[..n], x) == Rank(d, x)
  {
    var j := IndexOf(d[..n], x);
    RankOfPosition(d[..n], j);
    RankOfPosition(d, j);
  }

  /** Every emitted level is one more than the number of distinct input
      sizes strictly larger than the span's, so the largest size is H1
      and a larger size always has a smaller level; levels run from 1 to
      `min(topN, number of distinct sizes)`. */
  lemma LevelIsRank(spans: seq<Span>, topN: nat, sp: Span)
    requires sp in spans && sp.size in CommonSizes(spans, topN)
    ensures EntryOf(sp, CommonSizes(spans, topN)).level == |Above(SpanSizes(spans), sp.size)| + 1
    ensures EntryOf(sp, CommonSizes(spans, topN)).level <= |CommonSizes(spans, topN)|
  {
    var sizes := SpanSizes(spans);
    var d := DistinctDesc(sizes);
    var c := CommonSizes(spans, topN);
    RankInPrefix(d, |c|, sp.size);
    var i :| 0 <= i < |spans| && spans[i] == sp;
    assert sizes[i] == sp.size;
    RankOfDistinct(sizes, sp.size);
  }

  /** Larger sizes get smaller levels, equal sizes equal levels. */
  lemma LevelMonotone(spans: seq<Span>, topN: nat, a: Span, b: Span)
    requires a.size in CommonSizes(spans, topN) && b.size in CommonSizes(spans, topN)
    ensures var c := CommonSizes(spans, topN);
      && (a.size > b.size <==> EntryOf(a, c).level < EntryOf(b, c).level)
      && (a.size == b.size <==> EntryOf(a, c).level == EntryOf(b, c).level)
  {
    RankMonotone(CommonSizes(spans, topN), a.size, b.size);
  }

  /** With at least one span and `topN >= 1`, the largest size present has
      level H1 and every span of that size is kept. */
  lemma LargestIsH1(spans: seq<Span>, topN: nat, sp: Span)
    requires topN >= 1 && sp in spans
    requires forall i :: 0 <= i < |spans| ==> spans[i].size <= sp.size
    ensures sp.size in CommonSizes(spans, topN)
    ensures EntryOf(sp, CommonSizes(spans, topN)).level == 1
  {
    var sizes := SpanSizes(spans);
    var i :| 0 <= i < |spans| && spans[i] == sp;
    assert sizes[i] == sp.size;
    assert Above(sizes, sp.size) == {} by {
      forall y | y in sizes ensures y <= sp.size {
        var j :| 0 <= j < |sizes| && sizes[j] == y;
        assert spans[j].size == y;
      }
    }
    KeptIff(spans, topN, i);
    LevelIsRank(spans, topN, sp);
  }

  /** With the default `top_n`, only H1, H2 and H3 are ever assigned. */
  lemma DefaultAtMostThreeLevels(spans: seq<Span>)
    ensures forall k :: 0 <= k < |AssignLevels(spans)| ==> 1 <= AssignLevels(spans)[k].level <= 3
  {
    AssignLevelsIsSubsequence(spans, 3);
  }
}
