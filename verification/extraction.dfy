/** The per-block aggregation of `extract_blocks` in
    Challenge_1a/process_pdfs.py. The PDF library's page dictionary is
    given as data: pages of blocks, blocks of lines, lines of spans. */
module Extraction {
  import opened Wrappers
  import opened Text
  import opened Stats

  /** One text run of `page.get_text("dict")`; `size` is `None` when the
      span has no "size" key, which the code reads as 0. */
  datatype Span = Span(text: string, size: Option<real>)

  datatype Line = Line(spans: seq<Span>)

  /** A block of the page dictionary. Only text blocks carry "lines";
      the others (images) are skipped. */
  datatype RawBlock = TextBlock(number: int, lines: seq<Line>) | OtherBlock(number: int)

  datatype Page = Page(blocks: seq<RawBlock>)

  /** An opened document: its path, the "title" entry of its metadata
      (`None` when the metadata, the key or its value is missing) and its
      pages. */
  datatype Pdf = Pdf(name: string, metadataTitle: Option<string>, pages: seq<Page>)

  /** One record of the block list: 1-based page, the extractor's block
      number, the joined text and the character-weighted font size. */
  datatype Block = Block(page: nat, block: int, text: string, fontSize: real)

  function SpanSize(sp: Span): real {
    sp.size.GetOr(0.0)
  }

  /** The spans of all lines, in reading order. */
  function LineSpans(lines: seq<Line>): seq<Span> {
    if |lines| == 0 then [] else lines[0].spans + LineSpans(lines[1..])
  }

  function SpanTexts(spans: seq<Span>): (r: seq<string>)
    ensures |r| == |spans|
    ensures forall i :: 0 <= i < |spans| ==> r[i] == spans[i].text
  {
    if |spans| == 0 then [] else [spans[0].text] + SpanTexts(spans[1..])
  }

  /** Total number of characters, `sum(len(span["text"]))`. */
  function CharCount(spans: seq<Span>): nat {
    if |spans| == 0 then 0 else |spans[0].text| + CharCount(spans[1..])
  }

  /** `sum(size * len(text))`, a missing size counting as 0. */
  function WeightedSize(spans: seq<Span>): real {
    if |spans| == 0 then 0.0
    else SpanSize(spans[0]) * |spans[0].text| as real + WeightedSize(spans[1..])
  }

  /** The block's font size: the mean of the span sizes weighted by their
      character counts, and 0 when the spans hold no character at all. */
  function MeanFontSize(spans: seq<Span>): (r: real)
    ensures CharCount(spans) == 0 ==> r == 0.0
    ensures CharCount(spans) > 0 ==> r * CharCount(spans) as real == WeightedSize(spans)
  {
    var n := CharCount(spans);
    if n == 0 then 0.0 else WeightedSize(spans) / n as real
  }

  /** Every span that contributes characters has a size within `[lo, hi]`. */
  predicate SizesWithin(spans: seq<Span>, lo: real, hi: real) {
    forall i :: 0 <= i < |spans| && |spans[i].text| > 0 ==> lo <= SpanSize(spans[i]) <= hi
  }

  lemma {:induction false} WeightedSizeWithin(spans: seq<Span>, lo: real, hi: real)
    requires SizesWithin(spans, lo, hi)
    ensures lo * CharCount(spans) as real <= WeightedSize(spans) <= hi * CharCount(spans) as real
  {
    if |spans| > 0 {
      var rest := spans[1..];
      SizesWithinTail(spans, lo, hi);
      WeightedSizeWithin(rest, lo, hi);
      SumsCons(spans);
      assert |spans[0].text| > 0 ==> lo <= SpanSize(spans[0]) <= hi;
      WeightedStep(lo, hi, SpanSize(spans[0]), |spans[0].text| as real, CharCount(rest) as real,
        WeightedSize(rest), CharCount(spans) as real, WeightedSize(spans));
    }
  }

  /** One span added to spans whose weighted sum is within bounds keeps the
      weighted sum within bounds. */
  lemma WeightedStep(lo: real, hi: real, s: real, n: real, m: real, w: real, total: real, ws: real)
    requires n >= 0.0 && (n > 0.0 ==> lo <= s <= hi)
    requires lo * m <= w <= hi * m
    requires total == n + m && ws == s * n + w
    ensures lo * total <= ws <= hi * total
  {
    ScaledWithin(lo, hi, s, n);
    AccumulateWithin(lo, hi, s, n, m, w);
  }

  /** One step of the two sums behind the weighted mean. */
  lemma SumsCons(spans: seq<Span>)
    requires |spans| > 0
    ensures CharCount(spans) as real == |spans[0].text| as real + CharCount(spans[1..]) as real
    ensures WeightedSize(spans) == SpanSize(spans[0]) * |spans[0].text| as real + WeightedSize(spans[1..])
  {
  }

  lemma SizesWithinTail(spans: seq<Span>, lo: real, hi: real)
    requires |spans| > 0 && SizesWithin(spans, lo, hi)
    ensures SizesWithin(spans[1..], lo, hi)
  {
    forall i | 0 <= i < |spans| - 1 && |spans[1..][i].text| > 0
      ensures lo <= SpanSize(spans[1..][i]) <= hi
    {
      assert spans[1..][i] == spans[i + 1];
    }
  }

  /** One step of the weighted sum: adding `n` characters of size `s`. */
  lemma ScaledWithin(lo: real, hi: real, s: real, n: real)
    requires n >= 0.0 && (n > 0.0 ==> lo <= s <= hi)
    ensures lo * n <= s * n <= hi * n || n == 0.0
  {
    if n > 0.0 {
      MulMono(lo, s, n);
      MulMono(s, hi, n);
    }
  }

  lemma AccumulateWithin(lo: real, hi: real, s: real, n: real, m: real, w: real)
    requires n >= 0.0
    requires lo * n <= s * n <= hi * n || n == 0.0
    requires lo * m <= w <= hi * m
    ensures lo * (n + m) <= s * n + w <= hi * (n + m)
  {
    assert lo * (n + m) == lo * n + lo * m;
    assert hi * (n + m) == hi * n + hi * m;
  }

  /** The weighted mean lies between the smallest and the largest size of
      the spans that have characters; with positive sizes it is positive,
      so a block's size is 0 only when it has no characters. */
  lemma MeanFontSizeWithin(spans: seq<Span>, lo: real, hi: real)
    requires SizesWithin(spans, lo, hi) && CharCount(spans) > 0
    ensures lo <= MeanFontSize(spans) <= hi
  {
    WeightedSizeWithin(spans, lo, hi);
    DivWithin(WeightedSize(spans), CharCount(spans) as real, lo, hi);
  }

  /** The span texts of a block joined by single spaces, in reading order. */
  function JoinedText(lines: seq<Line>): string {
    Join(SpanTexts(LineSpans(lines)), " ")
  }

  /** `" ".join(span texts).strip()`: the joined span texts with the
      whitespace at both ends cut off and nothing else changed; blank
      exactly when the joined texts are all whitespace. */
  function BlockText(lines: seq<Line>): (r: string)
    ensures IsStripped(r)
    ensures var joined := JoinedText(lines);
      exists lo :: 0 <= lo <= |joined| - |r| && r == joined[lo..lo + |r|]
                   && AllSpace(joined[..lo]) && AllSpace(joined[lo + |r|..])
    ensures r == [] <==> AllSpace(JoinedText(lines))
  {
    var joined := JoinedText(lines);
    StripIsTrimmedInfix(joined);
    StripEmptyIffAllSpace(joined);
    Strip(joined)
  }

  /** Span `k` of a block appears in the joined text at its offset, with a
      single space after it unless it is the last span. */
  lemma JoinedTextSpan(lines: seq<Line>, k: nat)
    requires k < |LineSpans(lines)|
    ensures var spans := LineSpans(lines); var joined := JoinedText(lines);
      var o := JoinOffset(SpanTexts(spans), " ", k);
      && o + |spans[k].text| <= |joined|
      && joined[o..o + |spans[k].text|] == spans[k].text
      && (k + 1 < |spans| ==> o + |spans[k].text| < |joined| && joined[o + |spans[k].text|] == ' ')
  {
    var spans := LineSpans(lines);
    JoinLayout(SpanTexts(spans), " ", k);
    if k + 1 < |spans| {
      var joined := JoinedText(lines);
      var e := JoinOffset(SpanTexts(spans), " ", k) + |spans[k].text|;
      assert joined[e..e + 1][0] == joined[e];
    }
  }

  /** The record built for one text block of page `pg` (0-based). */
  function Record(pg: nat, number: int, lines: seq<Line>): (b: Block)
    ensures b.page == pg + 1 && b.block == number
  {
    var spans := LineSpans(lines);
    Block(pg + 1, number, BlockText(lines), MeanFontSize(spans))
  }

  /** The blocks of a page that carry lines, in the extractor's order. */
  function TextBlocks(bs: seq<RawBlock>): (r: seq<RawBlock>)
    ensures forall i :: 0 <= i < |r| ==> r[i].TextBlock?
  {
    if |bs| == 0 then []
    else if bs[0].TextBlock? then [bs[0]] + TextBlocks(bs[1..])
    else TextBlocks(bs[1..])
  }

  /** The filter keeps the extractor's order: filtering a concatenation
      filters each part and concatenates the results. */
  lemma {:induction false} TextBlocksAppend(a: seq<RawBlock>, b: seq<RawBlock>)
    ensures TextBlocks(a + b) == TextBlocks(a) + TextBlocks(b)
  {
    if |a| > 0 {
      TextBlocksAppend(a[1..], b);
      assert (a + b)[1..] == a[1..] + b;
    } else {
      assert a + b == b;
    }
  }

  /** A single block is kept exactly when it is a text block. */
  lemma TextBlocksOne(x: RawBlock)
    ensures TextBlocks([x]) == if x.TextBlock? then [x] else []
  {
    assert [x][1..] == [];
  }

  /** The records of one page: one per text block, in block order, all
      stamped with page number `pg + 1`. */
  function ExtractPage(pg: nat, bs: seq<RawBlock>): (r: seq<Block>)
    ensures |r| == |TextBlocks(bs)|
    ensures forall i :: 0 <= i < |r| ==> r[i].page == pg + 1
  {
    if |bs| == 0 then []
    else if bs[0].TextBlock? then [Record(pg, bs[0].number, bs[0].lines)] + ExtractPage(pg, bs[1..])
    else ExtractPage(pg, bs[1..])
  }

  /** The `i`-th record of a page is built from the page's `i`-th text
      block: its number, joined text and weighted size. */
  lemma {:induction false} ExtractPageRecords(pg: nat, bs: seq<RawBlock>, i: nat)
    requires i < |TextBlocks(bs)|
    ensures ExtractPage(pg, bs)[i] == Record(pg, TextBlocks(bs)[i].number, TextBlocks(bs)[i].lines)
  {
    var tb := TextBlocks(bs);
    var r := ExtractPage(pg, bs);
    if bs[0].TextBlock? {
      assert tb == [bs[0]] + TextBlocks(bs[1..]);
      assert r == [Record(pg, bs[0].number, bs[0].lines)] + ExtractPage(pg, bs[1..]);
      if i > 0 { ExtractPageRecords(pg, bs[1..], i - 1); }
    } else {
      assert tb == TextBlocks(bs[1..]);
      assert r == ExtractPage(pg, bs[1..]);
      ExtractPageRecords(pg, bs[1..], i);
    }
  }

  /** Number of text blocks over all pages. */
  function TextBlockCount(pages: seq<Page>): nat {
    if |pages| == 0 then 0
    else TextBlockCount(pages[..|pages| - 1]) + |TextBlocks(pages[|pages| - 1].blocks)|
  }

  /** `extract_blocks`: the records of every page in page order. */
  function ExtractBlocks(pages: seq<Page>): (r: seq<Block>)
    ensures |r| == TextBlockCount(pages)
    ensures forall i :: 0 <= i < |r| ==> 1 <= r[i].page <= |pages|
    ensures forall i, j :: 0 <= i < j < |r| ==> r[i].page <= r[j].page
  {
    if |pages| == 0 then []
    else
      var n := |pages| - 1;
      var before := ExtractBlocks(pages[..n]);
      var last := ExtractPage(n, pages[n].blocks);
      var r := before + last;
      assert forall i :: 0 <= i < |before| ==> r[i] == before[i];
      assert forall i :: |before| <= i < |r| ==> r[i] == last[i - |before|];
      r
  }

  /** The records stamped with page `p`, in order. */
  function OnPage(r: seq<Block>, p: nat): seq<Block>
  {
    if |r| == 0 then []
    else (if r[0].page == p then [r[0]] else []) + OnPage(r[1..], p)
  }

  lemma {:induction false} OnPageAppend(a: seq<Block>, b: seq<Block>, p: nat)
    ensures OnPage(a + b, p) == OnPage(a, p) + OnPage(b, p)
  {
    if |a| == 0 {
      assert a + b == b;
    } else {
      assert (a + b)[0] == a[0];
      assert (a + b)[1..] == a[1..] + b;
      OnPageAppend(a[1..], b, p);
      var h := if a[0].page == p then [a[0]] else [];
      assert OnPage(a + b, p) == h + OnPage(a[1..] + b, p);
      assert OnPage(a, p) == h + OnPage(a[1..], p);
    }
  }

  lemma {:induction false} OnPageNone(r: seq<Block>, p: nat)
    requires forall i :: 0 <= i < |r| ==> r[i].page != p
    ensures OnPage(r, p) == []
  {
    if |r| > 0 { OnPageNone(r[1..], p); }
  }

  lemma {:induction false} OnPageAll(r: seq<Block>, p: nat)
    requires forall i :: 0 <= i < |r| ==> r[i].page == p
    ensures OnPage(r, p) == r
  {
    if |r| > 0 { OnPageAll(r[1..], p); }
  }

  lemma ExtractBlocksLast(pages: seq<Page>)
    requires |pages| > 0
    ensures ExtractBlocks(pages) ==
      ExtractBlocks(pages[..|pages| - 1]) + ExtractPage(|pages| - 1, pages[|pages| - 1].blocks)
  {
  }

  /** The records carrying page number `p + 1` are exactly the records of
      the `p`-th page (0-based), one per text block and in block order. */
  lemma {:induction false} ExtractBlocksPage(pages: seq<Page>, p: nat)
    requires p < |pages|
    ensures OnPage(ExtractBlocks(pages), p + 1) == ExtractPage(p, pages[p].blocks)
  {
    var n := |pages| - 1;
    var before := ExtractBlocks(pages[..n]);
    var last := ExtractPage(n, pages[n].blocks);
    ExtractBlocksLast(pages);
    OnPageAppend(before, last, p + 1);
    if p == n {
      OnPageNone(before, p + 1);
      OnPageAll(last, p + 1);
    } else {
      OnPageNone(last, p + 1);
      assert pages[..n][p] == pages[p];
      ExtractBlocksPage(pages[..n], p);
    }
  }
}
