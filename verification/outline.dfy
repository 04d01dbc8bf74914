/** `build_outline` and `build_document` of Challenge_1a/process_pdfs.py:
    a block is a heading when its font size is at least
    `mean + 0.5 * pstdev` of all block sizes; the distinct heading sizes,
    largest first, name the levels H1, H2, ...; headings are emitted in
    (page, block) order by a stable sort. */
module Outline {
  import opened Wrappers
  import opened Stats
  import opened Ranking
  import opened Levels
  import opened Extraction
  import opened Title
  import opened Text

  function Sizes(blocks: seq<Block>): (r: seq<real>)
    ensures |r| == |blocks|
    ensures forall i :: 0 <= i < |blocks| ==> r[i] == blocks[i].fontSize
  {
    if |blocks| == 0 then [] else [blocks[0].fontSize] + Sizes(blocks[1..])
  }

  lemma SizeOfMember(blocks: seq<Block>, b: Block)
    requires b in blocks
    ensures b.fontSize in Sizes(blocks)
  {
    var i :| 0 <= i < |blocks| && blocks[i] == b;
    assert Sizes(blocks)[i] == b.fontSize;
  }

  /** `mu + 0.5 * sd` over the sizes of all blocks: never below the mean
      size, and above it exactly when the sizes are not all equal. */
  function Threshold(blocks: seq<Block>, sd: real): (r: real)
    requires |blocks| > 0
    ensures IsPStdDev(Sizes(blocks), sd) ==> r >= Mean(Sizes(blocks))
    ensures IsPStdDev(Sizes(blocks), sd) ==> (r == Mean(Sizes(blocks)) <==> PVariance(Sizes(blocks)) == 0.0)
    ensures IsPStdDev(Sizes(blocks), sd) ==> (r == Mean(Sizes(blocks)) <==>
      forall i, j :: 0 <= i < |blocks| && 0 <= j < |blocks| ==> blocks[i].fontSize == blocks[j].fontSize)
  {
    ZeroProduct(sd, sd);
    VarianceZeroIffEqual(Sizes(blocks));
    Mean(Sizes(blocks)) + 0.5 * sd
  }

  /** `[b for b in blocks if b["font_size"] >= t]`. */
  function Admitted(blocks: seq<Block>, t: real): (r: seq<Block>)
    ensures forall i :: 0 <= i < |r| ==> r[i].fontSize >= t
  {
    if |blocks| == 0 then []
    else (if blocks[0].fontSize >= t then [blocks[0]] else []) + Admitted(blocks[1..], t)
  }

  /** A block is admitted exactly when its size reaches the threshold, and
      then as many times as it occurs: there is no deduplication. */
  lemma {:induction false} AdmittedCount(blocks: seq<Block>, t: real, b: Block)
    ensures multiset(Admitted(blocks, t))[b] == if b.fontSize >= t then multiset(blocks)[b] else 0
  {
    if |blocks| > 0 {
      AdmittedCount(blocks[1..], t, b);
      assert blocks == [blocks[0]] + blocks[1..];
    }
  }

  /** The filter keeps the input order: filtering a concatenation filters
      each part and concatenates the results. With the one-block case,
      which the definition gives, this pins the admitted blocks to their
      order in `blocks`. */
  lemma {:induction false} AdmittedAppend(a: seq<Block>, b: seq<Block>, t: real)
    ensures Admitted(a + b, t) == Admitted(a, t) + Admitted(b, t)
  {
    if |a| > 0 {
      AdmittedAppend(a[1..], b, t);
      assert (a + b)[1..] == a[1..] + b;
    } else {
      assert a + b == b;
    }
  }

  lemma AdmittedMember(blocks: seq<Block>, t: real, b: Block)
    ensures b in Admitted(blocks, t) <==> b in blocks && b.fontSize >= t
  {
    AdmittedCount(blocks, t, b);
  }

  // ---- (page, block) order and the stable sort ----

  /** `(a["page"], a["block"]) <= (b["page"], b["block"])`. */
  predicate KeyLe(a: Block, b: Block) {
    a.page < b.page || (a.page == b.page && a.block <= b.block)
  }

  predicate HasKey(b: Block, page: nat, number: int) {
    b.page == page && b.block == number
  }

  predicate SortedByKey(s: seq<Block>) {
    forall i, j :: 0 <= i < j < |s| ==> KeyLe(s[i], s[j])
  }

  /** Inserts `x` before the first element whose key is not smaller, so
      that `x` stays in front of the equal keys that came after it in the
      input. */
  function InsertByKey(x: Block, s: seq<Block>): (r: seq<Block>)
    requires SortedByKey(s)
    ensures SortedByKey(r)
    ensures multiset(r) == multiset(s) + multiset{x}
  {
    if |s| == 0 then [x]
    else if KeyLe(x, s[0]) then [x] + s
    else
      var t := InsertByKey(x, s[1..]);
      assert s == [s[0]] + s[1..];
      InsertAboveHead(x, s, t);
      [s[0]] + t
  }

  /** When `x` goes after the head of `s`, everything inserted behind the
      head is at least the head. */
  lemma InsertAboveHead(x: Block, s: seq<Block>, t: seq<Block>)
    requires SortedByKey(s) && |s| > 0 && !KeyLe(x, s[0]) && SortedByKey(t)
    requires multiset(t) == multiset(s[1..]) + multiset{x}
    ensures SortedByKey([s[0]] + t)
  {
    forall k | 0 <= k < |t| ensures KeyLe(s[0], t[k]) {
      var y := t[k];
      assert y in multiset(t);
      if y != x {
        assert y in multiset(s[1..]);
        var j :| 0 <= j < |s[1..]| && s[1..][j] == y;
        assert s[j + 1] == y;
      }
    }
    var r := [s[0]] + t;
    forall i, j | 0 <= i < j < |r| ensures KeyLe(r[i], r[j]) {
      if i == 0 { assert r[j] == t[j - 1]; } else { assert r[i] == t[i - 1] && r[j] == t[j - 1]; }
    }
  }

  /** `sorted(heads, key=lambda x: (x["page"], x["block"]))`. */
  function SortByKey(s: seq<Block>): (r: seq<Block>)
    ensures SortedByKey(r)
    ensures multiset(r) == multiset(s)
  {
    if |s| == 0 then []
    else
      assert s == [s[0]] + s[1..];
      InsertByKey(s[0], SortByKey(s[1..]))
  }

  /** The elements of `s` with key `(page, number)`, in order. */
  function WithKey(s: seq<Block>, page: nat, number: int): seq<Block> {
    if |s| == 0 then []
    else (if HasKey(s[0], page, number) then [s[0]] else []) + WithKey(s[1..], page, number)
  }

  lemma {:induction false} WithKeyAppend(a: seq<Block>, b: seq<Block>, page: nat, number: int)
    ensures WithKey(a + b, page, number) == WithKey(a, page, number) + WithKey(b, page, number)
  {
    if |a| > 0 {
      WithKeyAppend(a[1..], b, page, number);
      assert (a + b)[1..] == a[1..] + b;
    } else {
      assert a + b == b;
    }
  }

  /** Filtering by size and selecting one key commute. */
  lemma {:induction false} AdmittedWithKey(blocks: seq<Block>, t: real, page: nat, number: int)
    ensures WithKey(Admitted(blocks, t), page, number) == Admitted(WithKey(blocks, page, number), t)
  {
    if |blocks| > 0 {
      var x := [blocks[0]];
      var rest := blocks[1..];
      assert blocks == x + rest;
      AdmittedWithKey(rest, t, page, number);
      AdmittedAppend(x, rest, t);
      WithKeyAppend(Admitted(x, t), Admitted(rest, t), page, number);
      WithKeyAppend(x, rest, page, number);
      AdmittedAppend(WithKey(x, page, number), WithKey(rest, page, number), t);
      AdmittedWithKeyOne(blocks[0], t, page, number);
    }
  }

  lemma AdmittedWithKeyOne(b: Block, t: real, page: nat, number: int)
    ensures WithKey(Admitted([b], t), page, number) == Admitted(WithKey([b], page, number), t)
  {
    assert [b][1..] == [];
  }

  lemma WithKeyCons(y: Block, t: seq<Block>, page: nat, number: int)
    ensures WithKey([y] + t, page, number) ==
      (if HasKey(y, page, number) then [y] else []) + WithKey(t, page, number)
  {
    assert ([y] + t)[1..] == t;
  }

  lemma {:induction false} WithKeyInsert(x: Block, s: seq<Block>, page: nat, number: int)
    requires SortedByKey(s)
    ensures WithKey(InsertByKey(x, s), page, number) ==
      (if HasKey(x, page, number) then [x] else []) + WithKey(s, page, number)
  {
    if |s| == 0 {
    } else if KeyLe(x, s[0]) {
      WithKeyCons(x, s, page, number);
    } else {
      var t := InsertByKey(x, s[1..]);
      InsertByKeyBehind(x, s);
      WithKeyInsert(x, s[1..], page, number);
      WithKeyCons(s[0], t, page, number);
      WithKeyCons(s[0], s[1..], page, number);
      assert s == [s[0]] + s[1..];
      assert HasKey(x, page, number) ==> !HasKey(s[0], page, number);
    }
  }

  /** An element that goes behind the head is inserted into the tail. */
  lemma InsertByKeyBehind(x: Block, s: seq<Block>)
    requires SortedByKey(s) && |s| > 0 && !KeyLe(x, s[0])
    ensures SortedByKey(s[1..])
    ensures InsertByKey(x, s) == [s[0]] + InsertByKey(x, s[1..])
  {
  }

  /** The sort is stable: the elements of any one key come out in the
      order they went in. */
  lemma {:induction false} SortByKeyStable(s: seq<Block>, page: nat, number: int)
    ensures WithKey(SortByKey(s), page, number) == WithKey(s, page, number)
  {
    if |s| > 0 {
      SortByKeyStable(s[1..], page, number);
      WithKeyInsert(s[0], SortByKey(s[1..]), page, number);
    }
  }

  // ---- the outline ----

  /** The heading blocks of a non-empty block list. */
  function Heads(blocks: seq<Block>, sd: real): seq<Block>
    requires |blocks| > 0
  {
    Admitted(blocks, Threshold(blocks, sd))
  }

  /** The heading blocks in emission order. */
  function Ordered(blocks: seq<Block>, sd: real): seq<Block>
    requires |blocks| > 0
  {
    SortByKey(Heads(blocks, sd))
  }

  /** The distinct heading sizes, largest first: `distinct` in the source. */
  function LevelSizes(blocks: seq<Block>, sd: real): (r: seq<real>)
    requires |blocks| > 0
    ensures StrictlyDecreasing(r)
  {
    DistinctDesc(Sizes(Heads(blocks, sd)))
  }

  /** Every emitted block's size is one of the level sizes. */
  lemma OrderedSizesRanked(blocks: seq<Block>, sd: real, i: nat)
    requires |blocks| > 0 && i < |Ordered(blocks, sd)|
    ensures Ordered(blocks, sd)[i].fontSize in LevelSizes(blocks, sd)
  {
    var b := Ordered(blocks, sd)[i];
    assert b in multiset(Ordered(blocks, sd));
    SizeOfMember(Heads(blocks, sd), b);
  }

  /** One entry per emitted block: its level, text and page. */
  function Entries(ordered: seq<Block>, ranks: seq<real>): (r: seq<Entry>)
    requires StrictlyDecreasing(ranks)
    requires forall i :: 0 <= i < |ordered| ==> ordered[i].fontSize in ranks
    ensures |r| == |ordered|
    ensures forall i :: 0 <= i < |ordered| ==>
      r[i] == Entry(Rank(ranks, ordered[i].fontSize), ordered[i].text, ordered[i].page)
  {
    if |ordered| == 0 then []
    else [Entry(Rank(ranks, ordered[0].fontSize), ordered[0].text, ordered[0].page)]
         + Entries(ordered[1..], ranks)
  }

  /** `build_outline(blocks)`, with `sd` the population standard deviation
      of the block sizes. */
  function BuildOutline(blocks: seq<Block>, sd: real): (r: seq<Entry>)
    requires IsPStdDev(Sizes(blocks), sd)
    ensures |blocks| == 0 ==> r == []
    ensures |blocks| > 0 ==> |r| == |Heads(blocks, sd)|
  {
    if |blocks| == 0 then []
    else
      var heads := Heads(blocks, sd);
      if |heads| == 0 then []
      else
        var ordered := Ordered(blocks, sd);
        forall i | 0 <= i < |ordered| ensures ordered[i].fontSize in LevelSizes(blocks, sd) {
          OrderedSizesRanked(blocks, sd, i);
        }
        assert |ordered| == |multiset(heads)|;
        Entries(ordered, LevelSizes(blocks, sd))
  }

  /** Entry `i` of the outline is made from emitted block `i`: text and
      page copied unchanged, level the rank of its size among the distinct
      heading sizes. */
  lemma OutlineEntry(blocks: seq<Block>, sd: real, i: nat)
    requires IsPStdDev(Sizes(blocks), sd) && |blocks| > 0
    requires i < |Heads(blocks, sd)|
    ensures var b := Ordered(blocks, sd)[i];
      && i < |Ordered(blocks, sd)|
      && b.fontSize in LevelSizes(blocks, sd)
      && BuildOutline(blocks, sd)[i] == Entry(Rank(LevelSizes(blocks, sd), b.fontSize), b.text, b.page)
  {
    var heads := Heads(blocks, sd);
    assert |Ordered(blocks, sd)| == |multiset(heads)|;
    OrderedSizesRanked(blocks, sd, i);
  }

  /** The position at which an admitted block is emitted. */
  lemma EmittedAt(blocks: seq<Block>, sd: real, b: Block) returns (i: nat)
    requires IsPStdDev(Sizes(blocks), sd) && |blocks| > 0
    requires b in multiset(Heads(blocks, sd))
    ensures i < |BuildOutline(blocks, sd)| && i < |Ordered(blocks, sd)|
    ensures Ordered(blocks, sd)[i] == b
  {
    var o := Ordered(blocks, sd);
    assert b in multiset(o);
    i :| 0 <= i < |o| && o[i] == b;
    assert |o| == |multiset(Heads(blocks, sd))|;
  }

  /** Membership: each block occurs among the emitted blocks exactly as
      often as in the input when its size reaches `mean + 0.5 * sd`, and
      not at all otherwise. */
  lemma OutlineMembership(blocks: seq<Block>, sd: real, b: Block)
    requires |blocks| > 0
    ensures multiset(Ordered(blocks, sd))[b] ==
      if b.fontSize >= Mean(Sizes(blocks)) + 0.5 * sd then multiset(blocks)[b] else 0
  {
    AdmittedCount(blocks, Threshold(blocks, sd), b);
  }

  /** Order: the emitted blocks ascend by (page, block), and blocks that
      share a key keep their input order. */
  lemma OutlineOrder(blocks: seq<Block>, sd: real, page: nat, number: int)
    requires |blocks| > 0
    ensures SortedByKey(Ordered(blocks, sd))
    ensures WithKey(Ordered(blocks, sd), page, number) == WithKey(Heads(blocks, sd), page, number)
    ensures WithKey(Ordered(blocks, sd), page, number) == Admitted(WithKey(blocks, page, number), Threshold(blocks, sd))
  {
    SortByKeyStable(Heads(blocks, sd), page, number);
    AdmittedWithKey(blocks, Threshold(blocks, sd), page, number);
  }

  /** Levels are ranks: an entry's level is one more than the number of
      distinct heading sizes strictly larger than its block's size, so a
      strictly larger size has a strictly smaller level and equal sizes
      share a level. */
  lemma OutlineLevels(blocks: seq<Block>, sd: real, i: nat, j: nat)
    requires IsPStdDev(Sizes(blocks), sd) && |blocks| > 0
    requires i < |Heads(blocks, sd)| && j < |Heads(blocks, sd)|
    ensures var r := BuildOutline(blocks, sd);
      var o := Ordered(blocks, sd);
      && i < |o| && j < |o|
      && r[i].level == |Above(Sizes(Heads(blocks, sd)), o[i].fontSize)| + 1
      && r[i].level <= |LevelSizes(blocks, sd)|
      && (o[i].fontSize > o[j].fontSize <==> r[i].level < r[j].level)
      && (o[i].fontSize == o[j].fontSize <==> r[i].level == r[j].level)
  {
    OutlineEntry(blocks, sd, i);
    OutlineEntry(blocks, sd, j);
    var o := Ordered(blocks, sd);
    var d := LevelSizes(blocks, sd);
    RankMonotone(d, o[i].fontSize, o[j].fontSize);
    RankOfDistinct(Sizes(Heads(blocks, sd)), o[i].fontSize);
  }

  /** Every level from 1 to the number of distinct heading sizes is used
      by some entry: the levels are exactly H1..Hk. */
  lemma OutlineLevelsCover(blocks: seq<Block>, sd: real, k: nat)
    requires IsPStdDev(Sizes(blocks), sd) && |blocks| > 0
    requires 1 <= k <= |LevelSizes(blocks, sd)|
    ensures exists i :: 0 <= i < |BuildOutline(blocks, sd)| && BuildOutline(blocks, sd)[i].level == k
  {
    var b := LevelSizeHolder(blocks, sd, k);
    var i := EmittedAt(blocks, sd, b);
    OutlineEntry(blocks, sd, i);
    RankOfPosition(LevelSizes(blocks, sd), k - 1);
    assert BuildOutline(blocks, sd)[i].level == k;
  }

  /** Each level size is the size of some heading block. */
  lemma LevelSizeHolder(blocks: seq<Block>, sd: real, k: nat) returns (b: Block)
    requires |blocks| > 0 && 1 <= k <= |LevelSizes(blocks, sd)|
    ensures b in multiset(Heads(blocks, sd)) && b.fontSize == LevelSizes(blocks, sd)[k - 1]
  {
    var heads := Heads(blocks, sd);
    assert LevelSizes(blocks, sd)[k - 1] in Sizes(heads);
    var h :| 0 <= h < |heads| && Sizes(heads)[h] == LevelSizes(blocks, sd)[k - 1];
    assert heads[h] in multiset(heads);
    b := heads[h];
  }

  /** The largest size among all blocks. */
  function MaxSize(blocks: seq<Block>): (m: real)
    requires |blocks| > 0
    ensures forall i :: 0 <= i < |blocks| ==> blocks[i].fontSize <= m
    ensures exists i :: 0 <= i < |blocks| && blocks[i].fontSize == m
  {
    if |blocks| == 1 then blocks[0].fontSize
    else
      var m := MaxSize(blocks[1..]);
      assert forall i :: 1 <= i < |blocks| ==> blocks[i].fontSize == blocks[1..][i - 1].fontSize;
      if blocks[0].fontSize >= m then blocks[0].fontSize else m
  }

  /** Once anything is admitted, the largest block is admitted too and
      its size heads the level sizes. */
  lemma MaxSizeLeads(blocks: seq<Block>, sd: real, top: nat)
    requires |blocks| > 0 && |Heads(blocks, sd)| > 0
    requires top < |blocks| && blocks[top].fontSize == MaxSize(blocks)
    ensures blocks[top] in multiset(Heads(blocks, sd))
    ensures LevelSizes(blocks, sd)[0] == MaxSize(blocks)
  {
    var heads := Heads(blocks, sd);
    var t := Threshold(blocks, sd);
    MaxAdmitted(blocks, t, top);
    var sizes := Sizes(heads);
    forall h | 0 <= h < |sizes| ensures sizes[h] <= MaxSize(blocks) {
      AdmittedBelowMax(blocks, t, h);
    }
    SizeOfMember(heads, blocks[top]);
    DistinctLeadIsMax(sizes, MaxSize(blocks));
  }

  /** When anything is admitted, a largest block is admitted too. */
  lemma MaxAdmitted(blocks: seq<Block>, t: real, top: nat)
    requires |blocks| > 0 && |Admitted(blocks, t)| > 0
    requires top < |blocks| && blocks[top].fontSize == MaxSize(blocks)
    ensures blocks[top] in Admitted(blocks, t)
  {
    var a := Admitted(blocks, t);
    assert a[0] in a;
    AdmittedMember(blocks, t, a[0]);
    AdmittedMember(blocks, t, blocks[top]);
  }

  /** No admitted block is larger than the largest block. */
  lemma AdmittedBelowMax(blocks: seq<Block>, t: real, h: nat)
    requires |blocks| > 0 && h < |Admitted(blocks, t)|
    ensures Admitted(blocks, t)[h].fontSize <= MaxSize(blocks)
  {
    var b := Admitted(blocks, t)[h];
    AdmittedMember(blocks, t, b);
    var i :| 0 <= i < |blocks| && blocks[i] == b;
  }

  /** When the outline is not empty, H1 is used, and it is the largest font
      size of the whole document. */
  lemma OutlineTopLevel(blocks: seq<Block>, sd: real)
    requires IsPStdDev(Sizes(blocks), sd) && |blocks| > 0
    requires |Heads(blocks, sd)| > 0
    ensures exists i :: (0 <= i < |BuildOutline(blocks, sd)|
      && BuildOutline(blocks, sd)[i].level == 1
      && Ordered(blocks, sd)[i].fontSize == MaxSize(blocks))
  {
    var top :| 0 <= top < |blocks| && blocks[top].fontSize == MaxSize(blocks);
    MaxSizeLeads(blocks, sd, top);
    var i := EmittedAt(blocks, sd, blocks[top]);
    OutlineEntry(blocks, sd, i);
    RankOfPosition(LevelSizes(blocks, sd), 0);
  }

  /** `build_document(meta, blocks)`: the record with the two keys `title`
      and `outline`. */
  datatype Document = Document(title: string, outline: seq<Entry>)

  function BuildDocument(title: string, blocks: seq<Block>, sd: real): (d: Document)
    requires IsPStdDev(Sizes(blocks), sd)
    ensures d.title == title
    ensures |blocks| == 0 ==> d.outline == []
    ensures |blocks| > 0 ==> |d.outline| == |Heads(blocks, sd)|
  {
    Document(title, BuildOutline(blocks, sd))
  }

  /** `process(path)` without the file system: metadata title, block
      list, then the document record. Fails only where `extract_metadata`
      does. */
  function Process(pdf: Pdf, sd: real): (r: Result<Document, MetadataError>)
    requires IsPStdDev(Sizes(ExtractBlocks(pdf.pages)), sd)
    ensures r.Failure? <==> ExtractMetadata(pdf).Failure?
    ensures r.Success? ==> r.value.title == ExtractMetadata(pdf).value
    ensures r.Success? && TextBlockCount(pdf.pages) == 0 ==> r.value.outline == []
  {
    match ExtractMetadata(pdf)
    case Failure(e) => Failure(e)
    case Success(title) => Success(BuildDocument(title, ExtractBlocks(pdf.pages), sd))
  }

  /** No page holds a text block. */
  predicate TextFree(pages: seq<Page>) {
    forall p :: 0 <= p < |pages| ==> TextBlocks(pages[p].blocks) == []
  }

  lemma {:induction false} TextFreeCount(pages: seq<Page>)
    requires TextFree(pages)
    ensures TextBlockCount(pages) == 0
  {
    if |pages| > 0 {
      var n := |pages| - 1;
      assert forall p :: 0 <= p < n ==> pages[..n][p] == pages[p];
      TextFreeCount(pages[..n]);
    }
  }

  lemma {:induction false} TextFreeSpans(bs: seq<RawBlock>)
    requires TextBlocks(bs) == []
    ensures PageSpans(bs) == []
  {
    if |bs| > 0 {
      assert !bs[0].TextBlock?;
      TextFreeSpans(bs[1..]);
    }
  }

  /** A document with pages but no text and no metadata title yields the
      file stem as title and an empty outline: a valid record, not an
      error. */
  lemma DegenerateDocument(pdf: Pdf, sd: real)
    requires |pdf.pages| > 0 && TextFree(pdf.pages)
    requires Strip(pdf.metadataTitle.GetOr("")) == []
    requires IsPStdDev(Sizes(ExtractBlocks(pdf.pages)), sd)
    ensures Process(pdf, sd) == Success(Document(Stem(pdf.name), []))
  {
    TextFreeCount(pdf.pages);
    TextFreeSpans(pdf.pages[0].blocks);
    assert InferTitle(pdf.pages[0]) == [];
  }

  // ---- worked examples ----

  /** One block of size 0 and nine of size 10: mean 9, population
      standard deviation 3, threshold 10.5. */
  const Lopsided: seq<Block> := [Block(1, 0, "a", 0.0)] + seq(9, i => Block(1, i + 1, "b", 10.0))

  /** The sum and the squared deviations of `n` copies of `c`. */
  lemma {:induction false} SumOfCopies(n: nat, c: real, mu: real)
    ensures Sum(seq(n, _ => c)) == n as real * c
    ensures SumSqDev(seq(n, _ => c), mu) == n as real * ((c - mu) * (c - mu))
  {
    if n > 0 {
      assert seq(n, _ => c)[1..] == seq(n - 1, _ => c);
      SumOfCopies(n - 1, c, mu);
    }
  }

  /** The threshold has no floor: a non-empty document can have no
      heading at all, because no block reaches `mean + 0.5 * sd`. */
  lemma LopsidedHasNoHeading(sd: real)
    requires IsPStdDev(Sizes(Lopsided), sd)
    ensures |Lopsided| == 10 && BuildOutline(Lopsided, sd) == []
  {
    LopsidedThreshold(sd);
    AdmittedNone(Lopsided, 10.5);
    assert Heads(Lopsided, sd) == [];
  }

  lemma LopsidedThreshold(sd: real)
    requires IsPStdDev(Sizes(Lopsided), sd)
    ensures Threshold(Lopsided, sd) == 10.5
  {
    LopsidedMoments();
    RootUnique(sd, 3.0);
  }

  lemma LopsidedSizes()
    ensures Sizes(Lopsided) == [0.0] + seq(9, _ => 10.0)
  {
    assert forall i :: 1 <= i < 10 ==> Lopsided[i].fontSize == 10.0;
  }

  lemma LopsidedMoments()
    ensures Mean(Sizes(Lopsided)) == 9.0 && PVariance(Sizes(Lopsided)) == 9.0
  {
    var xs := Sizes(Lopsided);
    var nine := seq(9, _ => 10.0);
    LopsidedSizes();
    assert xs[1..] == nine;
    SumOfCopies(9, 10.0, 9.0);
    assert Sum(xs) == 90.0;
    assert SumSqDev(xs, 9.0) == 90.0;
  }

  lemma {:induction false} AdmittedNone(blocks: seq<Block>, t: real)
    requires forall i :: 0 <= i < |blocks| ==> blocks[i].fontSize < t
    ensures Admitted(blocks, t) == []
  {
    if |blocks| > 0 { AdmittedNone(blocks[1..], t); }
  }

  /** A 24-point heading over a 12-point body: mean 18, standard deviation
      6, threshold 21. */
  const TwoSizes: seq<Block> := [Block(1, 0, "Introduction", 24.0), Block(1, 1, "Body text", 12.0)]

  lemma TwoSizesOutline(sd: real)
    requires IsPStdDev(Sizes(TwoSizes), sd)
    ensures BuildOutline(TwoSizes, sd) == [Entry(1, "Introduction", 1)]
  {
    var xs := Sizes(TwoSizes);
    assert xs == [24.0, 12.0];
    assert xs[1..] == [12.0] && xs[1..][1..] == [];
    assert Sum(xs[1..]) == 12.0;
    assert Sum(xs) == 36.0;
    assert Mean(xs) == 18.0;
    assert SumSqDev(xs[1..], 18.0) == 36.0;
    assert SumSqDev(xs, 18.0) == 72.0;
    RootUnique(sd, 6.0);
    var heads := Heads(TwoSizes, sd);
    assert TwoSizes[1..] == [TwoSizes[1]] && TwoSizes[1..][1..] == [];
    assert heads == [TwoSizes[0]];
    assert Ordered(TwoSizes, sd) == [TwoSizes[0]];
    assert Sizes(heads) == [24.0];
    assert LevelSizes(TwoSizes, sd) == [24.0];
  }
}
