/** Title selection of Challenge_1a/process_pdfs.py: `_infer_title` (the
    first span of the largest size on page 1) and `extract_metadata`
    (metadata title, else inferred title, else the file stem). */
module Title {
  import opened Wrappers
  import opened Text
  import opened Extraction

  /** The spans of every text block of a page, in extraction order. */
  function PageSpans(bs: seq<RawBlock>): seq<Span> {
    if |bs| == 0 then []
    else (if bs[0].TextBlock? then LineSpans(bs[0].lines) else []) + PageSpans(bs[1..])
  }

  /** A span that can become the title: some text once stripped, and a
      size above the initial best of 0. */
  predicate Eligible(sp: Span) {
    Strip(sp.text) != [] && SpanSize(sp) > 0.0
  }

  /** Span `i` is eligible, strictly larger than every eligible span
      before it and at least as large as every eligible span after it, up
      to position `k`. */
  predicate LeadsUpTo(spans: seq<Span>, k: nat, i: nat)
    requires k <= |spans|
  {
    && i < k
    && Eligible(spans[i])
    && (forall j :: 0 <= j < i && Eligible(spans[j]) ==> SpanSize(spans[j]) < SpanSize(spans[i]))
    && (forall j :: i < j < k && Eligible(spans[j]) ==> SpanSize(spans[j]) <= SpanSize(spans[i]))
  }

  /** The loop of `_infer_title` from a running best `(best, text)`. */
  function Scan(spans: seq<Span>, best: real, text: string): string {
    if |spans| == 0 then text
    else
      var txt := Strip(spans[0].text);
      var size := SpanSize(spans[0]);
      if txt != [] && size > best then Scan(spans[1..], size, txt)
      else Scan(spans[1..], best, text)
  }

  /** `_infer_title(page)`: empty exactly when no span is eligible, and
      otherwise the stripped text of the first span of the largest size
      among the eligible ones. */
  function InferTitle(page: Page): (r: string)
    ensures var spans := PageSpans(page.blocks);
      && (r == [] <==> NoneEligible(spans))
      && (!NoneEligible(spans) ==>
            exists i :: 0 <= i < |spans| && LeadsUpTo(spans, |spans|, i) && r == Strip(spans[i].text))
  {
    var spans := PageSpans(page.blocks);
    assert spans[0..] == spans;
    ScanFrom(spans, 0, 0.0, "");
    Scan(spans, 0.0, "")
  }

  /** No span before position `k` is eligible. */
  predicate NoneEligibleBefore(spans: seq<Span>, k: nat)
    requires k <= |spans|
  {
    forall j :: 0 <= j < k ==> !Eligible(spans[j])
  }

  predicate NoneEligible(spans: seq<Span>) {
    NoneEligibleBefore(spans, |spans|)
  }

  /** What the running best holds after the first `k` spans. */
  predicate ScanState(spans: seq<Span>, k: nat, best: real, text: string)
    requires k <= |spans|
  {
    || (best == 0.0 && text == [] && NoneEligibleBefore(spans, k))
    || (exists i :: 0 <= i < k && LeadsUpTo(spans, k, i) && best == SpanSize(spans[i]) && text == Strip(spans[i].text))
  }

  /** The loop body from the initial state. */
  lemma ScanStepInitial(spans: seq<Span>, k: nat)
    requires k < |spans| && NoneEligibleBefore(spans, k)
    ensures var txt := Strip(spans[k].text); var size := SpanSize(spans[k]);
      if txt != [] && size > 0.0 then ScanState(spans, k + 1, size, txt)
      else ScanState(spans, k + 1, 0.0, "")
  {
    var txt := Strip(spans[k].text);
    var size := SpanSize(spans[k]);
    if txt != [] && size > 0.0 {
      assert LeadsUpTo(spans, k + 1, k);
    } else {
      assert NoneEligibleBefore(spans, k + 1);
    }
  }

  /** The loop body once span `i` leads. */
  lemma ScanStepLeading(spans: seq<Span>, k: nat, i: nat)
    requires k < |spans| && i < k && LeadsUpTo(spans, k, i)
    ensures var txt := Strip(spans[k].text); var size := SpanSize(spans[k]);
      if txt != [] && size > SpanSize(spans[i]) then LeadsUpTo(spans, k + 1, k)
      else LeadsUpTo(spans, k + 1, i)
  {
    var size := SpanSize(spans[k]);
    if Strip(spans[k].text) != [] && size > SpanSize(spans[i]) {
      forall j | 0 <= j < k && Eligible(spans[j]) ensures SpanSize(spans[j]) < size {
        if j < i {
          assert SpanSize(spans[j]) < SpanSize(spans[i]);
        } else if j > i {
          assert SpanSize(spans[j]) <= SpanSize(spans[i]);
        }
      }
    }
  }

  /** From any correct running state, the rest of the loop ends with the
      text of the first largest eligible span, or with "" when no span is
      eligible. */
  lemma {:induction false} ScanFrom(spans: seq<Span>, k: nat, best: real, text: string)
    requires k <= |spans| && ScanState(spans, k, best, text)
    ensures var r := Scan(spans[k..], best, text);
      || (r == [] && NoneEligible(spans))
      || (exists i :: 0 <= i < |spans| && LeadsUpTo(spans, |spans|, i) && r == Strip(spans[i].text))
    decreases |spans| - k
  {
    if k == |spans| {
      assert spans[k..] == [];
    } else {
      var txt := Strip(spans[k].text);
      var size := SpanSize(spans[k]);
      assert spans[k..][1..] == spans[k + 1..];
      assert Scan(spans[k..], best, text) ==
        if txt != [] && size > best then Scan(spans[k + 1..], size, txt)
        else Scan(spans[k + 1..], best, text);
      if best == 0.0 && text == [] && NoneEligibleBefore(spans, k) {
        ScanStepInitial(spans, k);
      } else {
        var i :| 0 <= i < k && LeadsUpTo(spans, k, i) && best == SpanSize(spans[i]) && text == Strip(spans[i].text);
        ScanStepLeading(spans, k, i);
      }
      if txt != [] && size > best {
        ScanFrom(spans, k + 1, size, txt);
      } else {
        ScanFrom(spans, k + 1, best, text);
      }
    }
  }

  /** At most one span leads the whole page, so the title is well defined. */
  lemma LeaderUnique(spans: seq<Span>, i: nat, j: nat)
    requires LeadsUpTo(spans, |spans|, i) && LeadsUpTo(spans, |spans|, j)
    ensures i == j
  {
  }

  /** `str.rfind(c)`: the position of the last `c` in `s`, or -1. */
  function RFind(s: string, c: char): (i: int)
    ensures -1 <= i < |s|
    ensures i >= 0 ==> s[i] == c
    ensures forall j :: i < j < |s| ==> s[j] != c
  {
    if |s| == 0 then -1
    else if s[|s| - 1] == c then |s| - 1
    else RFind(s[..|s| - 1], c)
  }

  /** `PurePath(path).name`: what follows the last '/'. */
  function BaseName(path: string): (r: string)
    ensures '/' !in r
    ensures |r| <= |path| && path[|path| - |r|..] == r
    ensures |r| < |path| ==> path[|path| - |r| - 1] == '/'
  {
    path[RFind(path, '/') + 1..]
  }

  /** `PurePath(path).stem`: the base name without its last suffix. The
      suffix starts at the last '.', and only when that dot is neither the
      first nor the last character; otherwise the stem is the whole base
      name. */
  function Stem(path: string): (r: string)
    ensures '/' !in r
    ensures var name := BaseName(path);
      || r == name
      || (0 < |r| && |r| + 1 < |name| && name[..|r|] == r && name[|r|] == '.' && '.' !in name[|r| + 1..])
    ensures var name := BaseName(path);
      r == name ==> forall i :: 0 < i < |name| - 1 && name[i] == '.' ==> name[|name| - 1] == '.'
  {
    var name := BaseName(path);
    var i := RFind(name, '.');
    if 0 < i < |name| - 1 then name[..i] else name
  }

  /** The last occurrence is the one with no occurrence after it. */
  lemma RFindAt(s: string, c: char, k: int)
    requires -1 <= k < |s| && (k >= 0 ==> s[k] == c)
    requires forall j :: k < j < |s| ==> s[j] != c
    ensures RFind(s, c) == k
  {
  }

  /** After a directory part ending in '/', the base name is the rest. */
  lemma BaseNameAfter(dir: string, rest: string)
    requires '/' !in rest
    requires |dir| == 0 || dir[|dir| - 1] == '/'
    ensures BaseName(dir + rest) == rest
  {
    var path := dir + rest;
    forall j | |dir| <= j < |path| ensures path[j] != '/' {
      assert path[j] == rest[j - |dir|];
    }
    if |dir| > 0 {
      assert path[|dir| - 1] == '/';
    }
    RFindAt(path, '/', |dir| - 1);
    assert path[|dir|..] == rest;
  }

  /** The stem of `<dir>/<base>.pdf` is `base`, dots inside `base`
      included. */
  lemma StemOfPdfName(dir: string, base: string)
    requires |base| > 0 && '/' !in base
    requires |dir| == 0 || dir[|dir| - 1] == '/'
    ensures Stem(dir + base + ".pdf") == base
  {
    var name := base + ".pdf";
    assert '/' !in name by {
      forall j | 0 <= j < |name| ensures name[j] != '/' {
        if j < |base| { assert name[j] == base[j]; }
      }
    }
    assert dir + base + ".pdf" == dir + name;
    BaseNameAfter(dir, name);
    RFindAt(name, '.', |base|);
    assert name[..|base|] == base;
  }

  datatype MetadataError =
    /** `load_page(0)` on a document without pages raises. */
    NoFirstPage

  /** `extract_metadata(pdf)["title"]`: the stripped metadata title when it
      is not empty, otherwise the title inferred from page 1 when that is
      not empty, otherwise the file stem. */
  function ExtractMetadata(pdf: Pdf): (r: Result<string, MetadataError>)
    ensures var meta := Strip(pdf.metadataTitle.GetOr(""));
      && (meta != [] ==> r == Success(meta))
      && (meta == [] ==> (r.Failure? <==> |pdf.pages| == 0))
      && (meta == [] && |pdf.pages| > 0 ==>
            r.value == (if InferTitle(pdf.pages[0]) != [] then InferTitle(pdf.pages[0]) else Stem(pdf.name)))
    ensures r.Success? ==> r.value != [] || Stem(pdf.name) == []
  {
    var meta := Strip(pdf.metadataTitle.GetOr(""));
    if meta != [] then Success(meta)
    else if |pdf.pages| == 0 then Failure(NoFirstPage)
    else
      var inferred := InferTitle(pdf.pages[0]);
      Success(if inferred != [] then inferred else Stem(pdf.name))
  }

  /** Without a metadata title, and with some span on page 1 that has text
      and a positive size, the title is the stripped text of the first
      largest such span. */
  lemma TitleFromFirstPage(pdf: Pdf)
    requires Strip(pdf.metadataTitle.GetOr("")) == [] && |pdf.pages| > 0
    requires !NoneEligible(PageSpans(pdf.pages[0].blocks))
    ensures var spans := PageSpans(pdf.pages[0].blocks);
      exists i :: 0 <= i < |spans| && LeadsUpTo(spans, |spans|, i)
                  && ExtractMetadata(pdf) == Success(Strip(spans[i].text))
  {
    var spans := PageSpans(pdf.pages[0].blocks);
    var t := InferTitle(pdf.pages[0]);
    var i :| 0 <= i < |spans| && LeadsUpTo(spans, |spans|, i) && t == Strip(spans[i].text);
    assert ExtractMetadata(pdf) == Success(t);
  }

  /** Without a metadata title and with nothing eligible on page 1, the
      title is the file stem. */
  lemma TitleFallsBackToStem(pdf: Pdf)
    requires Strip(pdf.metadataTitle.GetOr("")) == [] && |pdf.pages| > 0
    requires NoneEligible(PageSpans(pdf.pages[0].blocks))
    ensures ExtractMetadata(pdf) == Success(Stem(pdf.name))
  {
  }
}
