/** `list_pdfs(input_dir)` of src/loader.py over the list of directory
    entry names: keep the names whose lower-cased form ends in ".pdf",
    then sort them. */
module Loader {
  import opened Text

  predicate IsPdfName(name: string) {
    EndsWith(Lower(name), ".pdf")
  }

  /** `[f for f in names if f.lower().endswith('.pdf')]`. */
  function PdfNames(names: seq<string>): (r: seq<string>)
    ensures forall i :: 0 <= i < |r| ==> IsPdfName(r[i])
  {
    if |names| == 0 then []
    else (if IsPdfName(names[0]) then [names[0]] else []) + PdfNames(names[1..])
  }

  /** Every name is kept exactly as often as it occurs when it is a PDF
      name, and dropped otherwise. */
  lemma {:induction false} PdfNamesCount(names: seq<string>, x: string)
    ensures multiset(PdfNames(names))[x] == if IsPdfName(x) then multiset(names)[x] else 0
  {
    if |names| > 0 {
      PdfNamesCount(names[1..], x);
      assert names == [names[0]] + names[1..];
    }
  }

  predicate Sorted(s: seq<string>) {
    forall i, j :: 0 <= i < j < |s| ==> LessEq(s[i], s[j])
  }

  function Insert(x: string, s: seq<string>): (r: seq<string>)
    requires Sorted(s)
    ensures Sorted(r)
    ensures multiset(r) == multiset(s) + multiset{x}
  {
    if |s| == 0 then [x]
    else if LessEq(x, s[0]) then
      assert forall j :: 0 <= j < |s| ==> LessEq(x, s[j]) by {
        forall j | 0 <= j < |s| ensures LessEq(x, s[j]) {
          if x != s[0] && s[0] != s[j] { LessTransitive(x, s[0], s[j]); }
        }
      }
      [x] + s
    else
      assert Less(s[0], x) by { LessTotal(x, s[0]); }
      var t := Insert(x, s[1..]);
      assert s == [s[0]] + s[1..];
      InsertAboveHead(x, s, t);
      [s[0]] + t
  }

  lemma InsertAboveHead(x: string, s: seq<string>, t: seq<string>)
    requires Sorted(s) && |s| > 0 && Less(s[0], x) && Sorted(t)
    requires multiset(t) == multiset(s[1..]) + multiset{x}
    ensures Sorted([s[0]] + t)
  {
    forall k | 0 <= k < |t| ensures LessEq(s[0], t[k]) {
      var y := t[k];
      assert y in multiset(t);
      if y != x {
        assert y in multiset(s[1..]);
        var j :| 0 <= j < |s[1..]| && s[1..][j] == y;
        assert s[j + 1] == y;
      }
    }
    var r := [s[0]] + t;
    forall i, j | 0 <= i < j < |r| ensures LessEq(r[i], r[j]) {
      if i == 0 { assert r[j] == t[j - 1]; } else { assert r[i] == t[i - 1] && r[j] == t[j - 1]; }
    }
  }

  /** `sorted(names)`. */
  function Sort(s: seq<string>): (r: seq<string>)
    ensures Sorted(r)
    ensures multiset(r) == multiset(s)
  {
    if |s| == 0 then []
    else
      assert s == [s[0]] + s[1..];
      Insert(s[0], Sort(s[1..]))
  }

  /** `list_pdfs`: the PDF names, sorted. */
  function ListPdfs(names: seq<string>): (r: seq<string>)
    ensures Sorted(r)
    ensures multiset(r) == multiset(PdfNames(names))
    ensures forall i :: 0 <= i < |r| ==> IsPdfName(r[i])
  {
    var r := Sort(PdfNames(names));
    forall i | 0 <= i < |r| ensures IsPdfName(r[i]) {
      assert r[i] in multiset(PdfNames(names));
    }
    r
  }

  /** The result holds exactly the PDF names of the input, each as often
      as it occurs there: nothing else is dropped or added. */
  lemma ListPdfsCount(names: seq<string>, x: string)
    ensures multiset(ListPdfs(names))[x] == if IsPdfName(x) then multiset(names)[x] else 0
  {
    PdfNamesCount(names, x);
  }

  /** Sorted lists with the same elements start with the same element. */
  lemma SortedSameHead(a: seq<string>, b: seq<string>)
    requires Sorted(a) && Sorted(b) && multiset(a) == multiset(b) && |a| > 0 && |b| > 0
    ensures a[0] == b[0]
  {
    assert a[0] in multiset(b) && b[0] in multiset(a);
    var i :| 0 <= i < |b| && b[i] == a[0];
    var j :| 0 <= j < |a| && a[j] == b[0];
    assert LessEq(a[0], a[j]) && LessEq(b[0], b[i]);
    LessAsymmetric(a[0], b[0]);
  }

  /** Equal multisets stay equal when the same first element is removed. */
  lemma SameTails(a: seq<string>, b: seq<string>)
    requires |a| > 0 && |b| > 0 && a[0] == b[0] && multiset(a) == multiset(b)
    ensures multiset(a[1..]) == multiset(b[1..])
  {
    assert a == [a[0]] + a[1..] && b == [b[0]] + b[1..];
    assert multiset(a) == multiset{a[0]} + multiset(a[1..]);
    assert multiset(b) == multiset{a[0]} + multiset(b[1..]);
    forall y ensures multiset(a[1..])[y] == multiset(b[1..])[y] {
      assert multiset(a)[y] == multiset(b)[y];
    }
  }

  /** Two sorted lists with the same elements are the same list. */
  lemma {:induction false} SortedUnique(a: seq<string>, b: seq<string>)
    requires Sorted(a) && Sorted(b) && multiset(a) == multiset(b)
    ensures a == b
  {
    assert |a| == |multiset(a)| == |multiset(b)| == |b|;
    if |a| > 0 {
      SortedSameHead(a, b);
      SameTails(a, b);
      SortedUnique(a[1..], b[1..]);
      assert a == [a[0]] + a[1..] && b == [b[0]] + b[1..];
    }
  }

  /** The order in which the directory lists its entries does not matter. */
  lemma ListPdfsOrderFree(a: seq<string>, b: seq<string>)
    requires multiset(a) == multiset(b)
    ensures ListPdfs(a) == ListPdfs(b)
  {
    forall x ensures multiset(ListPdfs(a))[x] == multiset(ListPdfs(b))[x] {
      ListPdfsCount(a, x);
      ListPdfsCount(b, x);
    }
    assert multiset(ListPdfs(a)) == multiset(ListPdfs(b));
    SortedUnique(ListPdfs(a), ListPdfs(b));
  }

  /** Listing an already listed directory changes nothing. */
  lemma ListPdfsIdempotent(names: seq<string>)
    ensures ListPdfs(ListPdfs(names)) == ListPdfs(names)
  {
    var r := ListPdfs(names);
    forall x ensures multiset(ListPdfs(r))[x] == multiset(r)[x] {
      ListPdfsCount(r, x);
    }
    assert multiset(ListPdfs(r)) == multiset(r);
    SortedUnique(ListPdfs(r), r);
  }
}
