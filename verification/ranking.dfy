/** Ranking of font sizes: the distinct sizes in descending order, and the
    1-based position of a size in that order. Both outline builders name a
    size's level after this position. */
module Ranking {

  predicate StrictlyDecreasing(s: seq<real>) {
    forall i, j :: 0 <= i < j < |s| ==> s[i] > s[j]
  }

  /** Adds `x` to a strictly decreasing sequence, keeping it strictly
      decreasing and free of repeats. */
  function InsertDesc(x: real, s: seq<real>): (r: seq<real>)
    requires StrictlyDecreasing(s)
    ensures StrictlyDecreasing(r)
    ensures forall y :: y in r <==> y == x || y in s
    ensures |r| <= |s| + 1
  {
    if |s| == 0 then [x]
    else if x > s[0] then
      ConsDecreasing(x, s);
      [x] + s
    else if x == s[0] then s
    else
      var t := InsertDesc(x, s[1..]);
      assert forall y :: y in t ==> y < s[0];
      ConsDecreasing(s[0], t);
      assert s == [s[0]] + s[1..];
      [s[0]] + t
  }

  /** A head above every element of a strictly decreasing tail keeps the
      sequence strictly decreasing. */
  lemma ConsDecreasing(h: real, t: seq<real>)
    requires StrictlyDecreasing(t)
    requires forall y :: y in t ==> y < h
    ensures StrictlyDecreasing([h] + t)
  {
    var r := [h] + t;
    forall i, j | 0 <= i < j < |r| ensures r[i] > r[j] {
      assert r[j] == t[j - 1];
      if i > 0 { assert r[i] == t[i - 1]; } else { assert r[j] in t; }
    }
  }

  /** `sorted(set(xs), reverse=True)`. */
  function DistinctDesc(xs: seq<real>): (r: seq<real>)
    ensures StrictlyDecreasing(r)
    ensures forall y :: y in r <==> y in xs
    ensures |r| <= |xs|
  {
    if |xs| == 0 then [] else InsertDesc(xs[0], DistinctDesc(xs[1..]))
  }

  lemma HeadIsMax(s: seq<real>, k: nat)
    requires StrictlyDecreasing(s) && k < |s|
    ensures s[0] >= s[k]
  {
  }

  /** When `m` is the largest value, it leads the distinct listing. */
  lemma DistinctLeadIsMax(xs: seq<real>, m: real)
    requires m in xs && forall h :: 0 <= h < |xs| ==> xs[h] <= m
    ensures |DistinctDesc(xs)| > 0 && DistinctDesc(xs)[0] == m
  {
    var d := DistinctDesc(xs);
    assert m in d;
    HeadIsMax(d, IndexOf(d, m));
    assert d[0] in xs;
  }

  /** A finite set of reals has exactly one strictly decreasing listing, so
      `DistinctDesc` is the listing Python's `sorted(..., reverse=True)`
      produces, whatever order the set is iterated in. */
  lemma {:induction false} DecreasingListingUnique(a: seq<real>, b: seq<real>)
    requires StrictlyDecreasing(a) && StrictlyDecreasing(b)
    requires forall y :: y in a <==> y in b
    ensures a == b
  {
    FirstIsMember(a);
    FirstIsMember(b);
    if |a| > 0 {
      assert a[0] in a;
      assert |b| > 0;
      assert b[0] in a;
      assert a[0] == b[0] by {
        var i :| 0 <= i < |b| && b[i] == a[0];
        var j :| 0 <= j < |a| && a[j] == b[0];
        HeadIsMax(a, j);
        HeadIsMax(b, i);
      }
      forall y ensures y in a[1..] <==> y in b[1..] {
        if y in a[1..] {
          var k :| 1 <= k < |a| && a[k] == y;
          assert y < a[0];
          assert y in b && y != b[0];
        }
        if y in b[1..] {
          var k :| 1 <= k < |b| && b[k] == y;
          assert y < b[0];
          assert y in a && y != a[0];
        }
      }
      DecreasingListingUnique(a[1..], b[1..]);
    }
  }

  lemma FirstIsMember(s: seq<real>)
    ensures |s| > 0 ==> s[0] in s
  {
  }

  /** Position of `x` in a sequence that holds it. */
  function IndexOf(s: seq<real>, x: real): (i: nat)
    requires x in s
    ensures i < |s| && s[i] == x
  {
    if s[0] == x then 0 else 1 + IndexOf(s[1..], x)
  }

  /** The level of size `x` when the distinct sizes are ranked in `s`:
      the largest is 1, the next 2, and so on. */
  function Rank(s: seq<real>, x: real): (k: nat)
    requires StrictlyDecreasing(s) && x in s
    ensures 1 <= k <= |s| && s[k - 1] == x
  {
    IndexOf(s, x) + 1
  }

  /** In a strictly decreasing listing, the element at position `k` has
      rank `k + 1`. */
  lemma RankOfPosition(s: seq<real>, k: nat)
    requires StrictlyDecreasing(s) && k < |s|
    ensures Rank(s, s[k]) == k + 1
  {
  }

  /** A strictly larger size has a strictly smaller level, and only a
      larger size does. */
  lemma RankMonotone(s: seq<real>, x: real, y: real)
    requires StrictlyDecreasing(s) && x in s && y in s
    ensures x > y <==> Rank(s, x) < Rank(s, y)
    ensures x == y <==> Rank(s, x) == Rank(s, y)
  {
  }

  /** The members of `xs` strictly above `x`. */
  function Above(xs: seq<real>, x: real): set<real> {
    set y | y in xs && y > x
  }

  /** A size's level is one more than the number of distinct sizes strictly
      larger than it: ranking by position is ranking by count. */
  lemma {:induction false} RankCountsLarger(s: seq<real>, x: real)
    requires StrictlyDecreasing(s) && x in s
    ensures Rank(s, x) == |Above(s, x)| + 1
  {
    if s[0] == x {
      assert Above(s, x) == {} by {
        forall y | y in s ensures y <= x {
          var k :| 0 <= k < |s| && s[k] == y;
          if k > 0 { assert s[0] > s[k]; }
        }
      }
    } else {
      var t := s[1..];
      assert x in t;
      RankCountsLarger(t, x);
      assert Rank(s, x) == Rank(t, x) + 1;
      var i := IndexOf(t, x);
      assert s[0] > x by { assert s[0] > s[i + 1]; }
      assert s[0] !in t by {
        forall k | 0 <= k < |t| ensures t[k] != s[0] { assert s[0] > s[k + 1]; }
      }
      AboveCons(s, x);
    }
  }

  lemma AboveCons(s: seq<real>, x: real)
    requires |s| > 0 && s[0] > x && s[0] !in s[1..]
    ensures Above(s, x) == Above(s[1..], x) + {s[0]}
    ensures |Above(s, x)| == |Above(s[1..], x)| + 1
  {
    var t := s[1..];
    forall y ensures y in Above(s, x) <==> y in Above(t, x) || y == s[0] {
      assert y in s <==> y == s[0] || y in t by { assert s == [s[0]] + t; }
    }
    assert s[0] !in Above(t, x);
  }

  /** The same count, taken over the input sizes with repeats: the rank of
      a size in `DistinctDesc(xs)` is one more than the number of distinct
      values of `xs` above it. */
  lemma RankOfDistinct(xs: seq<real>, x: real)
    requires x in xs
    ensures Rank(DistinctDesc(xs), x) == |Above(xs, x)| + 1
  {
    var d := DistinctDesc(xs);
    RankCountsLarger(d, x);
    assert Above(d, x) == Above(xs, x);
  }
}
