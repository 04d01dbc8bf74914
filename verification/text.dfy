/** String helpers with the meaning Python gives them: `str.strip()`,
    `str.lower()`, `str.endswith()`, `" ".join(...)` and the ordering that
    `sorted` uses on strings. Case is ASCII only. */
module Text {

  /** The characters `str.strip()` removes: those for which Python's
      `str.isspace` holds (the ASCII controls tab to carriage return and
      file to unit separator, space, next line, no-break space, and the
      Unicode space separators, line and paragraph separators). */
  predicate IsSpace(c: char) {
    || ('\U{09}' <= c <= '\U{0D}')
    || ('\U{1C}' <= c <= '\U{20}')
    || c == '\U{85}' || c == '\U{A0}' || c == '\U{1680}'
    || ('\U{2000}' <= c <= '\U{200A}')
    || c == '\U{2028}' || c == '\U{2029}' || c == '\U{202F}' || c == '\U{205F}' || c == '\U{3000}'
  }

  predicate AllSpace(s: string) {
    forall i :: 0 <= i < |s| ==> IsSpace(s[i])
  }

  /** Neither end of `s` is whitespace. */
  predicate IsStripped(s: string) {
    |s| == 0 || (!IsSpace(s[0]) && !IsSpace(s[|s| - 1]))
  }

  /** `s.lstrip()`: the suffix of `s` left after its leading whitespace. */
  function TrimLeft(s: string): (r: string)
    ensures |r| <= |s|
    ensures |r| == 0 || !IsSpace(r[0])
  {
    if |s| > 0 && IsSpace(s[0]) then TrimLeft(s[1..]) else s
  }

  lemma {:induction false} TrimLeftDropsSpace(s: string)
    ensures var r := TrimLeft(s); r == s[|s| - |r|..] && AllSpace(s[..|s| - |r|])
  {
    if |s| > 0 && IsSpace(s[0]) {
      TrimLeftDropsSpace(s[1..]);
      var r := TrimLeft(s);
      assert s[1..][|s| - 1 - |r|..] == s[|s| - |r|..];
      forall i | 0 <= i < |s| - |r| ensures IsSpace(s[i]) {
        if i > 0 { assert s[1..][..|s| - 1 - |r|][i - 1] == s[i]; }
      }
    }
  }

  /** `s.rstrip()`: the prefix of `s` left before its trailing whitespace. */
  function TrimRight(s: string): (r: string)
    ensures |r| <= |s|
    ensures |r| == 0 || !IsSpace(r[|r| - 1])
    ensures |r| > 0 ==> r[0] == s[0]
  {
    if |s| > 0 && IsSpace(s[|s| - 1]) then TrimRight(s[..|s| - 1]) else s
  }

  lemma {:induction false} TrimRightDropsSpace(s: string)
    ensures var r := TrimRight(s); r == s[..|r|] && AllSpace(s[|r|..])
  {
    if |s| > 0 && IsSpace(s[|s| - 1]) {
      var t := s[..|s| - 1];
      TrimRightDropsSpace(t);
      var r := TrimRight(s);
      assert t[..|r|] == s[..|r|];
      forall i | |r| <= i < |s| ensures IsSpace(s[i]) {
        if i < |s| - 1 { assert t[|r|..][i - |r|] == s[i]; }
      }
    }
  }

  /** `s.strip()`: neither end of the result is whitespace. */
  function Strip(s: string): (r: string)
    ensures IsStripped(r)
    ensures |r| <= |s|
  {
    TrimRight(TrimLeft(s))
  }

  /** What `strip` removes is whitespace, and only from the two ends: the
      result is the infix `s[lo..lo + |r|]`. */
  lemma StripIsTrimmedInfix(s: string)
    ensures var r := Strip(s);
      exists lo :: 0 <= lo <= |s| - |r| && r == s[lo..lo + |r|]
                   && AllSpace(s[..lo]) && AllSpace(s[lo + |r|..])
  {
    var left := TrimLeft(s);
    var r := TrimRight(left);
    TrimLeftDropsSpace(s);
    TrimRightDropsSpace(left);
    var lo := |s| - |left|;
    PrefixOfSuffix(s, lo, left, r);
  }

  /** A prefix `r` of the suffix `left == s[lo..]` is the infix of `s` at
      `lo`, and what follows it in `left` is what follows it in `s`. */
  lemma PrefixOfSuffix(s: string, lo: nat, left: string, r: string)
    requires lo <= |s| && left == s[lo..]
    requires |r| <= |left| && r == left[..|r|]
    ensures r == s[lo..lo + |r|]
    ensures s[lo + |r|..] == left[|r|..]
  {
  }

  /** Stripping leaves nothing exactly when the string is all whitespace. */
  lemma StripEmptyIffAllSpace(s: string)
    ensures Strip(s) == [] <==> AllSpace(s)
  {
    var r := Strip(s);
    StripIsTrimmedInfix(s);
    var lo :| 0 <= lo <= |s| - |r| && r == s[lo..lo + |r|]
              && AllSpace(s[..lo]) && AllSpace(s[lo + |r|..]);
    PaddedEmptyIffAllSpace(s, r, lo);
  }

  /** A stripped infix padded with whitespace on both sides is empty
      exactly when the whole string is whitespace. */
  lemma PaddedEmptyIffAllSpace(s: string, r: string, lo: nat)
    requires lo <= |s| - |r| && r == s[lo..lo + |r|] && IsStripped(r)
    requires AllSpace(s[..lo]) && AllSpace(s[lo + |r|..])
    ensures r == [] <==> AllSpace(s)
  {
    if r == [] {
      forall i | 0 <= i < |s| ensures IsSpace(s[i]) {
        if i < lo { assert s[..lo][i] == s[i]; } else { assert s[lo..][i - lo] == s[i]; }
      }
    } else {
      assert r[0] == s[lo];
    }
  }

  /** A stripped string is its own strip, so `strip` is idempotent. */
  lemma StripOfStripped(s: string)
    requires IsStripped(s)
    ensures Strip(s) == s
  {
    var r := Strip(s);
    StripIsTrimmedInfix(s);
    var lo :| 0 <= lo <= |s| - |r| && r == s[lo..lo + |r|]
              && AllSpace(s[..lo]) && AllSpace(s[lo + |r|..]);
    if |s| > 0 {
      assert lo == 0;
      assert lo + |r| == |s|;
    }
  }

  lemma StripIdempotent(s: string)
    ensures Strip(Strip(s)) == Strip(s)
  {
    StripOfStripped(Strip(s));
  }

  function LowerChar(c: char): char {
    if 'A' <= c <= 'Z' then (c as int - 'A' as int + 'a' as int) as char else c
  }

  /** `s.lower()` over ASCII letters. */
  function Lower(s: string): (r: string)
    ensures |r| == |s|
    ensures forall i :: 0 <= i < |s| ==> r[i] == LowerChar(s[i])
  {
    if |s| == 0 then [] else [LowerChar(s[0])] + Lower(s[1..])
  }

  predicate EndsWith(s: string, suffix: string) {
    |suffix| <= |s| && s[|s| - |suffix|..] == suffix
  }

  /** The total length of the parts. */
  function TotalLength(parts: seq<string>): nat {
    if |parts| == 0 then 0 else |parts[0]| + TotalLength(parts[1..])
  }

  /** `sep.join(parts)`: the parts with one separator between neighbours,
      none before the first or after the last. */
  function Join(parts: seq<string>, sep: string): (r: string)
    ensures |parts| == 0 ==> r == []
    ensures |parts| > 0 ==> |r| == TotalLength(parts) + (|parts| - 1) * |sep|
  {
    if |parts| == 0 then []
    else if |parts| == 1 then parts[0]
    else parts[0] + sep + Join(parts[1..], sep)
  }

  /** Where part `k` starts in the joined string: after the parts before
      it, each followed by a separator. */
  function JoinOffset(parts: seq<string>, sep: string, k: nat): nat
    requires k <= |parts|
  {
    TotalLength(parts[..k]) + k * |sep|
  }

  /** Part `k` of the join sits at its offset, and a separator follows it
      unless it is the last part. */
  lemma {:induction false} JoinLayout(parts: seq<string>, sep: string, k: nat)
    requires k < |parts|
    ensures var r := Join(parts, sep); var o := JoinOffset(parts, sep, k);
      && o + |parts[k]| <= |r|
      && r[o..o + |parts[k]|] == parts[k]
      && (k + 1 < |parts| ==> o + |parts[k]| + |sep| <= |r| && r[o + |parts[k]|..o + |parts[k]| + |sep|] == sep)
  {
    if k == 0 {
      JoinFirst(parts, sep);
    } else {
      var tail := parts[1..];
      JoinLayout(tail, sep, k - 1);
      JoinOffsetStep(parts, sep, k);
      JoinShift(parts, sep, k);
    }
  }

  /** The first part opens the join, followed by a separator when more
      parts come. */
  lemma JoinFirst(parts: seq<string>, sep: string)
    requires 0 < |parts|
    ensures var r := Join(parts, sep); var o := JoinOffset(parts, sep, 0);
      && o == 0 && |parts[0]| <= |r| && r[..|parts[0]|] == parts[0]
      && (1 < |parts| ==> |parts[0]| + |sep| <= |r| && r[|parts[0]|..|parts[0]| + |sep|] == sep)
  {
    assert parts[..0] == [];
  }

  /** Past the first part, offsets shift by the first part and one
      separator. */
  lemma JoinOffsetStep(parts: seq<string>, sep: string, k: nat)
    requires 0 < k < |parts|
    ensures JoinOffset(parts, sep, k) == |parts[0]| + |sep| + JoinOffset(parts[1..], sep, k - 1)
  {
    assert parts[..k][1..] == parts[1..][..k - 1];
    assert TotalLength(parts[..k]) == |parts[0]| + TotalLength(parts[1..][..k - 1]);
    assert k * |sep| == |sep| + (k - 1) * |sep|;
  }

  /** The layout of part `k` in the join of the tail carries over to the
      whole join, shifted by the first part and one separator. */
  lemma JoinShift(parts: seq<string>, sep: string, k: nat)
    requires 0 < k < |parts|
    requires var r := Join(parts[1..], sep); var o := JoinOffset(parts[1..], sep, k - 1);
      && o + |parts[k]| <= |r|
      && r[o..o + |parts[k]|] == parts[k]
      && (k + 1 < |parts| ==> o + |parts[k]| + |sep| <= |r| && r[o + |parts[k]|..o + |parts[k]| + |sep|] == sep)
    requires JoinOffset(parts, sep, k) == |parts[0]| + |sep| + JoinOffset(parts[1..], sep, k - 1)
    ensures var r := Join(parts, sep); var o := JoinOffset(parts, sep, k);
      && o + |parts[k]| <= |r|
      && r[o..o + |parts[k]|] == parts[k]
      && (k + 1 < |parts| ==> o + |parts[k]| + |sep| <= |r| && r[o + |parts[k]|..o + |parts[k]| + |sep|] == sep)
  {
    var head := parts[0] + sep;
    var rest := Join(parts[1..], sep);
    assert Join(parts, sep) == head + rest;
    var o := JoinOffset(parts[1..], sep, k - 1);
    SliceAfter(head, rest, o, o + |parts[k]|);
    if k + 1 < |parts| {
      SliceAfter(head, rest, o + |parts[k]|, o + |parts[k]| + |sep|);
    }
  }

  lemma SliceAfter(a: string, b: string, i: nat, j: nat)
    requires i <= j <= |b|
    ensures (a + b)[|a| + i..|a| + j] == b[i..j]
  {
  }

  /** Python's ordering of `str` values: code point by code point, a proper
      prefix before its extensions. */
  predicate Less(a: string, b: string) {
    |b| > 0 && (|a| == 0 || a[0] < b[0] || (a[0] == b[0] && Less(a[1..], b[1..])))
  }

  predicate LessEq(a: string, b: string) {
    a == b || Less(a, b)
  }

  lemma {:induction false} LessAsymmetric(a: string, b: string)
    ensures !(Less(a, b) && Less(b, a))
  {
    if |a| > 0 && |b| > 0 && a[0] == b[0] { LessAsymmetric(a[1..], b[1..]); }
  }

  lemma {:induction false} LessTotal(a: string, b: string)
    ensures a == b || Less(a, b) || Less(b, a)
  {
    if |a| > 0 && |b| > 0 && a[0] == b[0] {
      LessTotal(a[1..], b[1..]);
      if a[1..] == b[1..] { assert a == [a[0]] + a[1..] && b == [b[0]] + b[1..]; }
    }
  }

  lemma {:induction false} LessTransitive(a: string, b: string, c: string)
    requires Less(a, b) && Less(b, c)
    ensures Less(a, c)
  {
    if |a| > 0 && a[0] == b[0] && b[0] == c[0] { LessTransitive(a[1..], b[1..], c[1..]); }
  }
}
