/** Heading levels and outline entries. A level is kept as its positive
    index `k` and rendered as the string `"H"` followed by `k` in decimal,
    as the f-string `f"H{idx+1}"` does. */
module Levels {
  import opened Wrappers

  type Level = k: nat | k >= 1 witness 1

  /** One `{level, text, page}` element of an outline. */
  datatype Entry = Entry(level: Level, text: string, page: int)

  predicate IsDigit(c: char) {
    '0' <= c <= '9'
  }

  predicate AllDigits(s: string) {
    forall i :: 0 <= i < |s| ==> IsDigit(s[i])
  }

  function DigitChar(d: nat): (c: char)
    requires d < 10
    ensures IsDigit(c) && c as int - '0' as int == d
  {
    ('0' as int + d) as char
  }

  /** `str(n)` for a natural number. */
  function Decimal(n: nat): (r: string)
    ensures |r| >= 1 && AllDigits(r)
    ensures n >= 1 ==> r[0] != '0'
  {
    if n < 10 then [DigitChar(n)] else Decimal(n / 10) + [DigitChar(n % 10)]
  }

  /** `int(s)` for a string of decimal digits. */
  function DecimalValue(s: string): nat
    requires AllDigits(s)
  {
    if |s| == 0 then 0
    else 10 * DecimalValue(s[..|s| - 1]) + (s[|s| - 1] as int - '0' as int)
  }

  lemma {:induction false} DecimalRoundTrip(n: nat)
    ensures DecimalValue(Decimal(n)) == n
  {
    if n >= 10 {
      var r := Decimal(n);
      assert r[..|r| - 1] == Decimal(n / 10);
      DecimalRoundTrip(n / 10);
    }
  }

  function LevelName(k: Level): (r: string)
    ensures |r| >= 2 && r[0] == 'H' && r[1] != '0' && AllDigits(r[1..])
  {
    "H" + Decimal(k)
  }

  /** Reads a level name back; `None` for anything that is not `H<k>`
      with a positive `k` and no leading zero. */
  function ParseLevel(s: string): Option<Level> {
    if |s| >= 2 && s[0] == 'H' && s[1] != '0' && AllDigits(s[1..]) then
      var v := DecimalValue(s[1..]);
      if v >= 1 then Some(v) else None
    else None
  }

  /** Rendering then parsing gives the level back, so distinct levels have
      distinct names. */
  lemma LevelNameRoundTrip(k: Level)
    ensures ParseLevel(LevelName(k)) == Some(k)
  {
    assert LevelName(k)[1..] == Decimal(k);
    DecimalRoundTrip(k);
  }

  lemma LevelNameInjective(a: Level, b: Level)
    requires LevelName(a) == LevelName(b)
    ensures a == b
  {
    LevelNameRoundTrip(a);
    LevelNameRoundTrip(b);
  }
}
