/** Two-decimal values as the schema stores them and the API renders them:
    rounding an exact mean to hundredths, and the "d.dd" text form. */
module Decimals {
  import opened Domain

  /** `m` rounded to the nearest hundredth (a half rounds up), in hundredths. */
  function Round2(m: Mean): (h: nat)
    ensures 2 * h * m.count <= 200 * m.total + m.count < 2 * h * m.count + 2 * m.count
  {
    var d := 2 * m.count;
    var n := 200 * m.total + m.count;
    assert n == (n / d) * d + n % d;
    n / d
  }

  /** A mean of rates 1..5 rounds to a value between 1.00 and 5.00, which the
      three-digit rating column can hold. */
  lemma RoundedRatingFits(m: Mean)
    requires m.count <= m.total <= 5 * m.count
    ensures 100 <= Round2(m) <= 500
    ensures RatingFits(Round2(m))
  {
    var h := Round2(m);
    assert 2 * h * m.count == 2 * (h * m.count);
    if h < 100 {
      MulMono(h, 99, m.count);
    }
    if h > 500 {
      MulMono(501, h, m.count);
    }
  }

  lemma MulMono(a: nat, b: nat, c: nat)
    requires a <= b
    ensures a * c <= b * c
  {
  }

  predicate IsDigit(c: char) {
    '0' <= c <= '9'
  }

  function DigitChar(d: nat): (c: char)
    requires d < 10
    ensures IsDigit(c)
  {
    ('0' as int + d) as char
  }

  function DigitValue(c: char): nat
    requires IsDigit(c)
  {
    c as int - '0' as int
  }

  predicate AllDigits(s: string) {
    forall i :: 0 <= i < |s| ==> IsDigit(s[i])
  }

  /** The decimal digits of `n`, most significant first, without leading zeros. */
  function NatDigits(n: nat): (s: string)
    ensures |s| >= 1 && AllDigits(s)
    ensures s[0] == '0' <==> n == 0
    decreases n
  {
    if n < 10 then [DigitChar(n)] else NatDigits(n / 10) + [DigitChar(n % 10)]
  }

  /** The number a string of decimal digits denotes. */
  function DigitsValue(s: string): nat
    requires AllDigits(s)
  {
    if s == [] then 0 else DigitsValue(s[..|s| - 1]) * 10 + DigitValue(s[|s| - 1])
  }

  lemma {:induction false} DigitsRoundTrip(n: nat)
    ensures DigitsValue(NatDigits(n)) == n
    decreases n
  {
    if n >= 10 {
      var s := NatDigits(n);
      assert s[..|s| - 1] == NatDigits(n / 10);
      DigitsRoundTrip(n / 10);
    }
  }

  /** The two digits of `x` < 100, a leading zero included. */
  function TwoDigits(x: nat): (s: string)
    requires x < 100
    ensures |s| == 2 && AllDigits(s)
  {
    [DigitChar(x / 10), DigitChar(x % 10)]
  }

  lemma TwoDigitsValue(x: nat)
    requires x < 100
    ensures DigitsValue(TwoDigits(x)) == x
  {
    var s := TwoDigits(x);
    assert s[..1] == [s[0]] && s[..1][..0] == [];
    assert DigitValue(s[0]) == x / 10 && DigitValue(s[1]) == x % 10;
    assert DigitsValue(s[..1]) == x / 10;
  }

  /** `a` hundredths written "d…d.dd": the whole units without leading zeros, a point,
      and the two decimals. */
  function Unsigned2(a: nat): (s: string)
    ensures |s| >= 4 && s[|s| - 3] == '.' && AllDigits(s[..|s| - 3]) && AllDigits(s[|s| - 2..])
    ensures s[..|s| - 3] == NatDigits(a / 100) && s[|s| - 2..] == TwoDigits(a % 100)
  {
    var s := NatDigits(a / 100) + "." + TwoDigits(a % 100);
    assert s[..|s| - 3] == NatDigits(a / 100);
    assert s[|s| - 2..] == TwoDigits(a % 100);
    s
  }

  /** `h` hundredths written with exactly two decimals: "25.00", "4.67", "-0.50". */
  function Fixed2(h: int): (s: string)
    ensures |s| >= 4 && s[|s| - 3] == '.' && IsDigit(s[|s| - 2]) && IsDigit(s[|s| - 1])
    ensures (s[0] == '-') == (h < 0)
    ensures h < 0 ==> s[1..] == Unsigned2(-h)
    ensures h >= 0 ==> s == Unsigned2(h)
  {
    if h < 0 then "-" + Unsigned2(-h) else Unsigned2(h)
  }

  /** Reads "d…d.dd", optionally signed with '-', back into hundredths. */
  function ParseFixed2(s: string): Option<int> {
    if |s| >= 1 && s[0] == '-' then
      match ParseUnsigned(s[1..])
      case Some(v) => Some(-v)
      case None => None
    else ParseUnsigned(s)
  }

  function ParseUnsigned(s: string): Option<int> {
    if |s| >= 4 && s[|s| - 3] == '.' && AllDigits(s[..|s| - 3]) && AllDigits(s[|s| - 2..]) then
      Some(DigitsValue(s[..|s| - 3]) * 100 + DigitsValue(s[|s| - 2..]))
    else None
  }

  lemma Unsigned2RoundTrip(a: nat)
    ensures ParseUnsigned(Unsigned2(a)) == Some(a)
  {
    var s := Unsigned2(a);
    assert s[..|s| - 3] == NatDigits(a / 100);
    assert s[|s| - 2..] == TwoDigits(a % 100);
    DigitsRoundTrip(a / 100);
    TwoDigitsValue(a % 100);
  }

  /** Rendering with two decimals loses nothing: the text reads back as the same value. */
  lemma Fixed2RoundTrip(h: int)
    ensures ParseFixed2(Fixed2(h)) == Some(h)
  {
    if h < 0 {
      var u := Unsigned2(-h);
      assert ("-" + u)[0] == '-' && ("-" + u)[1..] == u;
      Unsigned2RoundTrip(-h);
    } else {
      var u := Unsigned2(h);
      assert u[0] == u[..|u| - 3][0] && u[0] != '-';
      Unsigned2RoundTrip(h);
    }
  }

  function Pow10(k: nat): (p: nat)
    ensures p >= 1
  {
    if k == 0 then 1 else 10 * Pow10(k - 1)
  }

  /** A number below 10^k has at most k digits. */
  lemma {:induction false} NatDigitsLength(n: nat, k: nat)
    requires 0 < k && n < Pow10(k)
    ensures |NatDigits(n)| <= k
  {
    if n >= 10 {
      assert n / 10 < Pow10(k - 1);
      NatDigitsLength(n / 10, k - 1);
    }
  }

  /** A decimal column with `digits` digits, two of them after the point, holds values
      below 10^digits hundredths in magnitude; each is written with at most `digits`
      digits, a point and a sign. */
  lemma ColumnWidth(h: int, digits: nat)
    requires digits >= 3 && -(Pow10(digits) as int) < h < Pow10(digits)
    ensures |Fixed2(h)| <= digits + 2
  {
    var a: nat := if h < 0 then -h else h;
    assert Pow10(digits) == 100 * Pow10(digits - 2) by {
      assert Pow10(digits) == 10 * Pow10(digits - 1);
      assert Pow10(digits - 1) == 10 * Pow10(digits - 2);
    }
    assert a / 100 < Pow10(digits - 2);
    NatDigitsLength(a / 100, digits - 2);
    assert |Unsigned2(a)| == |NatDigits(a / 100)| + 3;
  }

  /** The price column (7 digits, 2 after the point) and the rating column (3 digits,
      2 after the point): what fits is written with at most that many digits. */
  lemma ColumnsWidths(price: int, rating: int)
    requires PriceFits(price) && RatingFits(rating)
    ensures |Fixed2(price)| <= 9 && |Fixed2(rating)| <= 5
  {
    assert Pow10(3) == RatingBound;
    assert Pow10(7) == PriceBound;
    ColumnWidth(price, 7);
    ColumnWidth(rating, 3);
  }

  /** The optional two-decimal rendering of an optional mean: absent stays absent. */
  function RenderMean(m: Option<Mean>): (s: Option<string>)
    ensures s.None? <==> m.None?
    ensures m.Some? ==> ParseFixed2(s.value) == Some(Round2(m.value))
  {
    match m
    case None => None
    case Some(v) => Fixed2RoundTrip(Round2(v)); Some(Fixed2(Round2(v)))
  }
}
