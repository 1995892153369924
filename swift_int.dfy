/**
 * Swift's integer operators and integer-to-text conversion, written out
 * because Dafny's `/` and `%` are Euclidean while Swift's truncate toward zero.
 */
module SwiftInt {

  function Abs(a: int): nat { if a < 0 then -a else a }

  /** Swift's `a / b`: the quotient rounded toward zero. */
  function Div(a: int, b: int): (q: int)
    requires b != 0
    ensures a >= 0 && b > 0 ==> q == a / b
    ensures Abs(q) == Abs(a) / Abs(b)
    ensures q < 0 ==> (a < 0) != (b < 0)
    ensures q > 0 ==> (a < 0) == (b < 0)
  {
    var n, d := Abs(a), Abs(b);
    QuotientNonNegative(n, d);
    var m := n / d;
    assert Abs(m) == m && Abs(-m) == m;
    if (a < 0) == (b < 0) then m else -m
  }

  lemma QuotientNonNegative(n: nat, d: int)
    requires d > 0
    ensures n / d >= 0
  {
  }

  /** Swift's `a % b`: the remainder takes the sign of the dividend. */
  function Rem(a: int, b: int): (r: int)
    requires b != 0
    ensures a >= 0 && b > 0 ==> r == a % b
    ensures Abs(r) == Abs(a) % Abs(b)
    ensures r > 0 ==> a > 0
    ensures r < 0 ==> a < 0
  {
    RemMagnitude(a, b);
    a - b * Div(a, b)
  }

  /** `a - b * (a / b)` has the dividend's sign and the magnitude of `|a| % |b|`. */
  lemma RemMagnitude(a: int, b: int)
    requires b != 0
    ensures var r := a - b * Div(a, b);
      Abs(r) == Abs(a) % Abs(b) && (r > 0 ==> a > 0) && (r < 0 ==> a < 0)
  {
    var n: int, d: int := Abs(a), Abs(b);
    var p := d * (n / d);
    assert n == p + n % d;
    assert b * Div(a, b) == if a < 0 then -p else p;
  }

  // ---- decimal text, as Swift's "\(n)" prints an Int ----

  predicate IsDigit(c: char) { '0' <= c <= '9' }

  predicate AllDigits(s: string) { forall i :: 0 <= i < |s| ==> IsDigit(s[i]) }

  function DigitChar(d: int): (c: char)
    requires 0 <= d <= 9
    ensures IsDigit(c) && c as int - '0' as int == d
  {
    ('0' as int + d) as char
  }

  /** The decimal digits of `n`, most significant first, without leading zeros. */
  function NatToString(n: nat): (s: string)
    ensures |s| >= 1 && AllDigits(s)
    ensures n >= 10 <==> |s| >= 2
    ensures (s[0] == '0') <==> n == 0
    decreases n
  {
    if n < 10 then [DigitChar(n)] else NatToString(n / 10) + [DigitChar(n % 10)]
  }

  /** Swift's `"\(n)"`: a minus sign before the digits of a negative number. */
  function IntToString(n: int): (s: string)
    ensures |s| >= 1
    ensures n < 0 <==> s[0] == '-'
    ensures n >= 0 ==> AllDigits(s)
  {
    if n < 0 then "-" + NatToString(-n) else NatToString(n)
  }

  /** The value of a string of decimal digits; the inverse of NatToString. */
  function DigitsValue(s: string): nat
    requires AllDigits(s)
  {
    if s == [] then 0
    else DigitsValue(s[..|s| - 1]) * 10 + (s[|s| - 1] as int - '0' as int)
  }

  lemma {:induction false} DigitsRoundTrip(n: nat)
    ensures DigitsValue(NatToString(n)) == n
    decreases n
  {
    var s := NatToString(n);
    if n >= 10 {
      DigitsRoundTrip(n / 10);
      assert s[..|s| - 1] == NatToString(n / 10);
    }
  }
}
