/** Decimal text of natural numbers: `n.toString()` and `Number(text)` as the
    class form uses them to glue numbers together digit by digit. */
module Decimal {

  predicate IsDigit(c: char) {
    '0' <= c <= '9'
  }

  predicate IsDigits(s: string) {
    forall i :: 0 <= i < |s| ==> IsDigit(s[i])
  }

  function DigitChar(d: nat): (c: char)
    requires d < 10
    ensures IsDigit(c)
  {
    (48 + d) as char
  }

  function DigitValue(c: char): (d: nat)
    requires IsDigit(c)
    ensures d < 10
  {
    (c as int) - 48
  }

  function Pow10(k: nat): (p: nat)
    ensures p >= 1
  {
    if k == 0 then 1 else 10 * Pow10(k - 1)
  }

  /** `n.toString()` for a natural number: the shortest decimal numeral. */
  function DecimalString(n: nat): (s: string)
    ensures |s| >= 1 && IsDigits(s)
    ensures |s| > 1 ==> s[0] != '0'
    decreases n
  {
    if n < 10 then [DigitChar(n)] else DecimalString(n / 10) + [DigitChar(n % 10)]
  }

  /** `Number(s)` for a string of decimal digits: its value, most
      significant digit first. */
  function ParseDecimal(s: string): nat
    requires IsDigits(s)
  {
    if s == [] then 0 else ParseDecimal(s[..|s| - 1]) * 10 + DigitValue(s[|s| - 1])
  }

  /** Reading back the numeral of n gives n. */
  lemma {:induction false} ParseDecimalString(n: nat)
    ensures ParseDecimal(DecimalString(n)) == n
    decreases n
  {
    var s := DecimalString(n);
    if n < 10 {
      assert s[..0] == [];
    } else {
      assert s[..|s| - 1] == DecimalString(n / 10);
      ParseDecimalString(n / 10);
    }
  }

  /** A numeral has fewer digits than the first power of ten above its value. */
  lemma {:induction false} DecimalStringBound(n: nat)
    ensures n < Pow10(|DecimalString(n)|)
    decreases n
  {
    if n >= 10 {
      var l := |DecimalString(n / 10)|;
      DecimalStringBound(n / 10);
      assert |DecimalString(n)| == l + 1;
      assert n / 10 + 1 <= Pow10(l);
      assert n < 10 * (n / 10 + 1);
    }
  }

  /** Reading two digit strings written one after the other shifts the
      first by the length of the second. */
  lemma {:induction false} ParseAppend(a: string, b: string)
    requires IsDigits(a) && IsDigits(b)
    ensures IsDigits(a + b)
    ensures ParseDecimal(a + b) == ParseDecimal(a) * Pow10(|b|) + ParseDecimal(b)
    decreases |b|
  {
    var ab := a + b;
    assert IsDigits(ab) by {
      forall i | 0 <= i < |ab| ensures IsDigit(ab[i]) {
        if i < |a| { assert ab[i] == a[i]; } else { assert ab[i] == b[i - |a|]; }
      }
    }
    if b == [] {
      assert ab == a;
    } else {
      var b' := b[..|b| - 1];
      var d := DigitValue(b[|b| - 1]);
      assert ab[..|ab| - 1] == a + b';
      assert ab[|ab| - 1] == b[|b| - 1];
      ParseAppend(a, b');
      var x, y, z := ParseDecimal(a), Pow10(|b'|), ParseDecimal(b');
      assert ParseDecimal(ab) == (x * y + z) * 10 + d;
      ShiftByDigit(x, y, z, d);
    }
  }

  lemma ShiftByDigit(x: nat, y: nat, z: nat, d: nat)
    ensures (x * y + z) * 10 + d == x * (10 * y) + (z * 10 + d)
  {
  }

  /** Writing two numbers one after the other and reading the text back:
      the number JavaScript's `Number(a.toString() + b.toString())` yields. */
  function Concat(a: nat, b: nat): (r: nat)
    ensures r == a * Pow10(|DecimalString(b)|) + b
  {
    ParseAppend(DecimalString(a), DecimalString(b));
    ParseDecimalString(a);
    ParseDecimalString(b);
    ParseDecimal(DecimalString(a) + DecimalString(b))
  }

  /** Dividing q * p + r by p when r < p gives back q and r. */
  lemma DivModShift(q: nat, p: nat, r: nat)
    requires r < p
    ensures (q * p + r) / p == q && (q * p + r) % p == r
  {
    var n := q * p + r;
    var q', r' := n / p, n % p;
    assert n == q' * p + r';
    if q' != q {
      var k := if q' < q then q - q' else q' - q;
      MulAtLeast(k, p);
      assert false;
    }
  }

  lemma MulAtLeast(k: nat, p: nat)
    requires k >= 1
    ensures k * p >= p
  {
  }
}
