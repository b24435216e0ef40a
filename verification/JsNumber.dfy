/**
 * The few pieces of JavaScript number semantics the converter relies on:
 * the truncating remainder operator `%`, `Number.prototype.toString` on
 * integers, and `String.prototype.padStart`.  `ParseNat` reads a decimal
 * numeral back and is the partner that the rendering functions are proved
 * against.
 */
module JsNumber {

  function Abs(x: int): (r: nat)
    ensures r == x || r == -x
  {
    if x < 0 then -x else x
  }

  /**
   * JavaScript's `a % b` on integers: the quotient is truncated toward zero,
   * so the remainder takes the sign of the dividend (Dafny's `%` is
   * Euclidean and never negative).
   */
  function JsRem(a: int, b: int): (r: int)
    requires b != 0
    ensures Abs(r) < Abs(b)
    ensures a >= 0 ==> r >= 0
    ensures a <= 0 ==> r <= 0
    ensures a >= 0 ==> r == a % b
  {
    if a >= 0 then a % b else -((-a) % b)
  }

  /** For a negative dividend, the JavaScript remainder relates to Dafny's like this. */
  lemma JsRemNegative(a: int, b: int)
    requires a < 0 && b > 0
    ensures JsRem(a, b) == if a % b == 0 then 0 else a % b - b
  {
    var y := -a;
    var q, k := y / b, y % b;
    assert y == q * b + k && 0 <= k < b;
    if k == 0 {
      ModUnique(a, b, -q, 0);
    } else {
      assert a == (-q - 1) * b + (b - k);
      ModUnique(a, b, -q - 1, b - k);
    }
  }

  /** Euclidean division has exactly one quotient and remainder. */
  lemma ModUnique(a: int, b: int, q: int, r: int)
    requires b > 0 && 0 <= r < b && a == q * b + r
    ensures a % b == r && a / b == q
  {
    var q', r' := a / b, a % b;
    assert a == q' * b + r';
    assert (q - q') * b == r' - r;
    if q > q' {
      assert (q - q') * b >= b by { MulAtLeast(q - q', b); }
    } else if q < q' {
      assert (q' - q) * b >= b by { MulAtLeast(q' - q, b); }
    }
  }

  lemma MulAtLeast(n: int, b: int)
    requires n >= 1 && b > 0
    ensures n * b >= b
  {
  }

  const DigitChars := "0123456789"

  predicate IsDigit(c: char) {
    '0' <= c <= '9'
  }

  predicate AllDigits(s: string) {
    forall i :: 0 <= i < |s| ==> IsDigit(s[i])
  }

  function DigitValue(c: char): (d: nat)
    requires IsDigit(c)
    ensures d < 10
  {
    c as int - '0' as int
  }

  function Digit(d: nat): (c: char)
    requires d < 10
    ensures IsDigit(c) && DigitValue(c) == d
  {
    DigitChars[d]
  }

  /** The decimal numeral `n.toString()` produces for a non-negative integer `n`. */
  function NatToString(n: nat): (s: string)
    ensures AllDigits(s) && |s| >= 1
    decreases n
  {
    if n < 10 then [Digit(n)] else NatToString(n / 10) + [Digit(n % 10)]
  }

  /** The numeral has no leading zero, one digit below 10 and two from 10 to 99. */
  lemma {:induction false} NatToStringShape(n: nat)
    ensures var s := NatToString(n);
            && (s[0] == '0' <==> n == 0)
            && (|s| == 1 <==> n < 10)
            && (|s| == 2 <==> 10 <= n < 100)
    decreases n
  {
    if n >= 10 {
      NatToStringShape(n / 10);
    }
  }

  /** The value of a decimal numeral (no sign, no leading `+`). */
  function ParseNat(s: string): (n: nat)
    requires AllDigits(s)
    decreases |s|
  {
    if s == [] then 0 else 10 * ParseNat(s[..|s| - 1]) + DigitValue(s[|s| - 1])
  }

  /** Reading back what `NatToString` wrote gives the number again. */
  lemma {:induction false} ParseNatToString(n: nat)
    ensures ParseNat(NatToString(n)) == n
    decreases n
  {
    var s := NatToString(n);
    if n >= 10 {
      ParseNatToString(n / 10);
      assert s[..|s| - 1] == NatToString(n / 10);
    }
  }

  /** Two numbers with the same numeral are equal. */
  lemma NatToStringInjective(m: nat, n: nat)
    requires NatToString(m) == NatToString(n)
    ensures m == n
  {
    ParseNatToString(m);
    ParseNatToString(n);
  }

  /** Leading zeros do not change the value of a numeral. */
  lemma {:induction false} ParseNatLeadingZero(s: string)
    requires AllDigits(s)
    ensures ParseNat("0" + s) == ParseNat(s)
    decreases |s|
  {
    if s != [] {
      var t := "0" + s;
      assert t[..|t| - 1] == "0" + s[..|s| - 1];
      ParseNatLeadingZero(s[..|s| - 1]);
    }
  }

  /** `x.toString()` for an integer `x`: a `-` before the numeral of its magnitude. */
  function IntToString(x: int): string {
    if x < 0 then "-" + NatToString(-x) else NatToString(x)
  }

  /** `s.padStart(width, fill)` for a one-character `fill`: `fill` is put in front until `s` is `width` long. */
  function PadStart(s: string, width: nat, fill: char): (r: string)
    ensures |r| == if |s| >= width then |s| else width
    ensures r[|r| - |s|..] == s
    ensures forall i :: 0 <= i < |r| - |s| ==> r[i] == fill
  {
    if |s| >= width then s else seq(width - |s|, _ => fill) + s
  }

  /** A two-digit `padStart(2, "0")` numeral reads back as the number it pads. */
  lemma PadStartTwo(n: nat)
    requires n < 100
    ensures var p := PadStart(NatToString(n), 2, '0');
            |p| == 2 && AllDigits(p) && ParseNat(p) == n
  {
    var s := NatToString(n);
    var p := PadStart(s, 2, '0');
    ParseNatToString(n);
    NatToStringShape(n);
    if n < 10 {
      assert p == "0" + s;
      ParseNatLeadingZero(s);
    } else {
      assert p == s;
    }
  }
}
