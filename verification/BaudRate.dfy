/** The UART baud-rate divisor macros: mantissa and fraction computed apart, with a carry between them. */
module BaudRate {
  import opened Bytes

  /** The intermediate products stay below 2^32. */
  predicate Fits(pclk: nat, baud: nat, factor: nat) {
    0 < baud && factor * baud < TWO32 && pclk * 25 < TWO32
  }

  /** A hundred times the divisor, truncated, for 16x oversampling. */
  function Div16(pclk: nat, baud: nat): nat
    requires Fits(pclk, baud, 4)
  {
    pclk * 25 / (4 * baud)
  }

  /** The same for 8x oversampling. */
  function Div8(pclk: nat, baud: nat): nat
    requires Fits(pclk, baud, 2)
  {
    pclk * 25 / (2 * baud)
  }

  function Mantissa(div: nat): nat {
    div / 100
  }

  function Fraction(div: nat, steps: nat): nat {
    ((div - Mantissa(div) * 100) * steps + 50) / 100
  }

  /** (mantissa << 4) + (fraction & 0xF0) + (fraction & 0x0F). */
  function Brr16(pclk: nat, baud: nat): nat
    requires Fits(pclk, baud, 4)
  {
    var d := Div16(pclk, baud);
    var f := Fraction(d, 16);
    Mantissa(d) * 16 + f / 16 % 16 * 16 + f % 16
  }

  /** (mantissa << 4) + ((fraction & 0xF8) << 1) + (fraction & 0x07). */
  function Brr8(pclk: nat, baud: nat): nat
    requires Fits(pclk, baud, 2)
  {
    var d := Div8(pclk, baud);
    var f := Fraction(d, 8);
    Mantissa(d) * 16 + f / 8 % 32 * 8 * 2 + f % 8
  }

  /** Splitting off the mantissa and rounding only the fraction rounds the whole divisor, carry included. */
  lemma FractionCarries16(d: nat)
    ensures Mantissa(d) * 16 + Fraction(d, 16) == (d * 16 + 50) / 100 && Fraction(d, 16) <= 16
  {
    assert d == d / 100 * 100 + d % 100;
  }

  lemma FractionCarries8(d: nat)
    ensures Mantissa(d) * 8 + Fraction(d, 8) == (d * 8 + 50) / 100 && Fraction(d, 8) <= 8
  {
    assert d == d / 100 * 100 + d % 100;
  }

  /** The register value is the divisor rounded to the nearest sixteenth, although the fraction may reach 16. */
  lemma Brr16IsRounded(pclk: nat, baud: nat)
    requires Fits(pclk, baud, 4)
    ensures Brr16(pclk, baud) == (Div16(pclk, baud) * 16 + 50) / 100
  {
    FractionCarries16(Div16(pclk, baud));
  }

  /** The 8x register holds four fraction bits of which one stays zero; the carry steps over it. */
  lemma Carry8(m: nat, f: nat)
    requires f <= 8
    ensures var brr := m * 16 + f / 8 % 32 * 8 * 2 + f % 8; brr / 16 * 8 + brr % 8 == m * 8 + f
  {
    if f == 8 {
      assert f / 8 % 32 * 8 * 2 == 16 && f % 8 == 0;
      Nibbles(m + 1, 0);
    } else {
      assert f / 8 == 0 && f % 8 == f;
      Nibbles(m, f);
    }
  }

  lemma Nibbles(m: nat, f: nat)
    requires f < 8
    ensures (m * 16 + f) / 16 == m && (m * 16 + f) % 8 == f
  {
  }

  /** Reading the 8x register back as the hardware does, 8 times the mantissa plus three fraction bits. */
  lemma Brr8IsRounded(pclk: nat, baud: nat)
    requires Fits(pclk, baud, 2)
    ensures var brr := Brr8(pclk, baud); brr / 16 * 8 + brr % 8 == (Div8(pclk, baud) * 8 + 50) / 100
  {
    var d := Div8(pclk, baud);
    FractionCarries8(d);
    Carry8(Mantissa(d), Fraction(d, 8));
  }

  /** q * b <= p < (q + 1) * b for q = p / b. */
  lemma Quotient(p: nat, b: nat)
    requires b > 0
    ensures p / b * b <= p < p / b * b + b
  {
    assert p == p / b * b + p % b;
  }

  /** Rounding to a multiple of 4 over 100 never meets a tie, so it moves by at most 0.48. */
  lemma Rounding(d: nat, steps: nat, brr: nat)
    requires (steps == 16 || steps == 8) && brr == (d * steps + 50) / 100
    ensures d * steps - 48 <= 100 * brr <= d * steps + 48
  {
    if steps == 16 {
      Untied(4 * d + 12);
    } else {
      Untied(2 * d + 12);
    }
  }

  lemma Untied(x: nat)
    ensures 2 <= (4 * x + 2) % 100 <= 98
  {
    var q, r := (4 * x + 2) / 100, (4 * x + 2) % 100;
    assert 4 * x + 2 == 100 * q + r;
    var k := x - 25 * q;
    assert r == 4 * k + 2;
    assert 0 <= k <= 24;
  }

  lemma Product(x: int, b: nat)
    requires x >= 0
    ensures x * b >= 0
  {
  }

  lemma Expand(x: int, y: int, c: int, b: nat)
    ensures (x - y + c) * b == x * b - y * b + c * b
  {
  }

  /** The bounds on a multiple of the value, multiplied by the baud rate. */
  lemma Scaled(steps: nat, d: nat, value: nat, b: nat)
    requires d * steps - 48 <= 100 * value <= d * steps + 48
    ensures steps * (d * b) - 48 * b <= 100 * (value * b) <= steps * (d * b) + 48 * b
  {
    Product(100 * value - d * steps + 48, b);
    Expand(100 * value, d * steps, 48, b);
    Product(d * steps - 100 * value + 48, b);
    Expand(d * steps, 100 * value, 48, b);
    Reorder(steps, d, b);
    Reorder(100, value, b);
  }

  lemma Reorder(k: nat, x: nat, b: nat)
    ensures x * k * b == k * (x * b) && k * x * b == k * (x * b)
  {
  }

  /** For 16x oversampling the register differs from pclk / baud by a value in (-0.64, 0.48]. */
  lemma Brr16Error(pclk: nat, baud: nat)
    requires Fits(pclk, baud, 4)
    ensures var error := Brr16(pclk, baud) as real - pclk as real / baud as real; -0.64 < error <= 0.48
  {
    var d, brr := Div16(pclk, baud), Brr16(pclk, baud);
    Brr16IsRounded(pclk, baud);
    Quotient(pclk * 25, 4 * baud);
    Rounding(d, 16, brr);
    Scaled(16, d, brr, baud);
    Reorder(4, baud, d);
    ErrorAsReal(pclk, baud, brr, 64);
  }

  /** For 8x oversampling the value the hardware divides by differs from pclk / baud by a value in (-0.56, 0.48]. */
  lemma Brr8Error(pclk: nat, baud: nat)
    requires Fits(pclk, baud, 2)
    ensures var brr := Brr8(pclk, baud);
            var error := (brr / 16 * 8 + brr % 8) as real - pclk as real / baud as real; -0.56 < error <= 0.48
  {
    var d, value := Div8(pclk, baud), Brr8(pclk, baud) / 16 * 8 + Brr8(pclk, baud) % 8;
    Brr8IsRounded(pclk, baud);
    Quotient(pclk * 25, 2 * baud);
    Rounding(d, 8, value);
    Scaled(8, d, value, baud);
    Reorder(2, baud, d);
    ErrorAsReal(pclk, baud, value, 56);
  }

  lemma ErrorAsReal(pclk: nat, baud: nat, value: nat, below: nat)
    requires baud > 0
    requires 100 * pclk - below * baud < 100 * (value * baud) <= 100 * pclk + 48 * baud
    ensures var error := value as real - pclk as real / baud as real; -(below as real) / 100.0 < error <= 0.48
  {
    var b, v := baud as real, value as real;
    var q := pclk as real / b;
    Difference(pclk, baud, value);
    RealOrder(100.0 * (v - q), 48.0, b);
    RealOrder(-(below as real), 100.0 * (v - q), b);
  }

  lemma Difference(pclk: nat, baud: nat, value: nat)
    requires baud > 0
    ensures 100.0 * (value as real - pclk as real / baud as real) * baud as real
            == (100 * (value * baud)) as real - (100 * pclk) as real
  {
    var b, v := baud as real, value as real;
    var q := pclk as real / b;
    assert q * b == pclk as real;
    assert (value * baud) as real == v * b;
    assert (v - q) * b == v * b - q * b;
  }

  /** Multiplying by a positive number keeps the order. */
  lemma RealOrder(x: real, y: real, b: real)
    requires b > 0.0
    ensures x * b <= y * b <==> x <= y
    ensures x * b < y * b <==> x < y
  {
    assert y * b - x * b == (y - x) * b;
  }
}
