/** Exact decimal money. A `java.math.BigDecimal` is an unscaled integer
    and a scale; the ledger itself keeps amounts as whole cents. */
module Money {

  /** 10 to the power n. */
  function Pow10(n: nat): (r: nat)
    ensures r >= 1
  {
    if n == 0 then 1 else 10 * Pow10(n - 1)
  }

  lemma {:induction false} Pow10Add(a: nat, b: nat)
    ensures Pow10(a + b) == Pow10(a) * Pow10(b)
  {
    if a > 0 {
      Pow10Add(a - 1, b);
      assert Pow10(a + b) == 10 * Pow10(a - 1 + b);
    }
  }

  lemma {:induction false} Pow10Monotone(a: nat, b: nat)
    requires a <= b
    ensures Pow10(a) <= Pow10(b)
  {
    if a < b {
      Pow10Monotone(a, b - 1);
    }
  }

  /** The number of decimal digits of n, counted the way
      `BigDecimal.precision()` counts them: zero has one digit. */
  function NumDigits(n: nat): (r: nat)
    ensures r >= 1
  {
    if n < 10 then 1 else 1 + NumDigits(n / 10)
  }

  /** A number has at most k digits exactly when it is below 10^k. */
  lemma {:induction false} NumDigitsBound(n: nat, k: nat)
    requires k >= 1
    ensures NumDigits(n) <= k <==> n < Pow10(k)
  {
    if n < 10 {
      Pow10Monotone(1, k);
    } else if k > 1 {
      NumDigitsBound(n / 10, k - 1);
      assert n / 10 < Pow10(k - 1) <==> n < 10 * Pow10(k - 1);
    }
  }

  function Abs(x: int): nat
  {
    if x < 0 then -x else x
  }

  /** A BigDecimal: the value `unscaled * 10^(-scale)`. */
  datatype Decimal = Decimal(unscaled: int, scale: int)

  /** `BigDecimal.precision()`. */
  function Precision(d: Decimal): nat
  {
    NumDigits(Abs(d.unscaled))
  }

  /** `@Digits(integer, fraction)` as Hibernate Validator checks a BigDecimal:
      the integer part has `precision - scale` digits, the fraction part has
      `scale` digits (none when the scale is negative). */
  predicate HasDigits(d: Decimal, integer: nat, fraction: nat)
  {
    && Precision(d) - d.scale <= integer
    && (if d.scale < 0 then 0 else d.scale) <= fraction
  }

  /** `@DecimalMin(inclusive = true)` with a bound of `minCents / 100`:
      the two values are compared exactly, by cross-multiplication. */
  predicate AtLeastCents(d: Decimal, minCents: int)
  {
    if d.scale >= 2 then d.unscaled >= minCents * Pow10(d.scale - 2)
    else d.unscaled * Pow10(2 - d.scale) >= minCents
  }

  /** The value of a decimal with at most two fraction digits, in cents. */
  function ToCents(d: Decimal): (c: int)
    requires d.scale <= 2
    ensures forall m {:trigger AtLeastCents(d, m)} :: AtLeastCents(d, m) <==> c >= m
    ensures Abs(c) == Abs(d.unscaled) * Pow10(2 - d.scale)
  {
    d.unscaled * Pow10(2 - d.scale)
  }

  lemma MulStrict(a: nat, b: nat, c: nat)
    requires c >= 1
    ensures a < b <==> a * c < b * c
  {
    if a < b {
      assert b * c - a * c == (b - a) * c;
    } else {
      assert a * c - b * c == (a - b) * c;
    }
  }

  /** Scaling by a positive factor preserves the bound 10^k, shifted. */
  lemma ScaledBound(u: nat, k: nat, e: nat)
    requires k >= 1
    ensures NumDigits(u) <= k <==> u * Pow10(e) < Pow10(k + e)
  {
    NumDigitsBound(u, k);
    Pow10Add(k, e);
    MulStrict(u, Pow10(k), Pow10(e));
  }

  /** A non-zero value scaled by 10^e is at least 10^e. */
  lemma ScaledAtLeast(u: nat, e: nat, k: nat)
    requires u >= 1 && k <= e
    ensures u * Pow10(e) >= Pow10(k)
  {
    Pow10Monotone(k, e);
    MulStrict(0, u, Pow10(e));
  }

  /** For a decimal with at most two fraction digits, `@Digits(integer, 2)`
      says the amount in cents has fewer than `integer + 2` digits. The one
      exception is a zero written with a large negative scale (`0E+20`),
      whose precision-minus-scale count exceeds the bound. */
  lemma DigitsAsCentsBound(d: Decimal, integer: nat)
    requires d.scale <= 2
    requires d.unscaled != 0 || d.scale > -(integer as int)
    ensures HasDigits(d, integer, 2) <==> Abs(ToCents(d)) < Pow10(integer + 2)
  {
    var u := Abs(d.unscaled);
    var e: nat := 2 - d.scale;
    assert Abs(ToCents(d)) == u * Pow10(e);
    assert HasDigits(d, integer, 2) <==> NumDigits(u) <= integer + d.scale;
    if integer + d.scale >= 1 {
      var k: nat := integer + d.scale;
      assert k + e == integer + 2;
      ScaledBound(u, k, e);
    } else {
      ScaledAtLeast(u, e, integer + 2);
    }
  }
}
