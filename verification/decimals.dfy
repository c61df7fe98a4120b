/** Exact decimal numbers as the ledger stores every amount and balance.

    A `Decimal` is what the decimal library keeps: an integer mantissa and a
    base-ten scale, denoting `mantissa / 10^scale`. Two decimals with different
    scales may denote the same number (`Decimal(10, 1)` and `Decimal(1, 0)`),
    and the library compares them by the number they denote. A sum or
    difference with a zero operand keeps the other operand's scale; any
    other sum or difference takes the larger of the two scales. Rounding to
    `dp` places leaves at most `dp` places. The library's 96-bit mantissa and its overflow are not modelled:
    mantissas are unbounded. */
module Decimals {

  datatype Decimal = Decimal(mantissa: int, scale: nat)

  /** The decimal zero as the library's `dec!(0)` builds it. */
  const Zero := Decimal(0, 0)

  function Abs(x: int): nat {
    if x < 0 then -x else x
  }

  function Max(a: nat, b: nat): nat {
    if a < b then b else a
  }

  function Min(a: nat, b: nat): nat {
    if a < b then a else b
  }

  function Pow10(n: nat): (r: nat)
    ensures r >= 1
  {
    if n == 0 then 1 else 10 * Pow10(n - 1)
  }

  lemma {:induction false} Pow10Add(a: nat, b: nat)
    ensures Pow10(a + b) == Pow10(a) * Pow10(b)
  {
    if a > 0 {
      Pow10Add(a - 1, b);
      assert Pow10(a + b) == 10 * Pow10(a - 1 + b);
    }
  }

  /** The number a decimal denotes. */
  function Value(d: Decimal): real {
    d.mantissa as real / Pow10(d.scale) as real
  }

  /** A zero mantissa denotes zero at every scale. */
  lemma ZeroMantissaValue(d: Decimal)
    requires d.mantissa == 0
    ensures Value(d) == 0.0
  {
    var p := Pow10(d.scale) as real;
    assert p > 0.0;
    assert 0.0 / p == 0.0;
  }

  /** `m` with `k` zeros appended: one factor of ten per added place. */
  function Shift(m: int, k: nat): int {
    if k == 0 then m else 10 * Shift(m, k - 1)
  }

  /** The mantissa of `d` re-expressed at the larger scale `s`. */
  function Aligned(d: Decimal, s: nat): int
    requires d.scale <= s
  {
    Shift(d.mantissa, s - d.scale)
  }

  lemma {:induction false} ShiftIsScaled(m: int, k: nat)
    ensures Shift(m, k) == m * Pow10(k)
  {
    if k > 0 {
      ShiftIsScaled(m, k - 1);
      assert Pow10(k) == 10 * Pow10(k - 1);
    }
  }

  lemma AlignedIsScaled(d: Decimal, s: nat)
    requires d.scale <= s
    ensures Aligned(d, s) == d.mantissa * Pow10(s - d.scale)
  {
    ShiftIsScaled(d.mantissa, s - d.scale);
  }

  lemma RealCancel(m: real, p: real, q: real)
    requires p > 0.0 && q > 0.0
    ensures (m * p) / (p * q) == m / q
  {
  }

  /** Cancelling a common positive factor of a fraction. */
  lemma Cancel(a: int, p: int, m: int, k: int, q: int)
    requires k >= 1 && q >= 1
    requires a == m * k && p == k * q
    ensures a as real / p as real == m as real / q as real
  {
    assert a as real == m as real * k as real;
    assert p as real == k as real * q as real;
    RealCancel(m as real, k as real, q as real);
  }

  lemma AlignedValue(d: Decimal, s: nat)
    requires d.scale <= s
    ensures Aligned(d, s) as real / Pow10(s) as real == Value(d)
  {
    Pow10Add(s - d.scale, d.scale);
    AlignedIsScaled(d, s);
    Cancel(Aligned(d, s), Pow10(s), d.mantissa, Pow10(s - d.scale), Pow10(d.scale));
  }

  lemma RealDivSum(a: real, b: real, p: real)
    requires p > 0.0
    ensures (a + b) / p == a / p + b / p
    ensures (a - b) / p == a / p - b / p
    ensures a / p >= b / p <==> a >= b
  {
  }

  /** The library's `+`. A zero operand gives back the other operand as
      it is, scale and all; otherwise both operands are aligned to the
      larger scale. */
  function Add(a: Decimal, b: Decimal): (r: Decimal)
    ensures a.mantissa == 0 ==> r == b
    ensures a.mantissa != 0 && b.mantissa == 0 ==> r == a
    ensures a.mantissa != 0 && b.mantissa != 0 ==> r.scale == Max(a.scale, b.scale)
  {
    if a.mantissa == 0 then b
    else if b.mantissa == 0 then a
    else
      var s := Max(a.scale, b.scale);
      Decimal(Aligned(a, s) + Aligned(b, s), s)
  }

  /** The library's `-`. Subtracting from zero gives the negated
      subtrahend at its own scale, subtracting zero gives the minuend back;
      otherwise both operands are aligned to the larger scale. */
  function Sub(a: Decimal, b: Decimal): (r: Decimal)
    ensures a.mantissa == 0 ==> r == Decimal(-b.mantissa, b.scale)
    ensures a.mantissa != 0 && b.mantissa == 0 ==> r == a
    ensures a.mantissa != 0 && b.mantissa != 0 ==> r.scale == Max(a.scale, b.scale)
  {
    if a.mantissa == 0 then Decimal(-b.mantissa, b.scale)
    else if b.mantissa == 0 then a
    else
      var s := Max(a.scale, b.scale);
      Decimal(Aligned(a, s) - Aligned(b, s), s)
  }

  /** The library's `>=` on aligned mantissas. */
  predicate AtLeast(a: Decimal, b: Decimal) {
    var s := Max(a.scale, b.scale);
    Aligned(a, s) >= Aligned(b, s)
  }

  /** Addition denotes the sum, whatever the two scales. */
  lemma AddValue(a: Decimal, b: Decimal)
    ensures Value(Add(a, b)) == Value(a) + Value(b)
  {
    if a.mantissa == 0 {
      ZeroMantissaValue(a);
    } else if b.mantissa == 0 {
      ZeroMantissaValue(b);
    } else {
      var s := Max(a.scale, b.scale);
      AlignedValue(a, s);
      AlignedValue(b, s);
      RealDivSum(Aligned(a, s) as real, Aligned(b, s) as real, Pow10(s) as real);
    }
  }

  lemma NegValue(d: Decimal)
    ensures Value(Decimal(-d.mantissa, d.scale)) == -Value(d)
  {
    var p := Pow10(d.scale) as real;
    assert p > 0.0;
    assert (-d.mantissa) as real / p == -(d.mantissa as real / p);
  }

  /** Subtraction denotes the difference, whatever the two scales. */
  lemma SubValue(a: Decimal, b: Decimal)
    ensures Value(Sub(a, b)) == Value(a) - Value(b)
  {
    if a.mantissa == 0 {
      ZeroMantissaValue(a);
      NegValue(b);
    } else if b.mantissa == 0 {
      ZeroMantissaValue(b);
    } else {
      var s := Max(a.scale, b.scale);
      AlignedValue(a, s);
      AlignedValue(b, s);
      RealDivSum(Aligned(a, s) as real, Aligned(b, s) as real, Pow10(s) as real);
    }
  }

  /** `AtLeast` compares the numbers denoted, not the representations. */
  lemma AtLeastValue(a: Decimal, b: Decimal)
    ensures AtLeast(a, b) <==> Value(a) >= Value(b)
  {
    var s := Max(a.scale, b.scale);
    AlignedValue(a, s);
    AlignedValue(b, s);
    RealDivSum(Aligned(a, s) as real, Aligned(b, s) as real, Pow10(s) as real);
  }

  /** `m / q` rounded to the nearest integer, halves going to the even
      neighbour (the library's default midpoint rule). */
  function RoundDiv(m: int, q: nat): (k: int)
    requires q >= 1
    ensures 2 * Abs(k * q - m) <= q
    ensures m % q == 0 ==> k * q == m
  {
    var f := m / q;
    var rem := m % q;
    assert m == f * q + rem;
    if 2 * rem < q then f
    else if 2 * rem > q then f + 1
    else if f % 2 == 0 then f
    else f + 1
  }

  /** The library's `round_dp(dp)`: a decimal with at most `dp` places is
      returned as it is; a longer one is rounded to exactly `dp` places. */
  function RoundDp(d: Decimal, dp: nat): (r: Decimal)
    ensures r.scale == Min(d.scale, dp)
    ensures d.scale <= dp ==> r == d
    ensures 2 * Abs(Aligned(r, d.scale) - d.mantissa) <= Pow10(d.scale - r.scale)
    ensures d.mantissa % Pow10(d.scale - r.scale) == 0 ==> Value(r) == Value(d)
  {
    if d.scale <= dp then d
    else
      var q := Pow10(d.scale - dp);
      var r := Decimal(RoundDiv(d.mantissa, q), dp);
      AlignedIsScaled(r, d.scale);
      AlignedValue(r, d.scale);
      r
  }
}
