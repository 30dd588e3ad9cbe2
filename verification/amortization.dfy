/** The amortising installment both services compute: `P·r / (1 − round10(1/(1+r)^n))`,
    rounded half-up to cents (LoanService.calculateMonthlyInstallment and the first half of
    CreditEngineService.calculateDTI).

    Units: principal and installment in cents; the monthly rate `r` in ten-thousandths
    (the four-place scale of the loan service; the credit engine's 0.01 is 100 of them);
    the discount factor `1/(1+r)^n` in units of 10^-10. */
module Amortization {
  import opened Wrappers
  import opened Decimal

  /** Ten-thousandths per unit: monthly rates carry four decimal places. */
  const RateScale: nat := 10_000
  /** The reciprocal of the compound factor is kept to ten decimal places. */
  const DiscountScale: nat := 10_000_000_000

  /** The scale of `1 + r`: the loan service's monthly rate carries four decimal places. */
  const RateDigits: nat := 4

  /** The discount factor `1/(1+r)^n` is divided out to ten decimal places. */
  const DiscountDigits: nat := 10

  /** The `ArithmeticException`s that `BigDecimal` raises on the way: a division by zero,
      a power that `BigDecimal.pow` refuses to compute (`Decimal.PowRefused`), or a division
      of one by that power that `BigDecimal.divide` refuses to start
      (`Decimal.UnitDivideRefused`). */
  datatype ArithmeticError = DivisionByZero | PowerOutOfRange | DivideOutOfRange

  /** `BigDecimal` cannot produce the discount factor at this rate and tenor: it refuses
      the power `(1 + r)^n` or the division of one by it. */
  predicate FactorRefused(rate: int, tenor: int) {
    || PowRefused(RateScale + rate, RateDigits, tenor)
    || UnitDivideRefused(RateDigits * tenor, DiscountDigits)
  }

  /** `1 / (1 + r)^n` rounded half-up to ten decimal places, in units of 10^-10. */
  function DiscountFactor(rate: int, tenor: int): (r: Result<int, ArithmeticError>)
    ensures r == Failure(PowerOutOfRange) <==> PowRefused(RateScale + rate, RateDigits, tenor)
    ensures tenor < 0 || tenor > MaxPower ==> r == Failure(PowerOutOfRange)
    ensures tenor > MaxInt / RateDigits && RateScale + rate != 0 ==> r == Failure(PowerOutOfRange)
    ensures r == Failure(DivideOutOfRange) <==>
      !PowRefused(RateScale + rate, RateDigits, tenor) && UnitDivideRefused(RateDigits * tenor, DiscountDigits)
    ensures !FactorRefused(rate, tenor) ==> (r.Failure? <==> Pow(RateScale + rate, tenor) == 0)
    ensures r.Success? ==>
      IsHalfUpQuotient(r.value, DiscountScale * Pow(RateScale, tenor), Pow(RateScale + rate, tenor))
  {
    if PowRefused(RateScale + rate, RateDigits, tenor) then Failure(PowerOutOfRange)
    else if UnitDivideRefused(RateDigits * tenor, DiscountDigits) then Failure(DivideOutOfRange)
    else
      var compound := Pow(RateScale + rate, tenor);
      if compound == 0 then Failure(DivisionByZero)
      else Success(DivHalfUp(DiscountScale * Pow(RateScale, tenor), compound))
  }

  /** The annuity branch: the principal times the rate over one minus the discount factor,
      rounded half-up to cents. */
  function Annuity(principal: int, rate: int, tenor: int): (r: Result<int, ArithmeticError>)
    ensures DiscountFactor(rate, tenor).Failure? ==> r == Failure(DiscountFactor(rate, tenor).error)
    ensures DiscountFactor(rate, tenor).Success? ==>
      var denominator := DiscountScale - DiscountFactor(rate, tenor).value;
      && (r.Failure? <==> denominator == 0)
      && (r.Failure? ==> r.error == DivisionByZero)
      && (r.Success? ==> IsHalfUpQuotient(r.value, principal * rate * 1_000_000, denominator))
  {
    var v :- DiscountFactor(rate, tenor);
    var denominator := DiscountScale - v;
    if denominator == 0 then Failure(DivisionByZero)
    else Success(DivHalfUp(principal * rate * 1_000_000, denominator))
  }

  /** `calculateMonthlyInstallment`: a zero rate spreads the principal evenly over the
      tenor (rounded half-up to cents); any other rate takes the annuity branch. */
  function MonthlyInstallment(principal: int, rate: int, tenor: int): (r: Result<int, ArithmeticError>)
    ensures rate == 0 && tenor == 0 ==> r == Failure(DivisionByZero)
    ensures rate == 0 && tenor != 0 ==> r.Success? && IsHalfUpQuotient(r.value, principal, tenor)
    ensures rate == 0 && tenor != 0 ==> 2 * Abs(r.value * tenor - principal) <= Abs(tenor)
    ensures rate != 0 ==> r == Annuity(principal, rate, tenor)
  {
    if rate == 0 then
      if tenor == 0 then Failure(DivisionByZero)
      else
        var q := DivHalfUp(principal, tenor);
        ZeroRateSpread(principal, tenor, q);
        Success(q)
    else Annuity(principal, rate, tenor)
  }

  /** A rounded even split repays the principal to within half a cent per instalment. */
  lemma ZeroRateSpread(principal: int, tenor: int, q: int)
    requires tenor != 0 && q == DivHalfUp(principal, tenor)
    ensures 2 * Abs(q * tenor - principal) <= Abs(tenor)
  {
    SpreadFromRounding(principal, tenor, q);
  }

  /** The spread bound from the rounding bounds alone. */
  lemma SpreadFromRounding(n: int, t: int, q: int)
    requires t != 0 && IsHalfUpQuotient(q, n, t)
    ensures 2 * Abs(q * t - n) <= Abs(t)
  {
    MulSign(q, t);
    DoubleProduct(Abs(q), Abs(t));
    SpreadLinear(q * t, n, Abs(q) * Abs(t), Abs(t));
  }

  lemma MulSign(x: int, y: int)
    ensures Abs(x * y) == Abs(x) * Abs(y)
    ensures x * y < 0 <==> (x < 0 && y > 0) || (x > 0 && y < 0)
    ensures x * y == 0 <==> x == 0 || y == 0
  {
    if x < 0 && y < 0 { assert x * y == (-x) * (-y); }
    else if x < 0 { assert -(x * y) == (-x) * y; }
    else if y < 0 { assert -(x * y) == x * (-y); }
  }

  lemma DoubleProduct(a: int, b: int)
    ensures 2 * a * b == 2 * (a * b)
  {
  }

  /** The sign-and-magnitude step of `ZeroRateSpread`, in linear terms. */
  lemma SpreadLinear(x: int, n: int, p: nat, t: nat)
    requires Abs(x) == p
    requires 2 * p <= 2 * Abs(n) + t < 2 * p + 2 * t
    requires x == 0 || n == 0 || (x < 0) == (n < 0)
    ensures 2 * Abs(x - n) <= t
  {
  }

  /** For a positive rate one plus the rate, compounded, grows by at least one
      ten-thousandth of its previous power. */
  lemma {:induction false} CompoundGrowth(rate: int, tenor: nat)
    requires rate > 0 && tenor > 0
    ensures Pow(RateScale + rate, tenor) >= Pow(RateScale, tenor) + Pow(RateScale, tenor - 1)
  {
    var q := Pow(RateScale, tenor - 1);
    PowMonotoneBase(RateScale, RateScale + rate, tenor - 1);
    PowPositive(RateScale, tenor - 1);
    MulLeft(RateScale + 1, RateScale + rate, Pow(RateScale + rate, tenor - 1));
    MulLeft(q, Pow(RateScale + rate, tenor - 1), RateScale + 1);
  }

  /** Whatever the rate, a power that `BigDecimal.pow` accepts is divided into one exactly
      when the tenor is below 134,217,728: four decimal places per month raise the dividend
      past the reach of `BigInteger.TEN.pow` from there on. */
  lemma DivisionLimit(rate: int, tenor: int)
    requires !PowRefused(RateScale + rate, RateDigits, tenor)
    ensures DiscountFactor(rate, tenor) == Failure(DivideOutOfRange) <==> tenor >= 134_217_728
  {
    UnitDivideLimit(RateDigits * tenor);
  }

  /** No rate has a discount factor for a tenor of 134,217,728 months or more. */
  lemma LongTenorsRefused(rate: int, tenor: int)
    requires tenor >= 134_217_728
    ensures FactorRefused(rate, tenor)
  {
    if tenor <= MaxPower {
      UnitDivideLimit(RateDigits * tenor);
    }
  }

  /** At 1% a month the discount factor exists exactly for the tenors 0 to 134,217,727: the
      division gives out before the power does (`Decimal.OnePercentPowerLimit`). */
  lemma OnePercentDiscountLimit(tenor: int)
    ensures DiscountFactor(100, tenor).Success? <==> 0 <= tenor < 134_217_728
  {
    OnePercentPowerLimit(tenor);
    if 0 <= tenor < 134_217_728 {
      DivisionLimit(100, tenor);
      PowPositive(RateScale + 100, tenor);
    } else if tenor >= 134_217_728 && !PowRefused(RateScale + 100, RateDigits, tenor) {
      DivisionLimit(100, tenor);
    }
  }

  /** For a positive rate and tenor the discount factor fails only when `BigDecimal`
      refuses the power or the division; otherwise it lies in [0, 1), so the annuity's
      denominator is positive and no further `ArithmeticException` is raised. */
  lemma PositiveRateDiscount(rate: int, tenor: nat)
    requires rate > 0 && tenor > 0
    ensures DiscountFactor(rate, tenor).Failure? <==> FactorRefused(rate, tenor)
    ensures DiscountFactor(rate, tenor).Failure? ==> DiscountFactor(rate, tenor).error != DivisionByZero
    ensures DiscountFactor(rate, tenor).Success? ==> 0 <= DiscountFactor(rate, tenor).value < DiscountScale
  {
    if FactorRefused(rate, tenor) {
      return;
    }
    var q := Pow(RateScale, tenor - 1);
    var p := Pow(RateScale, tenor);
    var b := Pow(RateScale + rate, tenor);
    PowPositive(RateScale, tenor - 1);
    CompoundGrowth(rate, tenor);
    assert p == RateScale * q;
    var v := DiscountFactor(rate, tenor).value;
    assert v == RoundHalfUpNat(DiscountScale * p, b);
    DiscountBelowScale(p, q, b, v);
  }

  /** The bound of `PositiveRateDiscount` from the growth of the compound power. */
  lemma DiscountBelowScale(p: int, q: int, b: int, v: int)
    requires q > 0 && p == RateScale * q && b >= p + q && v >= 0
    requires 2 * v * b <= 2 * DiscountScale * p + b
    ensures v < DiscountScale
  {
    // 2·10^10·p + b < 2·10^10·b  because  b >= p + q = 10001·q
    MulLeft(p + q, b, 2 * DiscountScale - 1);
    assert (2 * DiscountScale - 1) * (p + q) == 2 * DiscountScale * p + (2 * DiscountScale * q - p - q);
    assert 2 * DiscountScale * p + b < 2 * DiscountScale * b;
    if v >= DiscountScale {
      MulLeft(DiscountScale, v, 2 * b);
      assert false;
    }
  }

  /** With a positive rate and tenor the annuity fails only when `BigDecimal` refuses the
      power or the division of the discount factor, and never by dividing by zero. */
  lemma PositiveRateAnnuityDefined(principal: int, rate: int, tenor: nat)
    requires rate > 0 && tenor > 0
    ensures Annuity(principal, rate, tenor).Failure? <==> FactorRefused(rate, tenor)
    ensures Annuity(principal, rate, tenor).Failure? ==> Annuity(principal, rate, tenor).error != DivisionByZero
  {
    PositiveRateDiscount(rate, tenor);
  }

  /** Whether the annuity is defined does not depend on the principal, and a larger
      principal never gives a smaller installment (positive rate and tenor). */
  lemma AnnuityMonotone(p1: int, p2: int, rate: int, tenor: nat)
    requires p1 <= p2
    requires rate > 0 && tenor > 0
    ensures Annuity(p1, rate, tenor).Success? <==> Annuity(p2, rate, tenor).Success?
    ensures Annuity(p1, rate, tenor).Success? ==> Annuity(p1, rate, tenor).value <= Annuity(p2, rate, tenor).value
  {
    PositiveRateDiscount(rate, tenor);
    if DiscountFactor(rate, tenor).Failure? {
      return;
    }
    MulLeft(p1, p2, rate * 1_000_000);
    assert p1 * rate * 1_000_000 <= p2 * rate * 1_000_000;
    var den := DiscountScale - DiscountFactor(rate, tenor).value;
    DivHalfUpMonotone(p1 * rate * 1_000_000, p2 * rate * 1_000_000, den);
  }
}
