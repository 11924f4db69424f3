/**
  The input check in front of the Black-Scholes pricer and the one partial
  operation it is meant to protect: the division by sigma * sqrt(T) in d1.
  math.log and math.sqrt are library code; their results are passed in,
  a square root as a witness root with root * root == T.
 */
module PricingGuard {

  /** The five inputs of the calculator. */
  datatype MarketInputs = MarketInputs(spot: real, strike: real, expiry: real, rate: real, volatility: real)

  /** The condition under which the calculator prices the option, as written. */
  predicate AdmitsPricing(m: MarketInputs) {
    m.spot > 0.0 && m.strike > 0.0 && m.expiry > 0.0 && m.rate >= 0.0 && m.volatility >= 0.0
  }

  /** The condition with a strictly positive volatility. */
  predicate ValidForPricing(m: MarketInputs) {
    m.spot > 0.0 && m.strike > 0.0 && m.expiry > 0.0 && m.rate >= 0.0 && m.volatility > 0.0
  }

  /** root is the non-negative square root of x. */
  predicate IsSqrt(root: real, x: real) {
    root >= 0.0 && root * root == x
  }

  /** The outcome of a Python float division. */
  datatype Quotient = ZeroDivisionError | Value(value: real)

  /** Python's float division: a zero divisor raises ZeroDivisionError. */
  function Divide(numerator: real, denominator: real): (q: Quotient)
    ensures q.ZeroDivisionError? <==> denominator == 0.0
    ensures q.Value? ==> q.value * denominator == numerator
  {
    if denominator == 0.0 then ZeroDivisionError else Value(numerator / denominator)
  }

  /** The denominator of d1, sigma * sqrt(T). */
  function D1Denominator(m: MarketInputs, sqrtT: real): (den: real)
    ensures den == 0.0 <==> m.volatility == 0.0 || sqrtT == 0.0
  {
    m.volatility * sqrtT
  }

  /** d1, given ln(S / K) and sqrt(T): it fails exactly when sigma or sqrt(T) is zero. */
  function D1(m: MarketInputs, logMoneyness: real, sqrtT: real): (q: Quotient)
    ensures q.ZeroDivisionError? <==> m.volatility == 0.0 || sqrtT == 0.0
  {
    Divide(logMoneyness + (m.rate + 0.5 * m.volatility * m.volatility) * m.expiry, D1Denominator(m, sqrtT))
  }

  /**
    Every input the check admits keeps the other partial operations of d1
    defined: S / K divides by a non-zero strike, its logarithm is taken of a
    positive number and the square root of a non-negative time, which is
    itself positive.
   */
  lemma AdmittedInputsKeepLogAndSqrtDefined(m: MarketInputs, root: real)
    requires AdmitsPricing(m) && IsSqrt(root, m.expiry)
    ensures m.strike != 0.0 && m.spot / m.strike > 0.0
    ensures m.expiry >= 0.0 && root > 0.0
  {
    assert root != 0.0;
    assert m.spot / m.strike > 0.0;
  }

  /**
    For an admitted input, d1 raises ZeroDivisionError exactly when the
    volatility is zero.
   */
  lemma AdmittedD1FailsIffZeroVolatility(m: MarketInputs, logMoneyness: real, root: real)
    requires AdmitsPricing(m) && IsSqrt(root, m.expiry)
    ensures D1(m, logMoneyness, root).ZeroDivisionError? <==> m.volatility == 0.0
  {
    AdmittedInputsKeepLogAndSqrtDefined(m, root);
    if m.volatility != 0.0 {
      assert m.volatility > 0.0;
      assert D1Denominator(m, root) > 0.0;
    }
  }

  /** The check as written lets through an input on which d1 divides by zero. */
  lemma GuardAdmitsZeroDivision()
    ensures var m := MarketInputs(100.0, 100.0, 1.0, 0.05, 0.0);
      AdmitsPricing(m) && IsSqrt(1.0, m.expiry) && D1(m, 0.0, 1.0) == ZeroDivisionError
  {
  }

  /** The corrected check is the written one with the zero volatility removed. */
  lemma ValidIsAdmittedWithoutZeroVolatility(m: MarketInputs)
    ensures ValidForPricing(m) <==> AdmitsPricing(m) && m.volatility != 0.0
  {
  }

  /** Under the corrected check d1 is always a number: its denominator is positive. */
  lemma ValidInputsHaveD1(m: MarketInputs, logMoneyness: real, root: real)
    requires ValidForPricing(m) && IsSqrt(root, m.expiry)
    ensures D1Denominator(m, root) > 0.0
    ensures D1(m, logMoneyness, root).Value?
  {
    AdmittedD1FailsIffZeroVolatility(m, logMoneyness, root);
    AdmittedInputsKeepLogAndSqrtDefined(m, root);
  }
}
