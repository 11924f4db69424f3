/**
  The profit-and-loss evaluator of the option calculator: for every
  hypothetical price of the underlying at expiry, the net result of holding
  one call and one put of the given strike bought at the given premium.
  numpy's float64 arrays are modelled as sequences of reals.
 */
module OptionPnl {

  /** np.maximum(0, x) on one element. */
  function Max0(x: real): (m: real)
    ensures m >= 0.0 && m >= x
    ensures m == x || m == 0.0
  {
    if x > 0.0 then x else 0.0
  }

  /** Net result of a call at one price. */
  function CallPnl(price: real, strike: real, premium: real): (pnl: real)
    ensures pnl >= -premium
    ensures pnl == -premium <==> price <= strike
    ensures price > strike ==> pnl == price - strike - premium
  {
    Max0(price - strike) - premium
  }

  /** Net result of a put at one price. */
  function PutPnl(price: real, strike: real, premium: real): (pnl: real)
    ensures pnl >= -premium
    ensures pnl == -premium <==> price >= strike
    ensures price < strike ==> pnl == strike - price - premium
  {
    Max0(strike - price) - premium
  }

  /** The two arrays returned by calculate_pnl. */
  datatype PnlSeries = PnlSeries(call: seq<real>, put: seq<real>)

  /**
    What the evaluator promises about its result: one call and one put entry
    per price, in order; at every price the call result exceeds the put
    result by price - strike, both are at least -premium, the call result is
    -premium exactly when the price is at most the strike and the put result
    exactly when the price is at least the strike.
   */
  predicate IsPnlOf(r: PnlSeries, prices: seq<real>, strike: real, premium: real) {
    |r.call| == |prices| && |r.put| == |prices| &&
    forall i :: 0 <= i < |prices| ==>
      r.call[i] - r.put[i] == prices[i] - strike &&
      r.call[i] >= -premium && r.put[i] >= -premium &&
      (r.call[i] == -premium <==> prices[i] <= strike) &&
      (r.put[i] == -premium <==> prices[i] >= strike)
  }

  /** calculate_pnl: the element-wise call and put results. */
  function CalculatePnl(prices: seq<real>, strike: real, premium: real): (r: PnlSeries)
    ensures |r.call| == |prices| && |r.put| == |prices|
  {
    PnlSeries(
      seq(|prices|, i requires 0 <= i < |prices| => CallPnl(prices[i], strike, premium)),
      seq(|prices|, i requires 0 <= i < |prices| => PutPnl(prices[i], strike, premium)))
  }

  /** calculate_pnl keeps the promise of IsPnlOf. */
  lemma CalculatePnlMeetsContract(prices: seq<real>, strike: real, premium: real)
    ensures IsPnlOf(CalculatePnl(prices, strike, premium), prices, strike, premium)
  {
  }

  /** The promise of IsPnlOf leaves no freedom: it pins down the result. */
  lemma PnlDeterminedByContract(r: PnlSeries, prices: seq<real>, strike: real, premium: real)
    requires IsPnlOf(r, prices, strike, premium)
    ensures r == CalculatePnl(prices, strike, premium)
  {
    var expected := CalculatePnl(prices, strike, premium);
    CalculatePnlMeetsContract(prices, strike, premium);
    forall i | 0 <= i < |prices|
      ensures r.call[i] == expected.call[i] && r.put[i] == expected.put[i]
    {
      if prices[i] <= strike {
        assert r.call[i] == -premium;
      } else {
        assert r.put[i] == -premium;
      }
    }
    assert r.call == expected.call;
    assert r.put == expected.put;
  }

  /** Entry i depends on the price at i, the strike and the premium alone. */
  lemma PnlIsElementwise(prices: seq<real>, others: seq<real>, strike: real, premium: real, i: nat, j: nat)
    requires i < |prices| && j < |others| && prices[i] == others[j]
    ensures CalculatePnl(prices, strike, premium).call[i] == CalculatePnl(others, strike, premium).call[j]
    ensures CalculatePnl(prices, strike, premium).put[i] == CalculatePnl(others, strike, premium).put[j]
  {
  }

  /** Paying d more premium lowers every call and put result by exactly d. */
  lemma PremiumShiftsPnl(prices: seq<real>, strike: real, premium: real, d: real, i: nat)
    requires i < |prices|
    ensures CalculatePnl(prices, strike, premium + d).call[i] == CalculatePnl(prices, strike, premium).call[i] - d
    ensures CalculatePnl(prices, strike, premium + d).put[i] == CalculatePnl(prices, strike, premium).put[i] - d
  {
  }

  predicate Ascending(prices: seq<real>) {
    forall i, j :: 0 <= i <= j < |prices| ==> prices[i] <= prices[j]
  }

  /** Over ascending prices the call results never fall and the put results never rise. */
  lemma PnlMonotone(prices: seq<real>, strike: real, premium: real)
    requires Ascending(prices)
    ensures var r := CalculatePnl(prices, strike, premium);
      forall i, j :: 0 <= i <= j < |prices| ==> r.call[i] <= r.call[j] && r.put[i] >= r.put[j]
  {
  }

  /** Prices 50, 100 and 150 with strike 100 and premium 10. */
  lemma PnlExample()
    ensures CalculatePnl([50.0, 100.0, 150.0], 100.0, 10.0) ==
      PnlSeries([-10.0, -10.0, 40.0], [40.0, -10.0, -10.0])
  {
    var r := CalculatePnl([50.0, 100.0, 150.0], 100.0, 10.0);
    assert r.call == [-10.0, -10.0, 40.0] by {
      ExampleCalls();
    }
    assert r.put == [40.0, -10.0, -10.0] by {
      ExamplePuts();
    }
  }

  lemma ExampleCalls()
    ensures CallPnl(50.0, 100.0, 10.0) == -10.0
    ensures CallPnl(100.0, 100.0, 10.0) == -10.0
    ensures CallPnl(150.0, 100.0, 10.0) == 40.0
  {
  }

  lemma ExamplePuts()
    ensures PutPnl(50.0, 100.0, 10.0) == 40.0
    ensures PutPnl(100.0, 100.0, 10.0) == -10.0
    ensures PutPnl(150.0, 100.0, 10.0) == -10.0
  {
  }
}
