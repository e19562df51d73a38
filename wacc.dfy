/** The Swedish weighted average cost of capital of `calc_wacc`: CAPM cost of
    equity, a flat cost of debt, market-value weights and a tax shield on
    debt, rounded to four decimals. */
module Wacc {
  import opened Rounding
  import opened RealAlgebra

  /** Yield of the 10-year Swedish government bond. */
  const RiskFree: real := 0.025
  /** Equity market risk premium. */
  const MarketPremium: real := 0.055
  /** Flat credit spread added to the risk-free rate for debt. */
  const DebtSpread: real := 0.015
  /** Default corporate tax rate (`tax_rate=0.20`). */
  const DefaultTaxRate: real := 0.20

  /** Cost of debt: the risk-free rate plus the flat spread, whatever the company. */
  const CostOfDebt: real := RiskFree + DebtSpread

  /** CAPM cost of equity; beta is not clamped. */
  function CostOfEquity(beta: real): (re: real)
    ensures re >= RiskFree <==> beta >= 0.0
    ensures re > RiskFree <==> beta > 0.0
  {
    RiskFree + beta * MarketPremium
  }

  /** After-tax cost of debt. */
  function AfterTaxCostOfDebt(taxRate: real): (rd: real)
    ensures 0.0 <= taxRate <= 1.0 ==> 0.0 <= rd <= CostOfDebt
    ensures taxRate == DefaultTaxRate ==> rd == 0.032
  {
    CostOfDebt * (1.0 - taxRate)
  }

  /** Total capital V = E + D, replaced by 1 when that sum is not positive. */
  function TotalCapital(equity: real, debt: real): (v: real)
    ensures v > 0.0
  {
    if equity + debt > 0.0 then equity + debt else 1.0
  }

  /** The weighted cost of capital before rounding. */
  function UnroundedWacc(equity: real, debt: real, beta: real, taxRate: real): (w: real)
    ensures equity == 0.0 && debt == 0.0 ==> w == 0.0
    ensures equity > 0.0 && debt == 0.0 ==> w == CostOfEquity(beta)
    ensures equity == 0.0 && debt > 0.0 ==> w == AfterTaxCostOfDebt(taxRate)
  {
    var v := TotalCapital(equity, debt);
    (equity / v) * CostOfEquity(beta) + (debt / v) * AfterTaxCostOfDebt(taxRate)
  }

  /** `calc_wacc`: the unrounded WACC rounded to four decimals. The `cash`
      argument is accepted and ignored, as in the script. */
  function CalcWacc(marketCap: real, totalDebt: real, cash: real, beta: real, taxRate: real): (r: real)
    ensures OnGrid(r)
    ensures UnroundedWacc(marketCap, totalDebt, beta, taxRate) - HalfStep < r
    ensures r <= UnroundedWacc(marketCap, totalDebt, beta, taxRate) + HalfStep
  {
    Round4(UnroundedWacc(marketCap, totalDebt, beta, taxRate))
  }

  /** With non-negative equity and debt and positive total capital the two
      weights lie in [0, 1] and add up to one. */
  lemma WeightsAreConvex(equity: real, debt: real)
    requires equity >= 0.0 && debt >= 0.0 && equity + debt > 0.0
    ensures 0.0 <= equity / TotalCapital(equity, debt) <= 1.0
    ensures 0.0 <= debt / TotalCapital(equity, debt) <= 1.0
    ensures equity / TotalCapital(equity, debt) + debt / TotalCapital(equity, debt) == 1.0
  {
  }

  /** The unrounded WACC is a convex combination of the cost of equity and the
      after-tax cost of debt, so it lies between the two. */
  lemma UnroundedWaccBetweenRates(equity: real, debt: real, beta: real, taxRate: real)
    requires equity >= 0.0 && debt >= 0.0 && equity + debt > 0.0
    ensures var re, rd := CostOfEquity(beta), AfterTaxCostOfDebt(taxRate);
      (if re <= rd then re else rd) <= UnroundedWacc(equity, debt, beta, taxRate) <= (if re <= rd then rd else re)
  {
    WeightsAreConvex(equity, debt);
    var re, rd := CostOfEquity(beta), AfterTaxCostOfDebt(taxRate);
    var w := equity / TotalCapital(equity, debt);
    var u := debt / TotalCapital(equity, debt);
    assert u == 1.0 - w;
    assert UnroundedWacc(equity, debt, beta, taxRate) == w * re + (1.0 - w) * rd;
    assert w * re + (1.0 - w) * rd - re == (1.0 - w) * (rd - re);
    assert w * re + (1.0 - w) * rd - rd == w * (re - rd);
    assert 0.0 <= 1.0 - w && 0.0 <= w;
    if re <= rd {
      ProductNonNegative(1.0 - w, rd - re);
      ProductNonNegative(w, rd - re);
    } else {
      ProductNonNegative(1.0 - w, re - rd);
      ProductNonNegative(w, re - rd);
    }
  }

  /** When total capital is not positive, V falls back to 1: there is no
      division by zero and the weights are the raw amounts. */
  lemma NonPositiveCapitalFallback(equity: real, debt: real, beta: real, taxRate: real)
    requires equity + debt <= 0.0
    ensures UnroundedWacc(equity, debt, beta, taxRate)
         == equity * CostOfEquity(beta) + debt * AfterTaxCostOfDebt(taxRate)
  {
  }

  /** No capital at all gives a WACC of exactly zero, the value the script
      treats as "could not compute". */
  lemma ZeroCapitalGivesZeroWacc(cash: real, beta: real, taxRate: real)
    ensures CalcWacc(0.0, 0.0, cash, beta, taxRate) == 0.0
  {
  }

  /** Without debt and with positive market capitalisation, the unrounded WACC
      is the cost of equity, and the WACC is within half a step of it. */
  lemma DebtFreeWaccIsCostOfEquity(marketCap: real, cash: real, beta: real, taxRate: real)
    requires marketCap > 0.0
    ensures UnroundedWacc(marketCap, 0.0, beta, taxRate) == RiskFree + beta * MarketPremium
    ensures var r := CalcWacc(marketCap, 0.0, cash, beta, taxRate);
      RiskFree + beta * MarketPremium - HalfStep < r <= RiskFree + beta * MarketPremium + HalfStep
  {
  }

  /** The unrounded WACC is linear in beta, for every real beta: a change of
      beta moves it by the equity weight times the premium times that change. */
  lemma UnroundedWaccLinearInBeta(equity: real, debt: real, beta1: real, beta2: real, taxRate: real)
    ensures UnroundedWacc(equity, debt, beta1, taxRate) - UnroundedWacc(equity, debt, beta2, taxRate)
         == (equity / TotalCapital(equity, debt)) * MarketPremium * (beta1 - beta2)
  {
  }
}
