/** The script's valuation of one selected company: the debt estimate from the
    Debt/Equity ratio, the WACC, the per-share DCF with its fixed assumptions,
    and the percentage deviation of the intrinsic value from the price. */
module Valuation {
  import opened Rounding
  import opened RealAlgebra
  import opened Wacc
  import opened Dcf

  /** The fields of the selected data row that the valuation reads. */
  datatype CompanyRow = CompanyRow(
    marketCap: real,
    debtToEquity: real,
    beta: real,
    freeCashflow: real,
    price: real)

  datatype Option<T> = None | Some(value: T)

  /** The two messages of the verdict. */
  datatype Verdict = Undervalued | Overvalued

  /** Outcome of the per-share DCF branch. */
  datatype DcfResult = DcfResult(
    shares: real,
    fcfPerShare: real,
    intrinsicValue: real,
    deviation: real,
    verdict: Verdict)

  /** What the script computes for one row: the WACC, whether it is shown as a
      metric (rather than the "could not compute" warning), and the DCF, which
      is absent when its gate is closed. */
  datatype Report = Report(wacc: real, waccShown: bool, dcf: Option<DcfResult>)

  /** Fixed assumptions of the DCF. */
  const GrowthRate: real := 0.03
  const TerminalGrowth: real := 0.02
  const Years: nat := 5

  /** Debt estimated from a Debt/Equity ratio given in percent; a ratio that is
      not positive means no debt. */
  function EstimateDebt(marketCap: real, debtToEquity: real): (debt: real)
    ensures debtToEquity <= 0.0 ==> debt == 0.0
    ensures debtToEquity > 0.0 ==> debt * 100.0 == marketCap * debtToEquity
    ensures marketCap >= 0.0 ==> debt >= 0.0
  {
    if debtToEquity > 0.0 then
      var debt := marketCap * (debtToEquity / 100.0);
      assert marketCap >= 0.0 ==> debt >= 0.0 by {
        if marketCap >= 0.0 { ProductNonNegative(marketCap, debtToEquity / 100.0); }
      }
      debt
    else 0.0
  }

  /** Number of shares implied by market capitalisation and price; zero when
      the price is not positive. */
  function Shares(marketCap: real, price: real): (shares: real)
    ensures price > 0.0 ==> shares * price == marketCap
    ensures price <= 0.0 ==> shares == 0.0
    ensures shares > 0.0 <==> marketCap > 0.0 && price > 0.0
  {
    if price > 0.0 then marketCap / price else 0.0
  }

  /** Free cash flow per share; zero when the share count is not positive. */
  function FcfPerShare(freeCashflow: real, shares: real): (perShare: real)
    ensures shares > 0.0 ==> perShare * shares == freeCashflow
    ensures shares <= 0.0 ==> perShare == 0.0
    ensures shares > 0.0 ==> (perShare > 0.0 <==> freeCashflow > 0.0)
  {
    if shares > 0.0 then freeCashflow / shares else 0.0
  }

  /** Deviation of the intrinsic value from the price, in percent of the price. */
  function Deviation(intrinsicValue: real, price: real): (diff: real)
    requires price != 0.0
    ensures diff * price == (intrinsicValue - price) * 100.0
  {
    (intrinsicValue - price) / price * 100.0
  }

  /** A strictly positive deviation means undervalued; zero is overvalued. */
  function Classify(diff: real): Verdict {
    if diff > 0.0 then Undervalued else Overvalued
  }

  /** Exact classification boundary: with a positive price a company is
      undervalued precisely when its intrinsic value exceeds the price, with a
      negative price precisely when it is below; equality is never
      undervalued. */
  lemma ClassificationBoundary(intrinsicValue: real, price: real)
    requires price != 0.0
    ensures price > 0.0 ==> (Classify(Deviation(intrinsicValue, price)) == Undervalued <==> intrinsicValue > price)
    ensures price < 0.0 ==> (Classify(Deviation(intrinsicValue, price)) == Undervalued <==> intrinsicValue < price)
    ensures intrinsicValue == price ==> Classify(Deviation(intrinsicValue, price)) == Overvalued
  {
  }

  /** The WACC of a row: debt estimated from Debt/Equity, no cash, the row's
      beta and the default tax rate. */
  function RowWacc(row: CompanyRow): (wacc: real)
    ensures OnGrid(wacc)
    ensures row.marketCap == 0.0 ==> wacc == 0.0
  {
    CalcWacc(row.marketCap, EstimateDebt(row.marketCap, row.debtToEquity), 0.0, row.beta, DefaultTaxRate)
  }

  /** The per-share DCF branch for a row, at a given WACC. */
  function PerShareDcf(row: CompanyRow, wacc: real): (r: DcfResult)
    requires row.price != 0.0
    requires wacc != -1.0 && wacc != TerminalGrowth
    ensures r.shares == Shares(row.marketCap, row.price)
    ensures r.fcfPerShare == FcfPerShare(row.freeCashflow, r.shares)
    ensures r.shares > 0.0 <==> row.marketCap > 0.0 && row.price > 0.0
    ensures r.fcfPerShare * r.shares == (if r.shares > 0.0 then row.freeCashflow else 0.0)
    ensures r.intrinsicValue
         == PresentValueSum(r.fcfPerShare, GrowthRate, wacc, Years)
            + TerminalPresentValue(r.fcfPerShare, GrowthRate, TerminalGrowth, wacc, Years)
    ensures r.deviation * row.price == (r.intrinsicValue - row.price) * 100.0
    ensures r.verdict == Undervalued
        <==> (if row.price > 0.0 then r.intrinsicValue > row.price else r.intrinsicValue < row.price)
  {
    var shares := Shares(row.marketCap, row.price);
    var perShare := FcfPerShare(row.freeCashflow, shares);
    var iv := IntrinsicValue(perShare, GrowthRate, TerminalGrowth, wacc, Years);
    IntrinsicValueShape(perShare, GrowthRate, TerminalGrowth, wacc, Years);
    ClassificationBoundary(iv, row.price);
    var diff := Deviation(iv, row.price);
    DcfResult(shares, perShare, iv, diff, Classify(diff))
  }

  /** The script as written: the DCF runs when the free cash flow and the WACC
      are positive. It divides by WACC − terminal growth and by the price, so
      those must not be zero when the gate is open. */
  function Valuate(row: CompanyRow): (r: Report)
    requires row.freeCashflow > 0.0 && RowWacc(row) > 0.0 ==> row.price != 0.0 && RowWacc(row) != TerminalGrowth
    ensures r.wacc == RowWacc(row) && OnGrid(r.wacc)
    ensures r.waccShown <==> r.wacc != 0.0
    ensures r.dcf.Some? <==> row.freeCashflow > 0.0 && r.wacc > 0.0
    ensures r.dcf.Some? ==> r.dcf.value == PerShareDcf(row, r.wacc)
  {
    var wacc := RowWacc(row);
    var dcf := if row.freeCashflow > 0.0 && wacc > 0.0 then Some(PerShareDcf(row, wacc)) else None;
    Report(wacc, wacc != 0.0, dcf)
  }

  /** The corrected gate: the DCF runs only when the WACC exceeds the terminal
      growth, so the Gordon terminal value is positive. The intrinsic value is
      then never negative, and positive exactly when the share count is. */
  function ValuateGuarded(row: CompanyRow): (r: Report)
    requires row.freeCashflow > 0.0 && RowWacc(row) > TerminalGrowth ==> row.price != 0.0
    ensures r.wacc == RowWacc(row) && OnGrid(r.wacc)
    ensures r.waccShown <==> r.wacc != 0.0
    ensures r.dcf.Some? <==> row.freeCashflow > 0.0 && r.wacc > TerminalGrowth
    ensures r.dcf.Some? ==> r.dcf.value == PerShareDcf(row, r.wacc)
    ensures r.dcf.Some? ==> r.dcf.value.intrinsicValue >= 0.0
    ensures r.dcf.Some? ==> (r.dcf.value.intrinsicValue > 0.0 <==> row.marketCap > 0.0 && row.price > 0.0)
  {
    var wacc := RowWacc(row);
    if row.freeCashflow > 0.0 && wacc > TerminalGrowth then
      var d := PerShareDcf(row, wacc);
      GuardedValueSign(row, wacc);
      Report(wacc, wacc != 0.0, Some(d))
    else
      Report(wacc, wacc != 0.0, None)
  }

  /** Sign of the intrinsic value behind the corrected gate. */
  lemma GuardedValueSign(row: CompanyRow, wacc: real)
    requires row.price != 0.0 && row.freeCashflow > 0.0 && wacc > TerminalGrowth
    ensures PerShareDcf(row, wacc).intrinsicValue >= 0.0
    ensures PerShareDcf(row, wacc).intrinsicValue > 0.0 <==> row.marketCap > 0.0 && row.price > 0.0
  {
    var d := PerShareDcf(row, wacc);
    if row.marketCap > 0.0 && row.price > 0.0 {
      IntrinsicValuePositive(d.fcfPerShare, GrowthRate, TerminalGrowth, wacc, Years);
    } else {
      assert d.fcfPerShare == 0.0;
      IntrinsicValueOfZero(GrowthRate, TerminalGrowth, wacc, Years);
    }
  }

  /** A zero cash flow is worth nothing. */
  lemma IntrinsicValueOfZero(growth: real, terminalGrowth: real, wacc: real, years: nat)
    requires years >= 1
    requires wacc != -1.0 && wacc != terminalGrowth
    ensures IntrinsicValue(0.0, growth, terminalGrowth, wacc, years) == 0.0
  {
    IntrinsicValueScales(0.0, 1.0, growth, terminalGrowth, wacc, years);
  }

  /** A company with no market capitalisation gets a WACC of zero: the script
      warns that the WACC could not be computed and skips the DCF. */
  lemma ZeroMarketCapSkipsDcf(row: CompanyRow)
    requires row.marketCap == 0.0
    ensures RowWacc(row) == 0.0
    ensures !Valuate(row).waccShown && Valuate(row).dcf.None?
  {
  }

  /** With a non-negative beta and a positive market capitalisation the WACC is
      at least the risk-free rate 2.5 %, above the terminal growth, so the
      gate as written and the corrected gate agree. */
  lemma GatesAgreeForNonNegativeBeta(row: CompanyRow)
    requires row.beta >= 0.0 && row.marketCap > 0.0
    requires row.freeCashflow > 0.0 ==> row.price != 0.0
    ensures RowWacc(row) >= RiskFree
    ensures Valuate(row) == ValuateGuarded(row)
  {
    var debt := EstimateDebt(row.marketCap, row.debtToEquity);
    UnroundedWaccBetweenRates(row.marketCap, debt, row.beta, DefaultTaxRate);
    ProductNonNegative(row.beta, MarketPremium);
    Round4Monotone(RiskFree, UnroundedWacc(row.marketCap, debt, row.beta, DefaultTaxRate));
    assert OnGrid(RiskFree);
    Round4OnGrid(RiskFree);
  }

  /** The gate as written lets a WACC between 0 and the terminal growth
      through: a debt-free company with beta −0.2 has a WACC of 1.4 %, and its
      intrinsic value comes out negative. */
  lemma NegativeBetaGivesNegativeValue()
    ensures var row := CompanyRow(1.0, 0.0, -0.2, 1.0, 1.0);
      RowWacc(row) == 0.014
      && Valuate(row).dcf.Some?
      && Valuate(row).dcf.value.intrinsicValue < 0.0
  {
    var row := CompanyRow(1.0, 0.0, -0.2, 1.0, 1.0);
    assert UnroundedWacc(1.0, 0.0, -0.2, DefaultTaxRate) == 0.014;
    assert OnGrid(0.014);
    Round4OnGrid(0.014);
    assert RowWacc(row) == 0.014;
    NegativeTerminalDominates();
  }

  /** The intrinsic value of one unit of cash flow per share at a WACC of
      1.4 %: the discounted terminal value is negative and outweighs the
      five discounted cash flows. */
  lemma NegativeTerminalDominates()
    ensures IntrinsicValue(1.0, GrowthRate, TerminalGrowth, 0.014, Years) < 0.0
  {
    IntrinsicValueShape(1.0, GrowthRate, TerminalGrowth, 0.014, Years);
    assert Compound(0.03, 5) == 1.1592740743;
    assert Compound(0.014, 5) == 1.071987632617824;
  }
}
