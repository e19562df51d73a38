# Valora valuation model

A Dafny model of the valuation arithmetic of the Valora dashboard
(`streamlit_app.py`), which values a selected Swedish listed company in four steps:

- It estimates the company's debt as Debt/Equity percent times market capitalisation; that debt is the D of the WACC.
- It computes a weighted average cost of capital (`calc_wacc`):
  - the CAPM cost of equity, 2.5 % + beta · 5.5 %;
  - a flat cost of debt of 2.5 % + 1.5 %, taxed at 20 %;
  - market-value weights, where total capital falls back to 1 when it is not positive;
  - the result rounded to four decimals.
- It runs a per-share discounted cash flow when free cash flow and WACC are both positive:
  - five years of free cash flow per share growing at 3 %, each discounted at (1 + WACC)^t;
  - a Gordon terminal value growing at 2 %, discounted from year five.
- It reports how far the intrinsic value lies above or below the price, in percent, and calls the company undervalued when that deviation is strictly positive.

All arithmetic is over exact reals (`real`). Modules:

- `Rounding` — four-decimal rounding of the WACC.
- `Wacc` — `calc_wacc` and its properties.
- `Dcf` — projection, discounting, terminal value, intrinsic value. It also gives reference definitions (an index-based reference sum Σ_{t=1..n} fcf·(1+g)^t/(1+wacc)^t and a closed-form terminal term) with the lemmas tying the list-based computation to them.
- `Valuation` — the selected row, debt estimate, share count, cash flow per share, deviation, classification, and the whole pipeline of the script (`Valuate`) next to a corrected pipeline (`ValuateGuarded`, see Findings).
- `RealAlgebra` — small facts about products and quotients used by the proofs.

The default arguments of `calc_wacc` have no counterpart: the model passes them explicitly. `cash = 0` and `tax_rate = 0.20` are passed at the single call site (`RowWacc`).

Points of the script's behaviour that the model keeps as they are:

- **Non-positive total capital.** The script replaces V by 1 when E + D ≤ 0 (`Wacc.TotalCapital`). Then the weights are the raw amounts (`Wacc.NonPositiveCapitalFallback`), so E = −1, D = 0 gives −(0.025 + beta·0.055), which is −0.08 with beta 1. E = D = 0 gives a WACC of 0 (`Wacc.ZeroCapitalGivesZeroWacc`). The script treats a WACC of 0 as "could not compute" and skips the DCF (`Valuation.ZeroMarketCapSkipsDcf`).
- **WACC at or below terminal growth.** The script only checks WACC > 0 before the DCF. `Valuation.Valuate` keeps that gate; see Findings.
- **Fixed rates.** The script has no per-country rates, no interest-based cost of debt and no growth clamping. Its rates are fixed Swedish constants and fixed growth rates, and so are the model's.

## Model

| member | source | states |
|---|---|---|
| Rounding.Round4 | streamlit_app.py:18 | the rounded rate is a whole number of 1/10000 steps and lies within half a step of the unrounded rate |
| Rounding.Round4Monotone | streamlit_app.py:18 | rounding preserves order |
| Rounding.Round4OnGrid | streamlit_app.py:18 | a rate that already has four decimals is unchanged by rounding |
| Wacc.CostOfEquity | streamlit_app.py:12-14 | re = 0.025 + beta·0.055 is at least the risk-free rate exactly when beta ≥ 0, and above it exactly when beta > 0 (beta is not clamped) |
| Wacc.AfterTaxCostOfDebt | streamlit_app.py:15-18 | rd·(1 − tax) lies between 0 and the pre-tax 4 % for a tax rate in [0, 1], and is 3.2 % at the default 20 % |
| Wacc.TotalCapital | streamlit_app.py:16-17 | the divisor V is always positive, so the weights never divide by zero |
| Wacc.UnroundedWacc | streamlit_app.py:16-18 | the unrounded WACC is 0 with no capital, the cost of equity with equity only and the after-tax cost of debt with debt only; `WeightsAreConvex`, `UnroundedWaccBetweenRates`, `NonPositiveCapitalFallback` and `UnroundedWaccLinearInBeta` state the rest |
| Wacc.CalcWacc | streamlit_app.py:11-18 | the WACC has four decimals and is within half a step of the unrounded (E/V)·re + (D/V)·rd·(1 − tax) |
| Wacc.WeightsAreConvex | streamlit_app.py:16-18 | for E, D ≥ 0 with E + D > 0 both weights lie in [0, 1] and add up to 1 |
| Wacc.UnroundedWaccBetweenRates | streamlit_app.py:14-18 | under the same conditions the unrounded WACC lies between the cost of equity and the after-tax cost of debt |
| Wacc.NonPositiveCapitalFallback | streamlit_app.py:17-18 | when E + D ≤ 0 the weights are the raw amounts (V = 1) |
| Wacc.ZeroCapitalGivesZeroWacc | streamlit_app.py:17-18 | no equity and no debt give a WACC of exactly 0, whatever beta, cash and tax rate |
| Wacc.DebtFreeWaccIsCostOfEquity | streamlit_app.py:12-18 | without debt and with positive market capitalisation the WACC is 0.025 + beta·0.055 up to half a rounding step |
| Wacc.UnroundedWaccLinearInBeta | streamlit_app.py:12-18 | the unrounded WACC is linear in beta for every real beta (beta is not clamped) |
| Dcf.Pow | streamlit_app.py:48 | a power of a positive (non-zero) base is positive (non-zero) |
| Dcf.Compound | streamlit_app.py:48-56 | the factor (1 + rate)^t is positive for rate > −1 and non-zero for rate ≠ −1, so discounting never divides by zero |
| Dcf.Sum | streamlit_app.py:58 | a sum of non-negative entries is non-negative, and a non-empty sum of positive entries is positive |
| Dcf.Projected | streamlit_app.py:48 | the projection has exactly `years` entries |
| Dcf.ProjectedAt | streamlit_app.py:48 | entry t (1-based) of the projection is fcf_per_share·(1 + g)^t |
| Dcf.Discounted | streamlit_app.py:51 | discounting keeps the number of entries |
| Dcf.DiscountedAt | streamlit_app.py:51 | discounted entry t is entry t divided by (1 + wacc)^t |
| Dcf.TerminalValue | streamlit_app.py:55 | the Gordon value tv satisfies tv·(wacc − tg) = fcf_n·(1 + tg); it is ≥ 0 for fcf_n ≥ 0, tg ≥ −1 and wacc > tg, and < 0 for fcf_n > 0, tg > −1 and wacc < tg |
| Dcf.IntrinsicValue | streamlit_app.py:48-58 | the DCF as the script computes it, over the lists; its properties are stated by `IntrinsicValueShape`, `IntrinsicValuePositive`, `IntrinsicValueSingleStage` and `IntrinsicValueScales` |
| Dcf.DiscountRatio | streamlit_app.py:48-51 | the growth factor of year t over its discount factor is positive for g > −1 and wacc > −1 |
| Dcf.GordonMultiple | streamlit_app.py:55 | the multiple m satisfies m·(wacc − tg) = 1 + tg and is ≥ 0 for tg ≥ −1 and wacc > tg |
| Dcf.DiscountRatioStep | streamlit_app.py:48-51 | one year later the ratio (1+g)^n/(1+wacc)^n has gained a factor 1 + g and lost a factor 1 + wacc |
| Dcf.TerminalOfLastProjected | streamlit_app.py:54-56 | the Gordon value of the last projected cash flow, divided by (1 + wacc)^n, is the reference term fcf·(1+g)^n/(1+wacc)^n·(1+tg)/(wacc−tg) |
| Dcf.SumOfDiscountedProjection | streamlit_app.py:48-58 | the sum of the discounted projection equals the reference sum Σ fcf·(1+g)^t/(1+wacc)^t |
| Dcf.IntrinsicValueShape | streamlit_app.py:48-58 | the list-based intrinsic value equals the reference sum Σ fcf·(1+g)^t/(1+wacc)^t over t = 1..years plus the reference terminal term fcf·(1+g)^years/(1+wacc)^years·(1+tg)/(wacc−tg) |
| Dcf.PresentValueSumPositive | streamlit_app.py:48-58 | with positive cash flow, g > −1 and wacc > −1 the discounted sum over at least one year is positive |
| Dcf.IntrinsicValuePositive | streamlit_app.py:48-58 | with positive cash flow per share, g > −1, tg ≥ −1 and wacc > tg the intrinsic value is positive |
| Dcf.GordonYear | streamlit_app.py:51-56 | for equal growth rates, year n's discounted cash flow plus the terminal term at horizon n equal the terminal term at horizon n − 1 (one telescoping step) |
| Dcf.GordonCollapse | streamlit_app.py:51-58 | for equal growth rates the discounted sum plus the terminal term is fcf·(1+g)/(wacc−g) for every horizon |
| Dcf.IntrinsicValueSingleStage | streamlit_app.py:48-58 | when terminal growth equals growth the intrinsic value is the one-stage Gordon value fcf·(1+g)/(wacc−g), independent of the horizon |
| Dcf.ZeroGrowthPerpetuity | streamlit_app.py:48-58 | a cash flow of 100 with no growth at 10 % is worth exactly 1000 for any horizon |
| Dcf.PresentValueSumScales | streamlit_app.py:48-51 | the discounted sum is linear in the cash flow |
| Dcf.TerminalPresentValueScales | streamlit_app.py:55-56 | the discounted terminal term is linear in the cash flow |
| Dcf.IntrinsicValueScales | streamlit_app.py:40-58 | the intrinsic value is linear in the cash flow per share, so valuing the total flow and dividing by the share count gives the per-share value |
| Valuation.EstimateDebt | streamlit_app.py:25 | debt is 0 when Debt/Equity ≤ 0; otherwise debt·100 = market cap·Debt/Equity; it is non-negative when the market capitalisation is |
| Valuation.Shares | streamlit_app.py:39 | with a positive price, shares·price = market cap; with a non-positive price, 0 shares; shares are positive exactly when market cap and price are |
| Valuation.FcfPerShare | streamlit_app.py:40 | with positive shares, per-share flow·shares = total flow (and it is positive exactly when the flow is); otherwise 0 |
| Valuation.Deviation | streamlit_app.py:63 | the deviation d satisfies d·price = (intrinsic value − price)·100, i.e. it is the gap in percent of the price |
| Valuation.Classify | streamlit_app.py:64-67 | the verdict on a deviation; `ClassificationBoundary` states which side of the price it calls undervalued |
| Valuation.ClassificationBoundary | streamlit_app.py:63-67 | with price > 0 the verdict is undervalued exactly when intrinsic value > price; with price < 0 exactly when it is below; equality is overvalued |
| Valuation.RowWacc | streamlit_app.py:25-28 | the WACC of a row (estimated debt, no cash, default tax) has four decimals and is 0 when the market capitalisation is 0 |
| Valuation.PerShareDcf | streamlit_app.py:36-67 | the DCF branch: the share count is `Shares` of market cap and price, the per-share flow is `FcfPerShare` of the flow and that count, the intrinsic value is the reference sum plus the reference terminal term, the deviation is the gap in percent of the price, and the verdict is undervalued exactly on the side of the price the boundary lemma gives |
| Valuation.Valuate | streamlit_app.py:25-67 | the script as written: the WACC of the row (with four decimals), shown exactly when non-zero; the DCF present exactly when free cash flow > 0 and WACC > 0 |
| Valuation.ValuateGuarded | streamlit_app.py:25-67 | the corrected pipeline: DCF present exactly when free cash flow > 0 and WACC > terminal growth; its intrinsic value is never negative, and positive exactly when market cap and price are |
| Valuation.GuardedValueSign | streamlit_app.py:36-58 | behind the corrected gate the intrinsic value is ≥ 0, and > 0 exactly when market cap and price are positive |
| Valuation.IntrinsicValueOfZero | streamlit_app.py:40-58 | a zero cash flow per share (the fallback of line 40) is worth exactly 0 |
| Valuation.ZeroMarketCapSkipsDcf | streamlit_app.py:25-36 | a zero market capitalisation gives WACC 0: the WACC is not shown and no DCF is run |
| Valuation.GatesAgreeForNonNegativeBeta | streamlit_app.py:28-36 | with beta ≥ 0 and positive market cap the WACC is at least 2.5 %, so the script's gate and the corrected gate give the same report |
| Valuation.NegativeBetaGivesNegativeValue | streamlit_app.py:28-58 | a debt-free row with beta −0.2 has WACC 1.4 %, passes the script's gate and gets a negative intrinsic value |
| Valuation.NegativeTerminalDominates | streamlit_app.py:54-58 | at WACC 1.4 % the intrinsic value of one unit of cash flow per share is negative |

## Left out

- The Streamlit user interface is not modelled: title, data table, company selector, metric, messages and the `:.2f`/`:.1f` formatting. `Valuation.Report` only records which branch is shown.
- Loading the CSV over the network and looking up the selected row are not modelled. The row is a plain `CompanyRow` of reals.
- IEEE-754 doubles are replaced by exact reals: float `**`, the left-to-right float `sum` and rounding error are not modelled. Neither is NaN: a missing CSV value reaches the script as NaN, which fails every `> 0` test (lines 25, 36, 39, 40, 64) but is truthy at line 30, so for example a NaN beta gives a NaN WACC that is shown while the DCF is skipped. A `CompanyRow` of reals cannot hold NaN.
- Rounding.Round4: rounds a value exactly halfway between two four-decimal neighbours upward. `round` on the row's NumPy float64 scales by 10^4, rounds half to even and scales back, in binary floating point, so the two can differ at or near such ties. The contract states only the half-step bound and the four-decimal grid.
- The `cash` argument of `calc_wacc` is accepted and ignored, as in the script. No cash offset on debt is modelled.
- The unguarded divisions by zero are required away. The row's values are NumPy float64 scalars, so at these points the script would print inf or NaN rather than raise:
  - the division by WACC − terminal growth when the WACC is exactly 0.02 (line 55), required away by `Valuation.Valuate`; the script would report "undervalued by inf %" for a positive flow;
  - the division by the price when it is 0 inside the DCF branch (line 63), required away by `Valuation.Valuate`; the deviation would be NaN and the script would report "overvalued by nan %".
- `fcfs[-1]` on an empty list cannot happen with five years and is required away by `years >= 1` in `Dcf.IntrinsicValue`.
- A negative price is not excluded either: the share count falls back to 0 and the deviation is computed.
- Dcf.IntrinsicValuePositive: also needs g > −1 and tg ≥ −1. Without them the statement is false (for example g = −3 with an odd horizon gives negative projected flows). The script's constants 0.03 and 0.02 satisfy both.

## Findings

| source | as written | input that shows it | evidently intended | confidence | as-written member | corrected member |
|---|---|---|---|---|---|---|
| streamlit_app.py:36 | the DCF runs whenever WACC > 0, although the terminal value at line 55 divides by WACC − 0.02 | MarketCap 1, Debt/Equity 0, Beta −0.2, FreeCashflow 1, Price 1: WACC = 0.014, the terminal value is negative and the intrinsic value comes out negative | run the DCF only when WACC > terminal growth, so a positive cash flow never gets a negative value | not executed | Valuation.NegativeBetaGivesNegativeValue | Valuation.ValuateGuarded |
