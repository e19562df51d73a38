/** The per-share discounted cash flow: a constant-growth projection of free
    cash flow per share over a finite horizon, each year discounted at the
    WACC, plus a Gordon-growth terminal value discounted from the last year. */
module Dcf {
  import opened RealAlgebra

  /** `x ** n` for a whole exponent. */
  function Pow(x: real, n: nat): (r: real)
    ensures x > 0.0 ==> r > 0.0
    ensures x != 0.0 ==> r != 0.0
  {
    if n == 0 then 1.0 else x * Pow(x, n - 1)
  }

  /** The compounding factor `(1 + rate) ** t`. */
  function Compound(rate: real, t: nat): (r: real)
    ensures rate > -1.0 ==> r > 0.0
    ensures rate != -1.0 ==> r != 0.0
  {
    Pow(1.0 + rate, t)
  }

  /** One more year multiplies the compounding factor by 1 + rate. */
  lemma CompoundStep(rate: real, t: nat)
    requires t > 0
    ensures Compound(rate, t) == (1.0 + rate) * Compound(rate, t - 1)
  {
  }

  /** `sum(s)`, adding from the left as Python does. */
  function Sum(s: seq<real>): (r: real)
    ensures (forall i | 0 <= i < |s| :: s[i] >= 0.0) ==> r >= 0.0
    ensures (forall i | 0 <= i < |s| :: s[i] > 0.0) && s != [] ==> r > 0.0
  {
    if s == [] then 0.0 else Sum(s[..|s| - 1]) + s[|s| - 1]
  }

  /** The projected free cash flows per share for years 1 to `years`. */
  function Projected(fcfPerShare: real, growth: real, years: nat): (r: seq<real>)
    ensures |r| == years
  {
    if years == 0 then []
    else Projected(fcfPerShare, growth, years - 1) + [fcfPerShare * Compound(growth, years)]
  }

  /** Each cash flow divided by the discount factor of its year (1-based). */
  function Discounted(fcfs: seq<real>, wacc: real): (r: seq<real>)
    requires wacc != -1.0
    ensures |r| == |fcfs|
  {
    if fcfs == [] then []
    else Discounted(fcfs[..|fcfs| - 1], wacc) + [fcfs[|fcfs| - 1] / Compound(wacc, |fcfs|)]
  }

  /** Entry t (1-based) of the projection is fcf·(1+g)^t. */
  lemma {:induction false} ProjectedAt(fcfPerShare: real, growth: real, years: nat, t: nat)
    requires 1 <= t <= years
    ensures Projected(fcfPerShare, growth, years)[t - 1] == fcfPerShare * Compound(growth, t)
  {
    if t < years {
      ProjectedAt(fcfPerShare, growth, years - 1, t);
    }
  }

  /** Entry t (1-based) of the discounted list is entry t of the cash flows
      divided by (1+wacc)^t. */
  lemma {:induction false} DiscountedAt(fcfs: seq<real>, wacc: real, t: nat)
    requires wacc != -1.0 && 1 <= t <= |fcfs|
    ensures Discounted(fcfs, wacc)[t - 1] == fcfs[t - 1] / Compound(wacc, t)
  {
    if t < |fcfs| {
      DiscountedAt(fcfs[..|fcfs| - 1], wacc, t);
    }
  }

  /** Gordon-growth value, one year after `lastFcf`, of a perpetuity growing
      at `terminalGrowth` and discounted at `wacc`. */
  function TerminalValue(lastFcf: real, terminalGrowth: real, wacc: real): (tv: real)
    requires wacc != terminalGrowth
    ensures tv * (wacc - terminalGrowth) == lastFcf * (1.0 + terminalGrowth)
    ensures lastFcf >= 0.0 && terminalGrowth >= -1.0 && wacc > terminalGrowth ==> tv >= 0.0
    ensures lastFcf > 0.0 && terminalGrowth > -1.0 && wacc < terminalGrowth ==> tv < 0.0
  {
    var numerator := lastFcf * (1.0 + terminalGrowth);
    assert lastFcf >= 0.0 && terminalGrowth >= -1.0 ==> numerator >= 0.0 by {
      if lastFcf >= 0.0 && terminalGrowth >= -1.0 { ProductNonNegative(lastFcf, 1.0 + terminalGrowth); }
    }
    assert lastFcf > 0.0 && terminalGrowth > -1.0 ==> numerator > 0.0 by {
      if lastFcf > 0.0 && terminalGrowth > -1.0 { ProductPositive(lastFcf, 1.0 + terminalGrowth); }
    }
    numerator / (wacc - terminalGrowth)
  }

  /** Intrinsic value per share: the discounted projection plus the terminal
      value of the last projected cash flow, discounted by the factor of the
      last year. */
  function IntrinsicValue(fcfPerShare: real, growth: real, terminalGrowth: real, wacc: real, years: nat): real
    requires years >= 1
    requires wacc != -1.0 && wacc != terminalGrowth
  {
    var fcfs := Projected(fcfPerShare, growth, years);
    var discountedFcfs := Discounted(fcfs, wacc);
    var terminal := TerminalValue(fcfs[|fcfs| - 1], terminalGrowth, wacc);
    var discountedTerminal := terminal / Compound(wacc, years);
    Sum(discountedFcfs) + discountedTerminal
  }

  /** The growth factor of year t over its discount factor: (1+g)^t/(1+wacc)^t. */
  function DiscountRatio(growth: real, wacc: real, t: nat): (r: real)
    requires wacc != -1.0
    ensures growth > -1.0 && wacc > -1.0 ==> r > 0.0
  {
    Compound(growth, t) / Compound(wacc, t)
  }

  /** The Gordon multiple (1+tg)/(wacc−tg): the terminal value of one unit of
      last cash flow. */
  function GordonMultiple(terminalGrowth: real, wacc: real): (m: real)
    requires wacc != terminalGrowth
    ensures m * (wacc - terminalGrowth) == 1.0 + terminalGrowth
    ensures terminalGrowth >= -1.0 && wacc > terminalGrowth ==> m >= 0.0
  {
    (1.0 + terminalGrowth) / (wacc - terminalGrowth)
  }

  /** Reference definition: the sum over t = 1..n of fcf·(1+g)^t/(1+wacc)^t. */
  function PresentValueSum(fcfPerShare: real, growth: real, wacc: real, n: nat): real
    requires wacc != -1.0
  {
    if n == 0 then 0.0
    else PresentValueSum(fcfPerShare, growth, wacc, n - 1) + fcfPerShare * DiscountRatio(growth, wacc, n)
  }

  /** Reference definition: fcf·(1+g)^n/(1+wacc)^n·(1+tg)/(wacc−tg), the
      terminal value of the year-n cash flow discounted to today. */
  function TerminalPresentValue(fcfPerShare: real, growth: real, terminalGrowth: real, wacc: real, n: nat): real
    requires wacc != -1.0 && wacc != terminalGrowth
  {
    fcfPerShare * (DiscountRatio(growth, wacc, n) * GordonMultiple(terminalGrowth, wacc))
  }

  /** Adding one more entry at the end adds it to the sum. */
  lemma SumSnoc(s: seq<real>, x: real)
    ensures Sum(s + [x]) == Sum(s) + x
  {
    assert (s + [x])[..|s|] == s;
  }

  /** One more cash flow at the end is discounted by the factor of the next year. */
  lemma DiscountedSnoc(fcfs: seq<real>, x: real, wacc: real)
    requires wacc != -1.0
    ensures Discounted(fcfs + [x], wacc) == Discounted(fcfs, wacc) + [x / Compound(wacc, |fcfs| + 1)]
  {
    assert (fcfs + [x])[..|fcfs|] == fcfs;
  }

  /** The Gordon terminal value is the last cash flow times the Gordon multiple. */
  lemma TerminalValueIsMultiple(lastFcf: real, terminalGrowth: real, wacc: real)
    requires wacc != terminalGrowth
    ensures TerminalValue(lastFcf, terminalGrowth, wacc) == lastFcf * GordonMultiple(terminalGrowth, wacc)
  {
    ScaleDiv(lastFcf, 1.0 + terminalGrowth, wacc - terminalGrowth);
  }

  /** Regrouping (f·c)·m/d as f·((c/d)·m). */
  lemma Regroup(f: real, c: real, d: real, m: real)
    requires d != 0.0
    ensures (f * c) * m / d == f * ((c / d) * m)
  {
    var q := c / d;
    assert q * d == c;
    assert (f * (q * m)) * d == (f * c) * m;
  }

  /** The script's terminal term, the Gordon value of the last projected cash
      flow discounted by the factor of year n, is the reference terminal term. */
  lemma TerminalOfLastProjected(fcfPerShare: real, growth: real, terminalGrowth: real, wacc: real, n: nat)
    requires n >= 1
    requires wacc != -1.0 && wacc != terminalGrowth
    ensures TerminalValue(Projected(fcfPerShare, growth, n)[n - 1], terminalGrowth, wacc) / Compound(wacc, n)
         == TerminalPresentValue(fcfPerShare, growth, terminalGrowth, wacc, n)
  {
    ProjectedAt(fcfPerShare, growth, n, n);
    TerminalValueIsMultiple(fcfPerShare * Compound(growth, n), terminalGrowth, wacc);
    Regroup(fcfPerShare, Compound(growth, n), Compound(wacc, n), GordonMultiple(terminalGrowth, wacc));
  }

  /** Summing the discounted projection gives the reference present-value sum. */
  lemma {:induction false} SumOfDiscountedProjection(fcfPerShare: real, growth: real, wacc: real, n: nat)
    requires wacc != -1.0
    ensures Sum(Discounted(Projected(fcfPerShare, growth, n), wacc)) == PresentValueSum(fcfPerShare, growth, wacc, n)
  {
    if n > 0 {
      SumOfDiscountedProjection(fcfPerShare, growth, wacc, n - 1);
      var prev := Projected(fcfPerShare, growth, n - 1);
      var last := fcfPerShare * Compound(growth, n);
      assert Projected(fcfPerShare, growth, n) == prev + [last];
      DiscountedSnoc(prev, last, wacc);
      SumSnoc(Discounted(prev, wacc), last / Compound(wacc, n));
      ScaleDiv(fcfPerShare, Compound(growth, n), Compound(wacc, n));
    }
  }

  /** The shape of the intrinsic value: the sum over t = 1..years of
      fcf·(1+g)^t/(1+wacc)^t, plus fcf_n·(1+tg)/(wacc−tg)/(1+wacc)^years,
      where fcf_n = fcf·(1+g)^years is the last projected cash flow. */
  lemma IntrinsicValueShape(fcfPerShare: real, growth: real, terminalGrowth: real, wacc: real, years: nat)
    requires years >= 1
    requires wacc != -1.0 && wacc != terminalGrowth
    ensures IntrinsicValue(fcfPerShare, growth, terminalGrowth, wacc, years)
         == PresentValueSum(fcfPerShare, growth, wacc, years)
            + TerminalPresentValue(fcfPerShare, growth, terminalGrowth, wacc, years)
  {
    TerminalOfLastProjected(fcfPerShare, growth, terminalGrowth, wacc, years);
    SumOfDiscountedProjection(fcfPerShare, growth, wacc, years);
  }

  /** With a positive cash flow and growth above −100 %, every discounted year
      adds a positive amount, so the sum over n >= 1 years is positive. */
  lemma {:induction false} PresentValueSumPositive(fcfPerShare: real, growth: real, wacc: real, n: nat)
    requires fcfPerShare > 0.0 && growth > -1.0 && wacc > -1.0 && n >= 1
    ensures PresentValueSum(fcfPerShare, growth, wacc, n) > 0.0
  {
    ProductPositive(fcfPerShare, DiscountRatio(growth, wacc, n));
    if n > 1 {
      PresentValueSumPositive(fcfPerShare, growth, wacc, n - 1);
    }
  }

  /** The intrinsic value is positive when the cash flow per share is
      positive, growth is above −100 %, terminal growth is at least −100 %
      and the WACC exceeds the terminal growth. */
  lemma IntrinsicValuePositive(fcfPerShare: real, growth: real, terminalGrowth: real, wacc: real, years: nat)
    requires years >= 1
    requires fcfPerShare > 0.0 && growth > -1.0 && terminalGrowth >= -1.0 && wacc > terminalGrowth
    ensures IntrinsicValue(fcfPerShare, growth, terminalGrowth, wacc, years) > 0.0
  {
    IntrinsicValueShape(fcfPerShare, growth, terminalGrowth, wacc, years);
    PresentValueSumPositive(fcfPerShare, growth, wacc, years);
    var r, m := DiscountRatio(growth, wacc, years), GordonMultiple(terminalGrowth, wacc);
    ProductNonNegative(r, m);
    ProductNonNegative(fcfPerShare, r * m);
  }

  /** One year later the ratio has gained a factor 1+g and lost a factor 1+wacc. */
  lemma DiscountRatioStep(growth: real, wacc: real, n: nat)
    requires wacc != -1.0 && n > 0
    ensures DiscountRatio(growth, wacc, n) * (1.0 + wacc) == DiscountRatio(growth, wacc, n - 1) * (1.0 + growth)
  {
    CompoundStep(growth, n);
    CompoundStep(wacc, n);
    RatioShift(Compound(growth, n - 1), Compound(wacc, n - 1), Compound(growth, n), Compound(wacc, n), growth, wacc);
  }

  /** Multiplying numerator and denominator by one more factor each shifts
      the quotient by the ratio of those factors. */
  lemma RatioShift(p: real, d: real, pn: real, dn: real, growth: real, wacc: real)
    requires d != 0.0 && wacc != -1.0
    requires pn == (1.0 + growth) * p && dn == (1.0 + wacc) * d
    ensures dn != 0.0
    ensures (pn / dn) * (1.0 + wacc) == (p / d) * (1.0 + growth)
  {
    var q := p / d;
    assert q * d == p;
    assert ((1.0 + growth) * q) * dn == pn * (1.0 + wacc);
  }

  /** The telescoping identity on the ratios r (year n) and r0 (year n−1) and
      the Gordon multiple m at equal growth rates. */
  lemma GordonStep(r: real, r0: real, m: real, growth: real, wacc: real)
    requires wacc != growth
    requires r * (1.0 + wacc) == r0 * (1.0 + growth) && m * (wacc - growth) == 1.0 + growth
    ensures r + r * m == r0 * m
  {
    assert (r + r * m) * (wacc - growth) == r * (1.0 + wacc);
    assert (r0 * m) * (wacc - growth) == r0 * (1.0 + growth);
    MulCancel(r + r * m, r0 * m, wacc - growth);
  }

  /** Year n's discounted cash flow plus year n's discounted terminal value
      equal year n−1's discounted terminal value, when growth equals terminal
      growth. */
  lemma GordonYear(fcfPerShare: real, growth: real, wacc: real, n: nat)
    requires wacc != -1.0 && wacc != growth && n > 0
    ensures fcfPerShare * DiscountRatio(growth, wacc, n) + TerminalPresentValue(fcfPerShare, growth, growth, wacc, n)
         == TerminalPresentValue(fcfPerShare, growth, growth, wacc, n - 1)
  {
    var r, r0, m := DiscountRatio(growth, wacc, n), DiscountRatio(growth, wacc, n - 1), GordonMultiple(growth, wacc);
    DiscountRatioStep(growth, wacc, n);
    GordonStep(r, r0, m, growth, wacc);
    assert fcfPerShare * (r + r * m) == fcfPerShare * r + fcfPerShare * (r * m);
  }

  /** When the explicit-horizon growth equals the terminal growth, the
      two-stage value collapses to the one-stage Gordon formula
      fcf·(1+g)/(wacc−g), whatever the horizon. */
  lemma {:induction false} GordonCollapse(fcfPerShare: real, growth: real, wacc: real, n: nat)
    requires wacc != -1.0 && wacc != growth
    ensures PresentValueSum(fcfPerShare, growth, wacc, n) + TerminalPresentValue(fcfPerShare, growth, growth, wacc, n)
         == fcfPerShare * GordonMultiple(growth, wacc)
  {
    if n > 0 {
      GordonCollapse(fcfPerShare, growth, wacc, n - 1);
      GordonYear(fcfPerShare, growth, wacc, n);
    }
  }

  /** With equal growth rates the intrinsic value is fcf·(1+g)/(wacc−g),
      whatever the horizon. */
  lemma IntrinsicValueSingleStage(fcfPerShare: real, growth: real, wacc: real, years: nat)
    requires years >= 1
    requires wacc != -1.0 && wacc != growth
    ensures IntrinsicValue(fcfPerShare, growth, growth, wacc, years) == fcfPerShare * (1.0 + growth) / (wacc - growth)
  {
    calc {
      IntrinsicValue(fcfPerShare, growth, growth, wacc, years);
    ==  { IntrinsicValueShape(fcfPerShare, growth, growth, wacc, years); }
      PresentValueSum(fcfPerShare, growth, wacc, years) + TerminalPresentValue(fcfPerShare, growth, growth, wacc, years);
    ==  { GordonCollapse(fcfPerShare, growth, wacc, years); }
      fcfPerShare * GordonMultiple(growth, wacc);
    ==  { ScaleDiv(fcfPerShare, 1.0 + growth, wacc - growth); }
      fcfPerShare * (1.0 + growth) / (wacc - growth);
    }
  }

  /** Without growth, a cash flow of 100 at a 10 % rate is worth 1000 for any
      horizon: the perpetuity 100 / 0.10. */
  lemma ZeroGrowthPerpetuity(years: nat)
    requires years >= 1
    ensures IntrinsicValue(100.0, 0.0, 0.0, 0.10, years) == 1000.0
  {
    IntrinsicValueSingleStage(100.0, 0.0, 0.10, years);
  }

  /** The discounted sum is linear in the cash flow. */
  lemma {:induction false} PresentValueSumScales(k: real, fcf: real, growth: real, wacc: real, n: nat)
    requires wacc != -1.0
    ensures PresentValueSum(k * fcf, growth, wacc, n) == k * PresentValueSum(fcf, growth, wacc, n)
  {
    if n > 0 {
      PresentValueSumScales(k, fcf, growth, wacc, n - 1);
      var r := DiscountRatio(growth, wacc, n);
      assert (k * fcf) * r == k * (fcf * r);
    }
  }

  /** The discounted terminal value is linear in the cash flow. */
  lemma TerminalPresentValueScales(k: real, fcf: real, growth: real, terminalGrowth: real, wacc: real, n: nat)
    requires wacc != -1.0 && wacc != terminalGrowth
    ensures TerminalPresentValue(k * fcf, growth, terminalGrowth, wacc, n)
         == k * TerminalPresentValue(fcf, growth, terminalGrowth, wacc, n)
  {
    var x := DiscountRatio(growth, wacc, n) * GordonMultiple(terminalGrowth, wacc);
    assert TerminalPresentValue(fcf, growth, terminalGrowth, wacc, n) == fcf * x;
    assert (k * fcf) * x == k * (fcf * x);
  }

  /** The value is linear in the cash flow: scaling the cash flow scales the
      intrinsic value by the same factor, so valuing the total free cash flow
      and dividing by the share count gives the per-share value. */
  lemma IntrinsicValueScales(k: real, fcf: real, growth: real, terminalGrowth: real, wacc: real, years: nat)
    requires years >= 1
    requires wacc != -1.0 && wacc != terminalGrowth
    ensures IntrinsicValue(k * fcf, growth, terminalGrowth, wacc, years)
         == k * IntrinsicValue(fcf, growth, terminalGrowth, wacc, years)
  {
    var s, t := PresentValueSum(fcf, growth, wacc, years), TerminalPresentValue(fcf, growth, terminalGrowth, wacc, years);
    calc {
      IntrinsicValue(k * fcf, growth, terminalGrowth, wacc, years);
    ==  { IntrinsicValueShape(k * fcf, growth, terminalGrowth, wacc, years); }
      PresentValueSum(k * fcf, growth, wacc, years) + TerminalPresentValue(k * fcf, growth, terminalGrowth, wacc, years);
    ==  { PresentValueSumScales(k, fcf, growth, wacc, years); }
      k * s + TerminalPresentValue(k * fcf, growth, terminalGrowth, wacc, years);
    ==  { TerminalPresentValueScales(k, fcf, growth, terminalGrowth, wacc, years); }
      k * s + k * t;
    ==
      k * (s + t);
    ==  { IntrinsicValueShape(fcf, growth, terminalGrowth, wacc, years); }
      k * IntrinsicValue(fcf, growth, terminalGrowth, wacc, years);
    }
  }
}
