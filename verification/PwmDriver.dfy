/** The PWM driver: choice of the period, value of the duty cycle and the register writes. */
module PwmDriver {
  import opened Bits
  import opened PwmSearch

  const NSEC_PER_USEC := 1000
  const USEC_PER_SEC := 1_000_000
  const PM_PWM_PERIOD_MIN := 7
  const PM_PWM_PERIOD_MAX := 384 * USEC_PER_SEC

  /** The size in bits that goes with a period, and the period of one step in nanoseconds,
      as 32-bit arithmetic gives it. */
  function Target(periodUs: nat): (int, nat) {
    var p := Units(periodUs);
    if p >= MAX_MPT then (9, p / 8) else (6, p)
  }

  /** A 64th of the period in nanoseconds. */
  function Units(periodUs: nat): nat {
    if periodUs < (WORD - 1) / NSEC_PER_USEC
    then periodUs * NSEC_PER_USEC % WORD / 64
    else periodUs / 64 * NSEC_PER_USEC % WORD
  }

  function Steps(size: int): nat {
    if size == 9 then 512 else 64
  }

  method CalcPeriod(periodUs: nat) returns (size: int, best: Choice)
    requires periodUs < WORD
    ensures size == Target(periodUs).0 && Best(Target(periodUs).1, best)
  {
    hide FirstMin, Index, Product, Err;
    size := 6;
    var periodN;
    if periodUs < (WORD - 1) / NSEC_PER_USEC {
      periodN := periodUs * NSEC_PER_USEC % WORD / 64;
    } else {
      periodN := periodUs / 64 * NSEC_PER_USEC % WORD;
    }
    if periodN >= MAX_MPT {
      size := 9;
      periodN := periodN / 8;
    }
    var minErr: nat, lastErr: nat := WORD - 1, WORD - 1;
    best := Choice(0, 0, 0);
    for clk := 0 to NUM_REF_CLOCKS
      invariant Found(periodN, 32 * clk, best, minErr)
    {
      for div := 0 to NUM_PRE_DIVIDE
        invariant Found(periodN, 32 * clk + 8 * div, best, minErr)
      {
        minErr, best, lastErr := ScanExponents(periodN, clk, div, minErr, best, lastErr);
      }
    }
    FoundAll(periodN, best, minErr);
  }

  /** The state of the search after `k` candidates. */
  ghost predicate Found(p: nat, k: nat, best: Choice, minErr: nat) {
    if k == 0 then minErr == WORD - 1 else FirstMin(p, k, best) && minErr == Err(p, best)
  }

  lemma FoundAll(p: nat, best: Choice, minErr: nat)
    requires Found(p, 32 * NUM_REF_CLOCKS, best, minErr)
    ensures Best(p, best)
  {
  }

  /** One pass over the exponents for a clock and a pre-divider, which ends early when the
      error grows. */
  method ScanExponents(p: nat, clk: nat, div: nat, minErr0: nat, best0: Choice, lastErr0: nat)
    returns (minErr: nat, best: Choice, lastErr: nat)
    requires p < WORD && clk < NUM_REF_CLOCKS && div < NUM_PRE_DIVIDE
    requires Found(p, 32 * clk + 8 * div, best0, minErr0)
    ensures Found(p, 32 * clk + 8 * (div + 1), best, minErr)
  {
    hide FirstMin, Product, Found, Pow2;
    minErr, best, lastErr := minErr0, best0, lastErr0;
    var tmpP := PreDivide(div) * Ref(clk);
    FirstProduct(clk, div);
    ghost var k := 32 * clk + 8 * div;
    var m := 0;
    while m <= PM_PWM_M_MAX
      invariant m <= PM_PWM_M_MAX + 1 && k == 32 * clk + 8 * div + m
      invariant tmpP == Product(Choice(clk, div, m))
      invariant m > 0 ==> lastErr == Err(p, Choice(clk, div, m - 1))
      invariant Found(p, k, best, minErr)
    {
      ghost var c := Choice(clk, div, m);
      ProductFits(c);
      ProductDoubles(clk, div, m);
      FoundNext(p, best, minErr, c);
      var curErr := if p > tmpP then p - tmpP else tmpP - p;
      if curErr < minErr {
        minErr, best := curErr, Choice(clk, div, m);
      }
      k := k + 1;
      if m != 0 && curErr > lastErr {
        FoundRest(p, best, minErr, c);
        k := 32 * clk + 8 * (div + 1);
        break;
      }
      lastErr := curErr;
      tmpP := tmpP * 2 % WORD;
      m := m + 1;
    }
  }

  lemma FirstProduct(clk: nat, div: nat)
    ensures Product(Choice(clk, div, 0)) == PreDivide(div) * Ref(clk)
  {
    assert Pow2(0) == 1;
  }

  lemma FoundNext(p: nat, best: Choice, minErr: nat, c: Choice)
    requires p < WORD && InRange(c) && Found(p, Index(c), best, minErr)
    ensures var e := Err(p, c);
      Found(p, Index(c) + 1, if e < minErr then c else best, if e < minErr then e else minErr)
  {
    hide FirstMin, Err, Product;
    ErrFits(p, c);
    Considered(p, best, c);
  }

  lemma ErrFits(p: nat, c: Choice)
    requires p < WORD && InRange(c)
    ensures Err(p, c) < WORD - 1
  {
    ProductFits(c);
    hide Product;
  }

  lemma FoundRest(p: nat, best: Choice, minErr: nat, c: Choice)
    requires InRange(c) && c.m >= 1 && Found(p, Index(c) + 1, best, minErr)
    requires Err(p, c) > Err(p, Choice(c.clk, c.div, c.m - 1))
    ensures Found(p, 32 * c.clk + 8 * (c.div + 1), best, minErr)
  {
    SkipRest(p, best, c);
  }

  predicate Accepted(dutyUs: nat, periodUs: nat) {
    dutyUs <= periodUs && PM_PWM_PERIOD_MIN <= periodUs <= PM_PWM_PERIOD_MAX
  }

  /** The period that the hardware is programmed to, in nanoseconds. */
  function Programmed(periodUs: nat, c: Choice): nat {
    Steps(Target(periodUs).0) * Product(c)
  }

  /** First period in microseconds whose number of 64-step units does not fit 32 bits when it
      is turned into nanoseconds. */
  const WRAPS := 274_877_952

  /** The nanoseconds that rounding takes from a period: those below a step of 64, or, for a
      long period, those below 64 microseconds. */
  function Lost(periodUs: nat): (ns: nat)
    ensures ns < 64 || (periodUs >= (WORD - 1) / NSEC_PER_USEC && ns <= 63 * NSEC_PER_USEC)
  {
    if periodUs < (WORD - 1) / NSEC_PER_USEC then NSEC_PER_USEC * periodUs % 64 else NSEC_PER_USEC * (periodUs % 64)
  }

  /** The target is exactly the requested period without what rounding takes from it, if and
      only if the period is below the limit; from there on 32-bit arithmetic has wrapped. */
  lemma TargetTrueIff(periodUs: nat)
    requires Accepted(0, periodUs)
    ensures var (size, p) := Target(periodUs);
      Steps(size) * p == NSEC_PER_USEC * periodUs - Lost(periodUs) <==> periodUs < WRAPS
  {
    UnitsIs(periodUs);
    hide Units, Lost;
  }

  lemma UnitsIs(periodUs: nat)
    requires Accepted(0, periodUs)
    ensures var ns, u := NSEC_PER_USEC * periodUs, Units(periodUs);
      if periodUs < WRAPS then
        64 * u == ns - Lost(periodUs) && (u >= MAX_MPT ==> u % 8 == 0)
      else
        64 * u == ns - Lost(periodUs) - 64 * WORD && u % 8 == 0 && u >= 704
    ensures 7 <= periodUs < WRAPS ==> Units(periodUs) >= 109
  {
    ShortUnits(periodUs);
    LongUnits(periodUs);
  }

  lemma ShortUnits(periodUs: nat)
    requires Accepted(0, periodUs)
    ensures periodUs < (WORD - 1) / NSEC_PER_USEC ==>
      64 * Units(periodUs) == NSEC_PER_USEC * periodUs - Lost(periodUs) && 109 <= Units(periodUs) < MAX_MPT
  {
  }

  lemma LongUnits(periodUs: nat)
    requires Accepted(0, periodUs)
    ensures periodUs >= (WORD - 1) / NSEC_PER_USEC ==>
      && 64 * Units(periodUs) == NSEC_PER_USEC * periodUs - Lost(periodUs) - (if periodUs < WRAPS then 0 else 64 * WORD)
      && Units(periodUs) % 8 == 0 && Units(periodUs) >= 704
  {
    if periodUs >= (WORD - 1) / NSEC_PER_USEC {
      ThousandsWrap(periodUs / 64);
    }
  }

  lemma ThousandsWrap(q: nat)
    requires 67_108 <= q <= 6_000_000
    ensures q * NSEC_PER_USEC % WORD == q * NSEC_PER_USEC - if q < WRAPS / 64 then 0 else WORD
    ensures q * NSEC_PER_USEC % WORD % 8 == 0 && q * NSEC_PER_USEC % WORD >= 704
  {
    var u := q * NSEC_PER_USEC - if q < WRAPS / 64 then 0 else WORD;
    assert u == 8 * (125 * q - if q < WRAPS / 64 then 0 else WORD / 8);
  }

  lemma TargetReachable(periodUs: nat)
    requires Accepted(0, periodUs)
    ensures Reachable(Target(periodUs).1) && Target(periodUs).1 < MAX_MPT
  {
    UnitsIs(periodUs);
    hide Units;
  }

  /** Every accepted period that does not wrap is met to a quarter of it and no more than the
      rounding; one that wraps is programmed to less than half of what was asked for, even to
      less than two fifths. */
  lemma ProgrammedIff(periodUs: nat, best: Choice)
    requires Accepted(0, periodUs) && Best(Target(periodUs).1, best)
    ensures periodUs < WRAPS ==>
      4 * Distance(Programmed(periodUs, best), NSEC_PER_USEC * periodUs) <= NSEC_PER_USEC * periodUs + 3 * Lost(periodUs)
    ensures 2 * Programmed(periodUs, best) >= NSEC_PER_USEC * periodUs <==> periodUs < WRAPS
    ensures periodUs >= WRAPS ==> 5 * Programmed(periodUs, best) < 2 * NSEC_PER_USEC * periodUs
  {
    TargetReachable(periodUs);
    BestNearIff(Target(periodUs).1, best);
    UnitsIs(periodUs);
    hide Product, Best, Units, Reachable, Lost;
    ScaledNear(periodUs, Units(periodUs), Product(best), Lost(periodUs));
  }

  /** The arithmetic of the two sizes. */
  lemma ScaledNear(periodUs: nat, u: nat, d: nat, lost: nat)
    requires PM_PWM_PERIOD_MIN <= periodUs <= PM_PWM_PERIOD_MAX
    requires 4 * Distance(d, if u >= MAX_MPT then u / 8 else u) <= if u >= MAX_MPT then u / 8 else u
    requires u >= MAX_MPT ==> u % 8 == 0
    requires lost < 64 || (periodUs >= 4_294_967 && lost <= 63_000)
    requires 64 * u == NSEC_PER_USEC * periodUs - lost - if periodUs < WRAPS then 0 else 64 * WORD
    ensures var t, ns := if u >= MAX_MPT then 512 * d else 64 * d, NSEC_PER_USEC * periodUs;
      && (periodUs < WRAPS ==> 4 * Distance(t, ns) <= ns + 3 * lost)
      && (2 * t >= ns <==> periodUs < WRAPS) && (periodUs >= WRAPS ==> 5 * t < 2 * ns)
  {
  }

  /** What the driver computes for a duty cycle before it limits it. */
  function Quotient(size: int, periodUs: nat, dutyUs: nat): nat
    requires 0 < periodUs < WORD && dutyUs <= periodUs
  {
    if dutyUs < WORD / Steps(size) then dutyUs * Steps(size) / periodUs
    else dutyUs / (periodUs / Steps(size))
  }

  /** The exact number of steps, rounded down. */
  function Exact(size: int, periodUs: nat, dutyUs: nat): nat
    requires 0 < periodUs
  {
    dutyUs * Steps(size) / periodUs
  }

  /** The division that avoids overflow never divides by zero and gives the exact number of
      steps or one more. */
  lemma QuotientNear(size: int, periodUs: nat, dutyUs: nat)
    requires 0 < periodUs < WORD && dutyUs <= periodUs
    ensures Exact(size, periodUs, dutyUs) <= Quotient(size, periodUs, dutyUs) <= Exact(size, periodUs, dutyUs) + 1
    ensures dutyUs < WORD / Steps(size) ==> Quotient(size, periodUs, dutyUs) == Exact(size, periodUs, dutyUs)
  {
    var s := Steps(size);
    if dutyUs >= WORD / s {
      CoarseNear(s, periodUs, dutyUs);
    }
  }

  lemma CoarseNear(s: nat, period: nat, duty: nat)
    requires 0 < s <= period / s && duty <= period
    ensures duty * s / period <= duty / (period / s) <= duty * s / period + 1
  {
    var q, r, f := period / s, period % s, duty * s / period;
    DivLow(duty * s, period, f);
    assert f <= s by {
      MulMono(s, duty, period);
      Distribute(period, s, 1);
      DivLess(duty * s, period, s + 1);
    }
    OneMore(s, q, r, f, duty);
    DivLess(duty, q, f + 2);
    NotLess(s, q, r, f, duty);
    DivAtLeast(duty, q, f);
  }

  /** Rounding the divisor down does not lower the quotient. */
  lemma NotLess(s: nat, q: nat, r: nat, f: nat, duty: nat)
    requires s > 0 && (s * q + r) * f <= duty * s
    ensures q * f <= duty
  {
    Product2(s, q, r, f);
    MulLessEq(s, q * f, duty);
  }

  lemma MulLessEq(a: nat, b: nat, c: nat)
    requires a > 0 && a * b <= a * c
    ensures b <= c
  {
    if c + 1 <= b {
      MulMono(a, c + 1, b);
      Distribute(a, c, 1);
    }
  }

  /** Rounding the divisor down by less than `s` raises the quotient by less than one. */
  lemma OneMore(s: nat, q: nat, r: nat, f: nat, duty: nat)
    requires r < s <= q && f <= s && duty * s < (s * q + r) * (f + 1)
    ensures duty < q * (f + 2)
  {
    var g := f + 1;
    var a, b, c := s * (q * g), r * g, s * q;
    Product2(s, q, r, g);
    Square(r, g, s, q);
    assert s * duty < a + c;
    Distribute(s, q * g, q);
    Distribute(q, g, 1);
    MulLess(s, duty, q * (f + 2));
  }

  lemma Product2(s: nat, q: nat, r: nat, g: nat)
    ensures (s * q + r) * g == s * (q * g) + r * g
  {
    assert s * q * g == s * (q * g);
  }

  lemma Square(r: nat, g: nat, s: nat, q: nat)
    requires r < s <= q && g <= s + 1
    ensures r * g < s * q
  {
    MulMono(r, g, s + 1);
    MulMono(s + 1, r, s - 1);
    assert (s + 1) * (s - 1) == s * s - 1;
    MulMono(s, s, q);
  }
}
