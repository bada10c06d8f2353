/** The divider search of the PWM block: candidates, their errors and what the best one is. */
module PwmSearch {
  import opened Bits

  const NSEC_PER_SEC := 1_000_000_000
  const WORD := 0x1_0000_0000
  const PM_PWM_M_MAX := 7
  const NUM_REF_CLOCKS := 3
  const NUM_PRE_DIVIDE := 4
  /** The largest product of a pre-divider, a clock period and a power of two. */
  const MAX_MPT := 6 * (NSEC_PER_SEC / 1024) * 128

  /** Clock `clk`, pre-divider `div` and exponent `m`. */
  datatype Choice = Choice(clk: nat, div: nat, m: nat)

  predicate InRange(c: Choice) {
    c.clk < NUM_REF_CLOCKS && c.div < NUM_PRE_DIVIDE && c.m <= PM_PWM_M_MAX
  }

  /** The period of a reference clock in nanoseconds. */
  function Ref(clk: nat): nat {
    NSEC_PER_SEC / if clk == 0 then 1024 else if clk == 1 then 32768 else 19_200_000
  }

  function PreDivide(div: nat): nat {
    if div == 0 then 1 else if div == 1 then 3 else if div == 2 then 5 else 6
  }

  function Product(c: Choice): nat {
    PreDivide(c.div) * Ref(c.clk) * Pow2(c.m)
  }

  function Distance(a: nat, b: nat): nat {
    if a > b then a - b else b - a
  }

  function Err(p: nat, c: Choice): nat {
    Distance(p, Product(c))
  }

  /** The order in which an exhaustive search visits the candidates. */
  function Index(c: Choice): nat {
    32 * c.clk + 8 * c.div + c.m
  }

  /** The first of the candidates before the `k`-th that has the smallest error of these. */
  ghost predicate FirstMin(p: nat, k: nat, best: Choice) {
    && InRange(best) && Index(best) < k
    && (forall c :: InRange(c) && Index(c) < k ==>
          Err(p, c) >= Err(p, best) && (Index(c) < Index(best) ==> Err(p, c) > Err(p, best)))
  }

  const ALL := 32 * NUM_REF_CLOCKS

  /** What an exhaustive search over all candidates finds. */
  ghost predicate Best(p: nat, best: Choice) {
    FirstMin(p, ALL, best)
  }

  lemma BestIsFirst(p: nat, best: Choice, c: Choice)
    requires Best(p, best) && InRange(c) && Err(p, c) <= Err(p, best)
    ensures Index(best) <= Index(c)
  {
  }

  lemma BestUnique(p: nat, a: Choice, b: Choice)
    requires Best(p, a) && Best(p, b)
    ensures a == b
  {
    BestIsFirst(p, a, b);
    BestIsFirst(p, b, a);
    IndexInjective(a, b);
  }

  lemma IndexInjective(a: Choice, b: Choice)
    requires InRange(a) && InRange(b)
    ensures Index(a) == Index(b) ==> a == b
    ensures Index(a) < Index(b) <= Index(Choice(a.clk, a.div, PM_PWM_M_MAX)) ==> a.clk == b.clk && a.div == b.div && a.m < b.m
  {
  }

  /** One candidate is taken into account. */
  lemma Considered(p: nat, best: Choice, c: Choice)
    requires InRange(c) && (Index(c) == 0 || FirstMin(p, Index(c), best))
    ensures var better := Index(c) == 0 || Err(p, c) < Err(p, best);
      FirstMin(p, Index(c) + 1, if better then c else best)
  {
    hide Err;
    forall d | InRange(d) && Index(d) == Index(c)
      ensures d == c
    {
      IndexInjective(d, c);
    }
  }

  lemma {:induction false} Pow2Grows(j: nat, k: nat)
    requires j <= k
    ensures Pow2(j) <= Pow2(k)
  {
    if j < k {
      Pow2Grows(j, k - 1);
    }
  }

  lemma ProductGrows(clk: nat, div: nat, j: nat, k: nat)
    requires j <= k
    ensures Product(Choice(clk, div, j)) <= Product(Choice(clk, div, k))
  {
    Pow2Grows(j, k);
    MulMono(PreDivide(div) * Ref(clk), Pow2(j), Pow2(k));
  }

  lemma ProductDoubles(clk: nat, div: nat, m: nat)
    ensures Product(Choice(clk, div, m + 1)) == 2 * Product(Choice(clk, div, m))
  {
    var a := PreDivide(div) * Ref(clk);
    assert Pow2(m + 1) == 2 * Pow2(m);
    assert a * (2 * Pow2(m)) == 2 * (a * Pow2(m));
  }

  /** The error has a V shape in the exponent: once it grows it keeps growing. */
  lemma ErrorGrows(p: nat, clk: nat, div: nat, m: nat, k: nat)
    requires 1 <= m <= k && Err(p, Choice(clk, div, m)) > Err(p, Choice(clk, div, m - 1))
    ensures Err(p, Choice(clk, div, k)) >= Err(p, Choice(clk, div, m))
  {
    hide Product;
    ProductGrows(clk, div, m - 1, m);
    ProductGrows(clk, div, m, k);
  }

  /** So the rest of the exponents can be skipped. */
  lemma SkipRest(p: nat, best: Choice, c: Choice)
    requires InRange(c) && c.m >= 1 && FirstMin(p, Index(c) + 1, best)
    requires Err(p, c) > Err(p, Choice(c.clk, c.div, c.m - 1))
    ensures FirstMin(p, Index(Choice(c.clk, c.div, PM_PWM_M_MAX)) + 1, best)
  {
    hide Err;
    var end := Index(Choice(c.clk, c.div, PM_PWM_M_MAX)) + 1;
    forall d | InRange(d) && Index(c) < Index(d) < end
      ensures Err(p, d) >= Err(p, best)
    {
      IndexInjective(c, d);
      assert d == Choice(c.clk, c.div, d.m);
      ErrorGrows(p, c.clk, c.div, c.m, d.m);
    }
  }

  /** No product, doubled once more, leaves 32 bits. */
  lemma ProductFits(c: Choice)
    requires InRange(c)
    ensures 52 <= Product(c) <= MAX_MPT && 2 * MAX_MPT < WORD
  {
    Pow2Grows(0, c.m);
    Pow2Grows(c.m, 7);
    assert Pow2(3) == 8;
    assert Pow2(7) == 128;
    var a := PreDivide(c.div) * Ref(c.clk);
    assert 52 <= a <= 6 * (NSEC_PER_SEC / 1024);
    MulMono(a, 1, Pow2(c.m));
    MulMono(a, Pow2(c.m), 128);
  }

  // How good the best candidate is.

  /** A candidate that misses `p` by no more than a quarter of it. */
  ghost predicate Near(p: nat, c: Choice) {
    InRange(c) && 4 * Err(p, c) <= p
  }

  /** Above 12/5 of a clock period times a power of two, and up to 1024 clock periods, some
      multiple of the clock is near. */
  lemma {:induction false} Covers(p: nat, clk: nat, m: nat) returns (c: Choice)
    requires clk < NUM_REF_CLOCKS && m <= PM_PWM_M_MAX
    requires 12 * (Ref(clk) * Pow2(m)) <= 5 * p && p <= 1024 * Ref(clk)
    ensures Near(p, c)
    decreases PM_PWM_M_MAX - m
  {
    var x := Ref(clk) * Pow2(m);
    Multiples(clk, m);
    hide Product, Pow2, Ref;
    if p <= 4 * x {
      c := Choice(clk, 1, m);
    } else if 3 * p <= 20 * x {
      c := Choice(clk, 2, m);
    } else if m < PM_PWM_M_MAX {
      c := Covers(p, clk, m + 1);
    } else {
      c := Choice(clk, 3, m);
    }
  }

  lemma Multiples(clk: nat, m: nat)
    ensures forall div :: 0 <= div < NUM_PRE_DIVIDE ==> Product(Choice(clk, div, m)) == PreDivide(div) * (Ref(clk) * Pow2(m))
    ensures Ref(clk) * Pow2(m + 1) == 2 * (Ref(clk) * Pow2(m))
    ensures m == PM_PWM_M_MAX ==> 8 * (Ref(clk) * Pow2(m)) == 1024 * Ref(clk)
  {
    assert Pow2(m + 1) == 2 * Pow2(m);
    assert Pow2(3) == 8;
    assert Pow2(7) == 128;
  }

  /** The values of `p` that some candidate comes near to. */
  ghost predicate Reachable(p: nat) {
    42 <= p <= 69 || 84 <= p <= 999_999_488
  }

  lemma NearExists(p: nat) returns (c: Choice)
    requires Reachable(p)
    ensures Near(p, c)
  {
    assert Pow2(0) == 1 && Pow2(1) == 2 && Pow2(3) == 8;
    assert Pow2(7) == 128;
    if p <= 69 {
      c := Choice(2, 0, 0);
    } else if p <= 124 {
      c := Choice(2, 0, 1);
    } else if p <= 1024 * 52 {
      c := Covers(p, 2, 0);
    } else if p <= 1024 * 30517 {
      if 5 * p < 12 * 30517 {
        c := Choice(1, 0, 1);
      } else {
        c := Covers(p, 1, 0);
      }
    } else {
      c := Covers(p, 0, 0);
    }
  }

  lemma NextProduct(c: Choice)
    requires InRange(c)
    ensures Product(c) == 52 || Product(c) >= 104
  {
    var a := PreDivide(c.div) * Ref(c.clk);
    assert a == 52 || a >= 104;
    assert Pow2(0) == 1 && Pow2(1) == 2;
    Pow2Grows(0, c.m);
    hide PreDivide, Ref;
    MulMono(a, 1, Pow2(c.m));
    if c.m >= 1 {
      Pow2Grows(1, c.m);
      MulMono(a, 2, Pow2(c.m));
    }
  }

  /** The best candidate misses `p` by no more than a quarter exactly if `p` is reachable. */
  lemma BestNearIff(p: nat, best: Choice)
    requires Best(p, best)
    ensures 4 * Err(p, best) <= p <==> Reachable(p)
  {
    if Reachable(p) {
      var c := NearExists(p);
      assert Err(p, c) >= Err(p, best);
    }
    NextProduct(best);
    ProductFits(best);
  }

  /** The bound of a quarter is tight: it is met between 3 * 128 and 5 * 128 periods of the
      slowest clock. */
  lemma QuarterIsTight(best: Choice)
    requires Best(512 * Ref(0), best)
    ensures 4 * Err(512 * Ref(0), best) == 512 * Ref(0)
  {
    BestNearIff(512 * Ref(0), best);
    NoneBetween(best);
  }

  lemma NoneBetween(c: Choice)
    requires InRange(c)
    ensures Product(c) <= 384 * Ref(0) || Product(c) >= 640 * Ref(0)
  {
    var a := PreDivide(c.div) * Ref(c.clk);
    assert Pow2(3) == 8;
    assert Pow2(6) == 64 && Pow2(7) == 128;
    Pow2Grows(c.m, 7);
    MulMono(a, Pow2(c.m), 128);
    if c.clk == 0 && c.div >= 2 && c.m <= 6 {
      Pow2Grows(c.m, 6);
      MulMono(a, Pow2(c.m), 64);
    }
  }
}
