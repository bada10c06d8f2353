/** Bitwise "and" on natural numbers, and masks that are one below a power of two. */
module Bits {

  function And(a: nat, b: nat): nat {
    if a == 0 || b == 0 then 0
    else 2 * And(a / 2, b / 2) + if a % 2 == 1 && b % 2 == 1 then 1 else 0
  }

  function Pow2(k: nat): (r: nat)
    ensures r >= 1
  {
    if k == 0 then 1 else 2 * Pow2(k - 1)
  }

  ghost predicate IsPow2(n: nat) {
    exists k: nat :: n == Pow2(k)
  }

  /** A quotient and a remainder that fit are those of the division. */
  lemma DivModUnique(x: int, n: nat, q: int, r: int)
    requires 0 <= r < n && x == n * q + r
    ensures x / n == q && x % n == r
  {
    var d := x / n - q;
    assert n * d == r - x % n;
    MulBound(n, d);
  }

  lemma MulBound(n: nat, d: int)
    ensures d >= 1 ==> n * d >= n
    ensures d <= -1 ==> n * d + n <= 0
  {
  }

  lemma {:induction false} MaskIsMod(x: nat, k: nat)
    ensures And(x, Pow2(k) - 1) == x % Pow2(k)
  {
    if k > 0 {
      var p := Pow2(k - 1);
      MaskIsMod(x / 2, k - 1);
      assert (2 * p - 1) / 2 == p - 1;
      HalvesMod(x, p);
      if p == 1 {
        assert And(x / 2, 0) == 0;
      }
    }
  }

  /** A mask of one bit tells that bit. */
  lemma {:induction false} BitIs(x: nat, k: nat)
    ensures And(x, Pow2(k)) != 0 <==> x / Pow2(k) % 2 == 1
  {
    if k == 0 {
      LowestBit(x);
    } else {
      var p := Pow2(k - 1);
      BitIs(x / 2, k - 1);
      HalfDiv(x, p);
      AndDouble(x, p);
      assert Pow2(k) == 2 * p;
      hide And, Pow2;
    }
  }

  lemma LowestBit(x: nat)
    ensures And(x, Pow2(0)) != 0 <==> x / Pow2(0) % 2 == 1
  {
    assert Pow2(0) == 1 && And(x / 2, 0) == 0;
  }

  lemma AndDouble(x: nat, p: nat)
    requires p >= 1
    ensures And(x, 2 * p) == 2 * And(x / 2, p)
  {
  }

  lemma HalfDiv(x: nat, p: nat)
    requires p >= 1
    ensures x / 2 / p == x / (2 * p)
  {
    var y := x / 2;
    var q, r := y / p, y % p;
    assert y == p * q + r;
    assert x == 2 * p * q + (2 * r + x % 2);
    DivModUnique(x, 2 * p, q, 2 * r + x % 2);
  }

  lemma HalvesMod(x: nat, p: nat)
    requires p >= 1
    ensures x % (2 * p) == 2 * (x / 2 % p) + x % 2
  {
    var q, t := x / 2 / p, x / 2 % p;
    assert x == 2 * (p * q + t) + x % 2;
    assert x == (2 * p) * q + (2 * t + x % 2);
    DivModUnique(x, 2 * p, q, 2 * t + x % 2);
  }

  /** Reducing by a multiple of the modulus first changes nothing. */
  lemma ModMod(x: int, n: nat, f: nat)
    requires n >= 1 && f >= 1
    ensures n * f >= 1 && x % (n * f) % n == x % n
  {
    MulBound(n, f);
    var q, r := x / (n * f), x % (n * f);
    assert x == n * (f * q) + r by {
      assert n * f * q == n * (f * q);
    }
    assert x == n * (f * q + r / n) + r % n;
    DivModUnique(x, n, f * q + r / n, r % n);
  }

  /** A power of two divides a larger one. */
  lemma {:induction false} PowersDivide(k: nat, j: nat)
    ensures Pow2(k + j) == Pow2(k) * Pow2(j)
  {
    if j > 0 {
      PowersDivide(k, j - 1);
      assert Pow2(k + j) == 2 * Pow2(k + j - 1);
    }
  }

  lemma Distribute(n: int, a: int, b: int)
    ensures n * (a + b) == n * a + n * b
    ensures n * -b == -(n * b)
  {
  }

  lemma MulMono(a: nat, b: nat, c: nat)
    requires b <= c
    ensures a * b <= a * c
  {
  }

  lemma MulLess(a: nat, b: nat, c: nat)
    requires a * b < a * c
    ensures b < c
  {
    if c <= b {
      MulMono(a, c, b);
    }
  }

  /** The bounds that a quotient puts on the dividend. */
  lemma DivLow(a: nat, b: nat, k: nat)
    requires b > 0 && k <= a / b
    ensures b * k <= a < b * (a / b + 1)
  {
    MulMono(b, k, a / b);
    Distribute(b, a / b, 1);
  }

  lemma DivAtLeast(a: nat, b: nat, k: nat)
    requires b > 0 && b * k <= a
    ensures a / b >= k
  {
    DivLow(a, b, 0);
    MulLess(b, k, a / b + 1);
  }

  lemma DivLess(a: nat, b: nat, k: nat)
    requires b > 0 && a < b * k
    ensures a / b < k
  {
    DivLow(a, b, a / b);
    MulLess(b, a / b, k);
  }

  lemma DivLessIff(a: nat, b: nat, k: nat)
    requires b > 0
    ensures a / b < k <==> a < b * k
  {
    if a < b * k {
      DivLess(a, b, k);
    }
    if a / b < k {
      DivLow(a, b, a / b);
      MulMono(b, a / b + 1, k);
    }
  }
}
