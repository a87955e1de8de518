/** Parameter validation and the inverse of the degree (inspiring/src/params.rs). */
module Params {
  import opened Wrappers
  import opened Modular
  import opened Galois

  /** Some integer divides both a and b only if it is +-1. */
  ghost predicate Coprime(a: int, b: int) {
    forall g: int :: g > 1 ==> a % g != 0 || b % g != 0
  }

  lemma DividesCombination(g: int, x: int, y: int, k: int)
    requires g > 0 && x % g == 0 && y % g == 0
    ensures (x - k * y) % g == 0
  {
    DivMod(x, g);
    DivMod(y, g);
    var m, n := x / g, y / g;
    assert x - k * y == 0 + (m - k * n) * g;
    ModMultiple(0, m - k * n, g);
    ModSmall(0, g);
  }

  lemma EuclidStep(m: int, a: int, r: int, s: int, r0: int, s0: int, k: int)
    requires m > 0 && r % m == (s * a) % m && r0 % m == (s0 * a) % m
    ensures (r0 - k * r) % m == ((s0 - k * s) * a) % m
  {
    var x := Congruent(r, s * a, m);
    var y := Congruent(r0, s0 * a, m);
    assert r0 - k * r == (s0 - k * s) * a + (y - k * x) * m;
    ModMultiple((s0 - k * s) * a, y - k * x, m);
  }

  /** Every common divisor of m and a divides both remainders, and conversely. */
  ghost predicate SameDivisors(m: int, a: int, x: int, y: int) {
    forall g: int :: g > 0 ==> ((m % g == 0 && a % g == 0) <==> (x % g == 0 && y % g == 0))
  }

  lemma EuclidDivisors(m: int, a: int, x: int, y: int, k: int)
    requires SameDivisors(m, a, x, y)
    ensures SameDivisors(m, a, y, x - k * y)
  {
    forall g: int | g > 0
      ensures (m % g == 0 && a % g == 0) <==> (y % g == 0 && (x - k * y) % g == 0)
    {
      if x % g == 0 && y % g == 0 {
        DividesCombination(g, x, y, k);
      }
      if y % g == 0 && (x - k * y) % g == 0 {
        DividesCombination(g, x - k * y, y, -k);
        assert x - k * y - (-k) * y == x;
      }
    }
  }

  /** Extended Euclid: an inverse when a and the modulus are coprime, nothing otherwise. */
  method ModInverse(a: nat, modulus: nat) returns (r: Option<int>)
    requires modulus > 0
    ensures r.Some? ==> 0 <= r.value < modulus && (a * r.value) % modulus == 1 % modulus
    ensures r.Some? <==> Coprime(modulus, a % modulus)
  {
    var oldR, rem := modulus, a % modulus;
    var oldS, s := 0, 1;
    ModMultiple(0, 1, modulus);
    ModSmall(0, modulus);
    assert 0 * (a % modulus) == 0;
    while rem != 0
      invariant 0 <= rem < oldR
      invariant oldR % modulus == (oldS * (a % modulus)) % modulus
      invariant rem % modulus == (s * (a % modulus)) % modulus
      invariant SameDivisors(modulus, a % modulus, oldR, rem)
      decreases rem
    {
      var quotient := oldR / rem;
      DivMod(oldR, rem);
      EuclidStep(modulus, a % modulus, rem, s, oldR, oldS, quotient);
      EuclidDivisors(modulus, a % modulus, oldR, rem, quotient);
      oldR, rem := rem, oldR - quotient * rem;
      oldS, s := s, oldS - quotient * s;
    }
    GcdFromDivisors(modulus, a % modulus, oldR);
    if oldR == 1 {
      var inv := oldS % modulus;
      InverseFromBezout(a, modulus, oldS);
      r := Some(inv);
    } else {
      r := None;
    }
  }

  lemma GcdFromDivisors(m: int, a: int, g: int)
    requires g > 0 && SameDivisors(m, a, g, 0)
    ensures g == 1 <==> Coprime(m, a)
  {
    if g == 1 {
      forall h: int | h > 1
        ensures m % h != 0 || a % h != 0
      {
        ModSmall(1, h);
        ModSmall(0, h);
      }
    } else {
      ModMultiple(0, 1, g);
      ModSmall(0, g);
      assert m % g == 0 && a % g == 0;
    }
  }

  lemma InverseFromBezout(a: int, m: int, s: int)
    requires m > 0 && 1 % m == (s * (a % m)) % m
    ensures (a * (s % m)) % m == 1 % m
  {
    MulRight(s, a, m);
    MulRight(a, s, m);
    assert s * a == a * s;
  }

  /** A power of two and an odd number are coprime. */
  lemma {:induction false} PowerOfTwoCoprime(q: int, d: int)
    requires q > 0 && q % 2 == 1 && PowerOfTwo(d)
    ensures Coprime(q, d % q)
  {
    forall g: int | g > 1
      ensures q % g != 0 || (d % q) % g != 0
    {
      if q % g == 0 && (d % q) % g == 0 {
        DivMod(d, q);
        DividesCombination(g, d % q, q, -(d / q));
        assert d % q - (-(d / q)) * q == d;
        OddDivisor(q, g);
        OddDivisorOfPower(d, g);
      }
    }
  }

  lemma OddDivisor(q: int, g: int)
    requires g > 1 && q % g == 0 && q % 2 == 1
    ensures g % 2 == 1
  {
    DivMod(q, g);
    ProductParity(q / g, g);
  }

  lemma ProductParity(x: int, y: int)
    ensures (x * y) % 2 == 1 ==> y % 2 == 1
  {
    if y % 2 == 0 {
      var h := y / 2;
      assert x * y == 2 * (x * h);
    }
  }

  lemma {:induction false} OddDivisorOfPower(d: int, g: int)
    requires PowerOfTwo(d) && g > 1 && g % 2 == 1
    ensures d % g != 0
    decreases d
  {
    if d == 1 {
      ModSmall(1, g);
    } else if d % g == 0 {
      // g divides d == 2 (d/2) and g is odd, so g divides d/2
      DivMod(d, g);
      var k, h := d / g, g / 2;
      assert d == k * (2 * h + 1);
      assert k % 2 == 0 by {
        assert k == d - 2 * (k * h);
      }
      assert d / 2 == 0 + (k / 2) * g;
      ModMultiple(0, k / 2, g);
      ModSmall(0, g);
      OddDivisorOfPower(d / 2, g);
    }
  }

  /** A validated parameter set. */
  datatype RlweParams = RlweParams(d: nat, q: nat, p: nat, bits: nat, ell: nat, delta: nat, dInv: nat) {
    function Z(): int {
      Pow(2, bits)
    }

    ghost predicate Valid() {
      && d >= 2 && PowerOfTwo(d)
      && q >= 3 && q % 2 == 1
      && 2 <= p <= q && delta == q / p
      && 1 <= bits <= 63 && ell >= 1 && q <= Pow(Z(), ell)
      && dInv < q && Inverses(q, d, dInv)
    }
  }

  /** RlweParams::new.  sigma is the noise width when it is finite; spiralBits is the digit width the polynomial
      library reports for (q, ell).  On a valid degree and modulus the inverse always exists. */
  method New(d: nat, q: nat, p: nat, sigma: Option<real>, bits: nat, ell: nat, spiralBits: nat) returns (r: Result<RlweParams>)
    ensures r.Ok? <==> (d >= 2 && PowerOfTwo(d) && q >= 3 && q % 2 == 1 && 2 <= p <= q && sigma.Some? && sigma.value > 0.0
                        && 1 <= bits <= 63 && ell >= 1 && q <= Pow(Pow(2, bits), ell) && spiralBits == bits)
    ensures r.Ok? ==> r.value.Valid() && r.value.d == d && r.value.q == q && r.value.p == p
                      && r.value.bits == bits && r.value.ell == ell
    ensures r.Ok? ==> p > 0 && q > 0 && r.value.delta == q / p && r.value.dInv < q && Inverses(q, d, r.value.dInv)
  {
    if d < 2 || !PowerOfTwo(d) {
      return Err(InvalidParams);
    }
    if q < 3 || q % 2 == 0 {
      return Err(InvalidParams);
    }
    if p < 2 || p > q {
      return Err(InvalidParams);
    }
    if sigma.None? || sigma.value <= 0.0 {
      return Err(InvalidParams);
    }
    if bits == 0 || bits >= 64 {
      return Err(InvalidParams);
    }
    if ell == 0 {
      return Err(InvalidParams);
    }
    var coverage := Pow(Pow(2, bits), ell);
    if coverage < q {
      return Err(InvalidParams);
    }
    var inv := ModInverse(d, q);
    PowerOfTwoCoprime(q, d);
    assert inv.Some?;  // so the program's missing-inverse error is never taken
    var dInv := inv.value;
    if spiralBits != bits {
      return Err(InvalidParams);
    }
    return Ok(RlweParams(d, q, p, bits, ell, q / p, dInv));
  }
}
