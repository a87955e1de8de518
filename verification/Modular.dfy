/** Facts about Euclidean remainders, shared by every other module. */
module Modular {

  lemma MulStrict(m: int, q: int)
    requires q > 0
    ensures m > 0 ==> m * q >= q
    ensures m < 0 ==> m * q <= -q
  {
  }

  lemma Distribute(x: int, y: int, q: int)
    ensures (x + y) * q == x * q + y * q
    ensures (x - y) * q == x * q - y * q
  {
  }

  lemma DivMod(x: int, q: int)
    requires q > 0
    ensures x == (x / q) * q + x % q && 0 <= x % q < q
  {
  }

  /** Quotient and remainder are unique. */
  lemma RemainderUnique(x: int, k: int, r: int, q: int)
    requires 0 <= r < q && x == k * q + r
    ensures x % q == r && x / q == k
  {
    var n, s := x / q, x % q;
    DivMod(x, q);
    assert n * q + s == k * q + r;
    UniqueQuotient(n, s, k, r, q);
  }

  lemma UniqueQuotient(n: int, s: int, k: int, r: int, q: int)
    requires 0 <= r < q && 0 <= s < q && n * q + s == k * q + r
    ensures n == k && s == r
  {
    Distribute(n, k, q);
    MulStrict(n - k, q);
  }

  lemma ModMultiple(x: int, k: int, q: int)
    requires q > 0
    ensures (x + k * q) % q == x % q
  {
    DivMod(x, q);
    Distribute(x / q, k, q);
    RemainderUnique(x + k * q, x / q + k, x % q, q);
  }

  lemma AddLeft(x: int, y: int, q: int)
    requires q > 0
    ensures (x % q + y) % q == (x + y) % q
  {
    DivMod(x, q);
    ModMultiple(x % q + y, x / q, q);
  }

  lemma ModAdd(x: int, y: int, q: int)
    requires q > 0
    ensures (x % q + y) % q == (x + y) % q
    ensures (x + y % q) % q == (x + y) % q
    ensures (x % q + y % q) % q == (x + y) % q
  {
    AddLeft(x, y, q);
    AddLeft(y, x, q);
    AddLeft(x, y % q, q);
  }

  lemma ModSum(x: int, y: int, u: int, v: int, q: int)
    requires q > 0 && x % q == y % q && u % q == v % q
    ensures (x + u) % q == (y + v) % q
  {
    ModAdd(x, u, q);
    ModAdd(y, v, q);
  }

  lemma SubRight(x: int, y: int, q: int)
    requires q > 0
    ensures (x - y % q) % q == (x - y) % q
  {
    DivMod(y, q);
    ModMultiple(x - y, y / q, q);
  }

  lemma MulLeft(x: int, y: int, q: int)
    requires q > 0
    ensures ((x % q) * y) % q == (x * y) % q
  {
    var n, r := x / q, x % q;
    DivMod(x, q);
    calc {
      x * y;
      (n * q + r) * y;
      n * q * y + r * y;
      r * y + (n * y) * q;
    }
    ModMultiple(r * y, n * y, q);
  }

  lemma MulRight(x: int, y: int, q: int)
    requires q > 0
    ensures (x * (y % q)) % q == (x * y) % q
  {
    MulLeft(y, x, q);
    assert (y % q) * x == x * (y % q);
  }

  lemma ModMul(x: int, y: int, q: int)
    requires q > 0
    ensures ((x % q) * y) % q == (x * y) % q
    ensures (x * (y % q)) % q == (x * y) % q
    ensures ((x % q) * (y % q)) % q == (x * y) % q
  {
    MulLeft(x, y, q);
    MulRight(x, y, q);
    MulLeft(x, y % q, q);
  }

  /** c (x + y) == c x + c y, each part reduced. */
  lemma ModDistribute(c: int, x: int, y: int, q: int)
    requires q > 0
    ensures (c * ((x + y) % q)) % q == ((c * x) % q + (c * y) % q) % q
  {
    var s, t := c * x, c * y;
    calc {
      (c * ((x + y) % q)) % q;
      { MulRight(c, x + y, q); }
      (c * (x + y)) % q;
      { Distribute(x, y, c); }
      (s + t) % q;
      { ModAdd(s, t, q); }
      (s % q + t % q) % q;
    }
  }

  lemma ModDistributeSum(c: int, e: int, x: int, q: int)
    requires q > 0
    ensures (((c + e) % q) * x) % q == ((c + e) * x) % q == ((c * x) % q + (e * x) % q) % q
  {
    var s, t := c * x, e * x;
    calc {
      ((c + e) * x) % q;
      { Distribute(c, e, x); }
      (s + t) % q;
      { ModAdd(s, t, q); }
      (s % q + t % q) % q;
    }
    MulLeft(c + e, x, q);
  }

  lemma ModSmall(x: int, q: int)
    requires 0 <= x < q
    ensures x % q == x
  {
    RemainderUnique(x, 0, x, q);
  }

  lemma ReduceTwice(x: int, q: int)
    requires q > 0
    ensures (x % q) % q == x % q
  {
    DivMod(x, q);
    ModSmall(x % q, q);
  }

  /** Congruent integers differ by a multiple of the modulus. */
  lemma Congruent(x: int, y: int, q: int) returns (k: int)
    requires q > 0 && x % q == y % q
    ensures x == y + k * q
  {
    DivMod(x, q);
    DivMod(y, q);
    Distribute(x / q, y / q, q);
    k := x / q - y / q;
  }

  /** x * y is 1 modulo q. */
  predicate Inverses(q: int, x: int, y: int) {
    q > 0 && (x * y) % q == 1 % q
  }

  /** x and y are congruent modulo q. */
  predicate Same(q: int, x: int, y: int) {
    q > 0 && x % q == y % q
  }

  lemma SameIs(q: int, x: int, y: int)
    ensures Same(q, x, y) <==> q > 0 && x % q == y % q
  {
  }

  lemma SameSum(q: int, x: int, y: int, u: int, v: int)
    requires Same(q, x, y) && Same(q, u, v)
    ensures Same(q, x + u, y + v)
  {
    ModSum(x, y, u, v, q);
  }

  lemma Commute(x: int, y: int)
    ensures x * y == y * x
  {
  }

  lemma ProductNonNegative(x: int, y: int)
    requires x >= 0 && y >= 0
    ensures x * y >= 0
  {
  }

  lemma ProductOrder(x: int, y: int, c: int)
    requires x <= y && c >= 0
    ensures x * c <= y * c
  {
  }

  /** One conditional subtraction reduces a sum of residues. */
  lemma ReduceSum(x: int, y: int, q: int)
    requires 0 <= x < q && 0 <= y < q
    ensures (x + y) % q == if x + y < q then x + y else x + y - q
  {
    if x + y < q {
      ModSmall(x + y, q);
    } else {
      ModMultiple(x + y - q, 1, q);
      ModSmall(x + y - q, q);
    }
  }

  // ----- counting -----

  /** The natural numbers below n. */
  function NumbersBelow(n: nat): (r: set<nat>)
    ensures forall v: nat :: v in r <==> v < n
  {
    if n == 0 then {} else NumbersBelow(n - 1) + {n - 1}
  }

  lemma {:induction false} NumbersBelowSize(n: nat)
    ensures |NumbersBelow(n)| == n
  {
    if n > 0 {
      NumbersBelowSize(n - 1);
    }
  }
}
