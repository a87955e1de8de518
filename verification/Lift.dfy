/** Exact negacyclic products from residues modulo auxiliary primes (reinspiring/src/lift_ntt.rs). */
module Lift {
  import opened Modular
  import opened MachineWords
  import opened Ring
  import opened RingLaws
  import opened Galois
  import opened RingFft

  // ----- exact integer coefficients -----

  /** Coefficient k of the integer product a * b modulo X^d + 1, over the first n terms of a. */
  function Conv(a: Poly, b: Poly, k: int, n: nat): (r: int)
    requires |b| > 0 && n <= |a|
  {
    if n == 0 then 0 else Conv(a, b, k, n - 1) + a[n - 1] * Ext(b, k - (n - 1))
  }

  lemma ConvStep(a: Poly, b: Poly, k: int, n: nat)
    requires |b| > 0 && n < |a|
    ensures Conv(a, b, k, 0) == 0
    ensures Conv(a, b, k, n + 1) == Conv(a, b, k, n) + a[n] * Ext(b, k - n)
  {
  }

  lemma ConvNil(a: Poly, b: Poly, k: int)
    requires |b| > 0
    ensures Conv(a, b, k, 0) == 0
  {
  }

  /** Two polynomials agree modulo p. */
  predicate Agree(p: int, a: Poly, b: Poly) {
    p > 0 && |a| == |b| && forall i :: 0 <= i < |a| ==> a[i] % p == b[i] % p
  }

  lemma ExtAgree(p: int, a: Poly, b: Poly, n: int)
    requires Agree(p, a, b) && |a| > 0
    ensures Ext(a, n) % p == Ext(b, n) % p
  {
    var m := n % (2 * |a|);
    if m >= |a| {
      SubRight(0, a[m - |a|], p);
      SubRight(0, b[m - |a|], p);
    }
  }

  lemma TermAgree(x: int, y: int, a: int, b: int, u: int, v: int, p: int)
    requires p > 0 && x % p == y % p && a % p == b % p && u % p == v % p
    ensures (x + a * u) % p == (y + b * v) % p
  {
    ModMul(a, u, p);
    ModMul(b, v, p);
    ModSum(x, y, a * u, b * v, p);
  }

  /** The integer product modulo p depends on the operands modulo p only. */
  lemma {:induction false} ConvAgree(p: int, a: Poly, b: Poly, c: Poly, e: Poly, k: int, n: nat)
    requires Agree(p, a, c) && Agree(p, b, e) && |b| > 0 && n <= |a|
    ensures Conv(a, b, k, n) % p == Conv(c, e, k, n) % p
  {
    hide *;
    AgreeSizes(p, a, c);
    AgreeSizes(p, b, e);
    if n == 0 {
      ConvNil(a, b, k);
      ConvNil(c, e, k);
    } else {
      var m := n - 1;
      ConvAgree(p, a, b, c, e, k, m);
      ConvStep(a, b, k, m);
      ConvStep(c, e, k, m);
      ExtAgree(p, b, e, k - m);
      TermAgree(Conv(a, b, k, m), Conv(c, e, k, m), a[m], c[m], Ext(b, k - m), Ext(e, k - m), p);
    }
  }

  lemma AgreeSizes(p: int, a: Poly, b: Poly)
    requires Agree(p, a, b)
    ensures p > 0 && |a| == |b| && forall i :: 0 <= i < |a| ==> a[i] % p == b[i] % p
  {
  }

  lemma {:induction false} CoeffSumIsConv(q: int, a: Poly, b: Poly, k: nat, n: nat)
    requires q > 0 && |a| == |b| && k < |b| && n <= |a|
    ensures CoeffSum(a, Shifts(q, b), k, n) % q == Conv(a, b, k, n) % q
  {
    hide *;
    if n == 0 {
      ConvNil(a, b, k);
      CoeffSumNil(a, Shifts(q, b), k);
    } else {
      var m := n - 1;
      CoeffSumIsConv(q, a, b, k, m);
      ConvStep(a, b, k, m);
      CoeffSumStep(a, Shifts(q, b), k, m);
      ShiftsEntry(q, b, m, k);
      ReduceTwice(Ext(b, k - m), q);
      TermAgree(CoeffSum(a, Shifts(q, b), k, m), Conv(a, b, k, m), a[m], a[m], Shifts(q, b)[m][k], Ext(b, k - m), q);
    }
  }

  lemma ShiftsEntry(q: int, b: Poly, i: nat, k: nat)
    requires q > 0 && i < |b| && k < |b|
    ensures Shifts(q, b)[i][k] == Ext(b, k - i) % q
  {
  }

  /** Products in any Z_p[X]/(X^d + 1) are the integer product reduced modulo p. */
  lemma MulIsConv(p: int, a: Poly, b: Poly, c: Poly, e: Poly, k: nat)
    requires Agree(p, a, c) && Agree(p, b, e) && |a| == |b| && k < |a|
    ensures p > 0 && |c| == |e| == |a| && Mul(p, c, e)[k] == Conv(a, b, k, |a|) % p
  {
    hide *;
    AgreeSizes(p, a, c);
    AgreeSizes(p, b, e);
    MulCoeff(p, c, e, k);
    CoeffSumIsConv(p, c, e, k, |a|);
    ConvAgree(p, a, b, c, e, k, |a|);
  }

  function Abs(x: int): (r: nat) {
    if x < 0 then -x else x
  }

  predicate Bounded(p: Poly, B: int) {
    forall i :: 0 <= i < |p| ==> Abs(p[i]) <= B
  }

  lemma AbsProduct(x: int, y: int, A: int, B: int)
    requires Abs(x) <= A && Abs(y) <= B
    ensures Abs(x * y) <= A * B
  {
    assert Abs(x * y) == Abs(x) * Abs(y);
    assert Abs(x) * Abs(y) <= A * Abs(y);
    assert A * Abs(y) <= A * B;
  }

  /** Every coefficient of the integer product is at most n A B in magnitude. */
  lemma {:induction false} ConvBound(a: Poly, b: Poly, A: int, B: int, k: int, n: nat)
    requires |b| > 0 && n <= |a| && Bounded(a, A) && Bounded(b, B)
    ensures Abs(Conv(a, b, k, n)) <= n * (A * B)
  {
    hide *;
    if n == 0 {
      ConvNil(a, b, k);
      AbsSum(0, 0);
    } else {
      var m := n - 1;
      ConvBound(a, b, A, B, k, m);
      ConvStep(a, b, k, m);
      BoundedAt(a, A, m);
      ExtBounded(b, B, k - m);
      AbsProduct(a[m], Ext(b, k - m), A, B);
      AbsSum(Conv(a, b, k, m), a[m] * Ext(b, k - m));
      Distribute(m, 1, A * B);
    }
  }

  lemma AbsSum(x: int, y: int)
    ensures Abs(x + y) <= Abs(x) + Abs(y) && Abs(0) == 0
  {
  }

  lemma BoundedAt(p: Poly, B: int, i: nat)
    requires Bounded(p, B) && i < |p|
    ensures Abs(p[i]) <= B
  {
  }

  lemma ExtBounded(p: Poly, B: int, n: int)
    requires Bounded(p, B) && |p| > 0
    ensures Abs(Ext(p, n)) <= B
  {
  }

  // ----- centred representatives -----

  function Centered(x: int, q: int): (r: int)
    requires q > 0
  {
    if x > q / 2 then x - q else x
  }

  lemma CenteredAgrees(x: int, q: int)
    requires q > 0 && 0 <= x < q
    ensures Centered(x, q) % q == x % q && Abs(Centered(x, q)) <= q / 2
  {
    ModMultiple(x, -1, q);
  }

  function Center(q: int, a: Poly): (r: Poly)
    requires q > 0
    ensures |r| == |a| && forall i :: 0 <= i < |a| ==> r[i] == Centered(a[i], q)
  {
    seq(|a|, i requires 0 <= i < |a| => Centered(a[i], q))
  }

  lemma CenterAgrees(q: int, a: Poly)
    requires q > 0 && Canon(q, a)
    ensures Agree(q, Center(q, a), a) && Bounded(Center(q, a), q / 2)
  {
    forall i | 0 <= i < |a|
      ensures Center(q, a)[i] % q == a[i] % q && Abs(Center(q, a)[i]) <= q / 2
    {
      CenteredAgrees(a[i], q);
    }
  }

  function Residues(p: int, a: Poly): (r: Poly)
    requires p > 0
    ensures |r| == |a| && Canon(p, r) && forall i :: 0 <= i < |a| ==> r[i] == a[i] % p
  {
    seq(|a|, i requires 0 <= i < |a| => a[i] % p)
  }

  lemma ResiduesAgree(p: int, a: Poly)
    requires p > 0
    ensures Agree(p, a, Residues(p, a))
  {
    forall i | 0 <= i < |a|
      ensures a[i] % p == (a[i] % p) % p
    {
      ReduceTwice(a[i], p);
    }
  }

  // ----- the primes -----

  const P0: int := 4398046568449
  const P1: int := 4398046666753
  const P2: int := 4398046781441
  const INV0: int := 3298579739309
  const INV1: int := 3177758297238

  function Prime(j: nat): (p: int)
    requires j < 3
    ensures p > 0
  {
    if j == 0 then P0 else if j == 1 then P1 else P2
  }

  /** The product of the first n primes. */
  function Capacity(n: nat): (r: int)
    requires 1 <= n <= 3
    ensures r > 0
  {
    if n == 1 then P0 else if n == 2 then P0 * P1 else P0 * P1 * P2
  }

  function InverseAt(j: nat): (r: int)
    requires 1 <= j < 3
  {
    if j == 1 then INV0 else INV1
  }

  /** The Garner inverses exist, so constructing the context never fails to invert. */
  lemma InversesHold(j: nat)
    requires 1 <= j < 3
    ensures Inverses(Prime(j), Capacity(j), InverseAt(j)) && Capacity(j + 1) == Capacity(j) * Prime(j)
  {
    assert P0 * INV0 == 3298579665580 * P1 + 1;
    RemainderUnique(P0 * INV0, 3298579665580, 1, P1);
    assert P0 * P1 * INV1 == 13975928610077197310913685 * P2 + 1;
    RemainderUnique(P0 * P1 * INV1, 13975928610077197310913685, 1, P2);
    ModSmall(1, P1);
    ModSmall(1, P2);
  }

  /** Inverses below the modulus are unique, so these are the values any inversion routine returns. */
  lemma InverseUnique(p: int, m: int, x: int, y: int)
    requires Inverses(p, m, x) && Inverses(p, m, y) && 0 <= x < p && 0 <= y < p
    ensures x == y
  {
    MulLeft(m * x, y, p);
    MulLeft(m * y, x, p);
    MulLeft(1, y, p);
    MulLeft(1, x, p);
    assert (m * x) * y == (m * y) * x;
    ModSmall(x, p);
    ModSmall(y, p);
  }

  predicate ParamsOk(d: nat, q: int) {
    2 <= d <= 4096 && PowerOfTwo(d) && 2 <= q <= 0x100_0000_0000_0000
  }

  /** Three primes exceed d q^2 for every supported degree and modulus, and fit a signed 128-bit word. */
  lemma EnoughCapacity(d: nat, q: int)
    requires ParamsOk(d, q)
    ensures d * q * q < Capacity(3) < 0x8000_0000_0000_0000_0000_0000_0000_0000
    ensures Capacity(2) == 4398046568449 * 4398046666753 && Capacity(3) == 4398046568449 * 4398046666753 * 4398046781441
  {
    hide PowerOfTwo;
    ProductGrows(d, q, 4096, 0x100_0000_0000_0000);
    ProductGrows(d * q, q, 4096 * 0x100_0000_0000_0000, 0x100_0000_0000_0000);
  }

  lemma ProductGrows(x: int, y: int, X: int, Y: int)
    requires 0 <= x <= X && 0 <= y <= Y
    ensures 0 <= x * y <= X * Y
  {
    assert x * y <= X * y;
    assert X * y <= X * Y;
  }

  // ----- signed reconstruction -----

  /** One Garner step extends v mod m to v mod (m p). */
  lemma GarnerStep(m: int, p: int, inv: int, x: int, v: int, r: int)
    requires m > 0 && p > 0 && Inverses(p, m, inv) && x == v % m && r == v % p
    ensures x + m * ((((r + p - x % p) % p) * inv) % p) == v % (m * p)
  {
    DivMod(v, m);
    var t := v / m;
    var delta := (r + p - x % p) % p;
    DeltaIs(m, p, x, v, r, t);
    QuotientMod(m, p, inv, t, delta);
    DivMod(t, p);
    Recombine(v, t, t / p, m, p, x, t % p);
    RemainderUnique(v, t / p, x + m * (t % p), m * p);
  }

  lemma Recombine(v: int, t: int, u: int, m: int, p: int, x: int, s: int)
    requires v == t * m + x && t == u * p + s && 0 <= x < m && 0 <= s < p
    ensures v == u * (m * p) + (x + m * s) && 0 <= x + m * s < m * p
  {
    Distribute(u * p, s, m);
    assert u * p * m == u * (m * p);
    ProductGrows(m, s, m, p - 1);
    Distribute(p, 1, m);
  }

  lemma DeltaIs(m: int, p: int, x: int, v: int, r: int, t: int)
    requires m > 0 && p > 0 && v == t * m + x && r == v % p
    ensures (r + p - x % p) % p == (m * t) % p
  {
    var y := r + p;
    SubRight(y, x, p);
    ModMultiple(r - x, 1, p);
    ModAdd(v, -x, p);
    assert v - x == m * t by {
      assert t * m == m * t;
    }
    assert (r + p - x % p) % p == (y - x) % p;
    assert y - x == (r - x) + 1 * p;
    assert (r - x) % p == (r + -x) % p;
  }

  lemma QuotientMod(m: int, p: int, inv: int, t: int, delta: int)
    requires p > 0 && Inverses(p, m, inv) && delta == (m * t) % p
    ensures (delta * inv) % p == t % p
  {
    MulLeft(m * t, inv, p);
    assert (m * t) * inv == (m * inv) * t by {
      assert (m * t) * inv == m * (t * inv);
      assert m * (inv * t) == (m * inv) * t;
      assert t * inv == inv * t;
    }
    MulLeft(m * inv, t, p);
    MulLeft(1, t, p);
  }

  /** v mod M read as a signed value is v itself, when 2 |v| < M. */
  lemma SignedFrom(v: int, M: int)
    requires M > 0 && 2 * Abs(v) < M
    ensures (if v % M > M / 2 then v % M - M else v % M) == v
  {
    if v >= 0 {
      ModSmall(v, M);
    } else {
      ModMultiple(v, 1, M);
      ModSmall(v + M, M);
    }
  }

  /** Garner reconstruction over two or three primes. */
  method Garner(residues: seq<int>, ghost v: int) returns (signed: int)
    requires 1 <= |residues| <= 3 && 2 * Abs(v) < Capacity(|residues|)
    requires forall j :: 0 <= j < |residues| ==> residues[j] == v % Prime(j)
    ensures signed == v
  {
    hide Abs;
    var x, m := residues[0], P0;
    for j := 1 to |residues|
      invariant m == Capacity(j) && x == v % m
    {
      var p := Prime(j);
      InversesHold(j);
      GarnerStep(m, p, InverseAt(j), x, v, residues[j]);
      var delta := (residues[j] + p - x % p) % p;
      x := x + m * ((delta * InverseAt(j)) % p);
      m := m * p;
    }
    SignedFrom(v, m);
    signed := if x > m / 2 then x - m else x;
  }

  /** A signed value as an unsigned 64-bit word, masked to a power-of-two modulus. */
  lemma MaskedSigned(v: int, q: int)
    requires q > 0 && PowerOfTwo(q) && q <= WORD
    ensures Wrap(v) % q == v % q
  {
    WordPower();
    PowerDivides(q, WORD);
    WrapMod(v, q);
  }

  /** reconstruct_two: one conditional subtraction, one product, a mask or a remainder. */
  function ReconstructTwo(q: int, r0: int, r1: int): (r: int)
    requires q > 0
  {
    var delta := r1 + P1 - r0;
    var reduced := if delta >= P1 then delta - P1 else delta;
    var x := r0 + P0 * ((reduced * INV0) % P1);
    var signed := if x > P0 * P1 / 2 then x - P0 * P1 else x;
    if PowerOfTwo(q) then Wrap(signed) % q else signed % q
  }

  lemma ReconstructsTwo(q: int, v: int)
    requires 0 < q <= WORD && 2 * Abs(v) < Capacity(2)
    ensures ReconstructTwo(q, v % P0, v % P1) == v % q
  {
    hide Abs, PowerOfTwo, Wrap;
    var r0, r1 := v % P0, v % P1;
    InversesHold(1);
    GarnerStep(P0, P1, INV0, r0, v, r1);
    ModSmall(r0, P1);
    var delta := r1 + P1 - r0;
    if delta >= P1 {
      ModMultiple(delta - P1, 1, P1);
      ModSmall(delta - P1, P1);
    } else {
      ModSmall(delta, P1);
    }
    SignedFrom(v, P0 * P1);
    if PowerOfTwo(q) {
      MaskedSigned(v, q);
    }
  }

  // ----- sums of limbs -----

  /** Coefficient k of the integer sum of the first n products. */
  function ConvSum(d: nat, xs: seq<Poly>, ys: seq<Poly>, k: int, n: nat): (r: int)
    requires d > 0 && Sized(d, xs) && Sized(d, ys) && n <= |xs| && n <= |ys|
  {
    if n == 0 then 0 else ConvSum(d, xs, ys, k, n - 1) + Conv(xs[n - 1], ys[n - 1], k, d)
  }

  lemma ConvSumStep(d: nat, xs: seq<Poly>, ys: seq<Poly>, k: int, n: nat)
    requires d > 0 && Sized(d, xs) && Sized(d, ys) && n < |xs| && n < |ys|
    ensures |xs[n]| == d && |ys[n]| == d
    ensures ConvSum(d, xs, ys, k, n + 1) == ConvSum(d, xs, ys, k, n) + Conv(xs[n], ys[n], k, d)
  {
  }

  lemma ConvSumNil(d: nat, xs: seq<Poly>, ys: seq<Poly>, k: int)
    requires d > 0 && Sized(d, xs) && Sized(d, ys)
    ensures ConvSum(d, xs, ys, k, 0) == 0
  {
  }

  /** Sums of ring products modulo p are the integer sum modulo p. */
  lemma {:induction false} DotIsConv(p: int, d: nat, xs: seq<Poly>, ys: seq<Poly>, us: seq<Poly>, vs: seq<Poly>, k: nat, n: nat)
    requires p > 0 && k < d && Sized(d, xs) && Sized(d, ys) && Sized(d, us) && Sized(d, vs)
    requires n <= |xs| && n <= |ys| && n <= |us| && n <= |vs|
    requires forall i :: 0 <= i < n ==> Agree(p, xs[i], us[i]) && Agree(p, ys[i], vs[i])
    requires forall i :: 0 <= i < n ==> |us[i]| == d && |vs[i]| == d
    ensures Dot(p, d, us, vs, n)[k] == ConvSum(d, xs, ys, k, n) % p
  {
    hide *;
    if n == 0 {
      DotNil(p, d, us, vs);
      ConvSumNil(d, xs, ys, k);
      ZeroEntry(d, k);
      ModSmall(0, p);
    } else {
      var m := n - 1;
      DotIsConv(p, d, xs, ys, us, vs, k, m);
      DotStep(p, d, us, vs, m);
      ConvSumStep(d, xs, ys, k, m);
      MulIsConv(p, xs[m], ys[m], us[m], vs[m], k);
      AddEntry(p, Dot(p, d, us, vs, m), Mul(p, us[m], vs[m]), k);
      ModAdd(ConvSum(d, xs, ys, k, m), Conv(xs[m], ys[m], k, d), p);
    }
  }

  /** sum of the operands' bounds. */
  function BoundSum(bs: seq<int>, n: nat): (r: int)
    requires n <= |bs|
  {
    if n == 0 then 0 else BoundSum(bs, n - 1) + bs[n - 1]
  }

  lemma BoundSumStep(bs: seq<int>, n: nat)
    requires n < |bs|
    ensures BoundSum(bs, 0) == 0 && BoundSum(bs, n + 1) == BoundSum(bs, n) + bs[n]
  {
  }

  lemma BoundNil(bs: seq<int>)
    ensures BoundSum(bs, 0) == 0
  {
  }

  /** The whole sum is at most d B (A_1 + ... + A_n) in magnitude. */
  lemma {:induction false} ConvSumBound(d: nat, xs: seq<Poly>, ys: seq<Poly>, As: seq<int>, B: int, k: int, n: nat)
    requires d > 0 && Sized(d, xs) && Sized(d, ys) && n <= |xs| && n <= |ys| && n <= |As|
    requires forall i :: 0 <= i < n ==> Bounded(xs[i], As[i]) && Bounded(ys[i], B)
    ensures Abs(ConvSum(d, xs, ys, k, n)) <= d * (BoundSum(As, n) * B)
  {
    hide *;
    if n == 0 {
      ConvSumNil(d, xs, ys, k);
      BoundNil(As);
      AbsSum(0, 0);
    } else {
      var m := n - 1;
      ConvSumBound(d, xs, ys, As, B, k, m);
      ConvSumStep(d, xs, ys, k, m);
      BoundSumStep(As, m);
      ConvBound(xs[m], ys[m], As[m], B, k, d);
      AbsSum(ConvSum(d, xs, ys, k, m), Conv(xs[m], ys[m], k, d));
      SplitBound(d, BoundSum(As, m), As[m], B);
    }
  }

  lemma SplitBound(d: int, x: int, y: int, B: int)
    ensures d * ((x + y) * B) == d * (x * B) + d * (y * B)
  {
    Distribute(x, y, B);
  }
}
