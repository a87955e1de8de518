/** The number-theoretic transform as evaluation at the d odd powers of a 2d-th root of unity, in any
    slot order.  What the transform does with automorphisms and shifts follows from that alone. */
module Ntt {
  import opened Modular
  import opened Ring
  import opened RingLaws
  import opened Galois

  /** A transform of degree d modulo q: slot s evaluates at w^es[s]; at[k] is the slot of w^(2k+1). */
  datatype Slots = Slots(q: int, d: nat, w: int, es: seq<int>, at: seq<nat>) {
    predicate Ok() {
      && q > 0 && d > 0 && PowerOfTwo(d) && (Pow(w, d) + 1) % q == 0
      && |es| == d && |at| == d
      && (forall s :: 0 <= s < d ==> OddBelow(es[s], d) && at[(es[s] - 1) / 2] == s)
      && (forall k :: 0 <= k < d ==> at[k] < d && es[at[k]] == 2 * k + 1)
    }
  }

  predicate OddBelow(e: int, d: nat) {
    0 < e < 2 * d && e % 2 == 1
  }

  lemma SlotsSizes(N: Slots)
    requires N.Ok()
    ensures N.q > 0 && N.d > 0 && PowerOfTwo(N.d) && |N.es| == N.d && |N.at| == N.d
  {
  }

  lemma SlotOdd(N: Slots, s: nat)
    requires N.Ok() && s < N.d
    ensures |N.es| == N.d && OddBelow(N.es[s], N.d) && N.es[s] % 2 == 1 && 0 < N.es[s] < 2 * N.d
  {
  }

  // ----- powers of the root -----

  /** w^e mod q, for any integer e. */
  function Root(N: Slots, e: int): (r: int)
    requires N.q > 0 && N.d > 0
    ensures 0 <= r < N.q
  {
    Pow(N.w, e % (2 * N.d)) % N.q
  }

  lemma RootPeriod(N: Slots, e: int, k: int)
    requires N.q > 0 && N.d > 0
    ensures Root(N, e + k * (2 * N.d)) == Root(N, e)
  {
    ModMultiple(e, k, 2 * N.d);
  }

  lemma MinusOneSquared(x: int, q: int)
    requires q > 0 && (x + 1) % q == 0
    ensures (x * x) % q == 1 % q
  {
    DivMod(x + 1, q);
    var k := (x + 1) / q;
    assert x * x == 1 + (k * q - 2) * k * q;
    ModMultiple(1, (k * q - 2) * k, q);
  }

  lemma WholeTurn(N: Slots)
    requires N.Ok()
    ensures Pow(N.w, 2 * N.d) % N.q == 1 % N.q
  {
    hide Pow, PowerOfTwo;
    PowAdd(N.w, N.d, N.d);
    MinusOneSquared(Pow(N.w, N.d), N.q);
  }

  lemma ProductMod(x: int, y: int, q: int)
    requires q > 0
    ensures ((x % q) * (y % q)) % q == (x * y) % q
  {
    ModMul(x, y, q);
  }

  lemma TimesOne(x: int, y: int, q: int)
    requires q > 0 && y % q == 1 % q
    ensures (x * y) % q == x % q
  {
    MulRight(x, y, q);
    MulRight(x, 1, q);
  }

  /** w^e * w^f == w^(e+f). */
  lemma RootAdd(N: Slots, e: int, f: int)
    requires N.Ok()
    ensures N.q > 0 && N.d > 0 && (Root(N, e) * Root(N, f)) % N.q == Root(N, e + f)
  {
    hide Pow, PowerOfTwo;
    var n, q := 2 * N.d, N.q;
    var a, b := e % n, f % n;
    PowAdd(N.w, a, b);
    ProductMod(Pow(N.w, a), Pow(N.w, b), q);
    ModAdd(e, f, n);
    if a + b < n {
      ModSmall(a + b, n);
    } else {
      ModMultiple(a + b - n, 1, n);
      ModSmall(a + b - n, n);
      PowAdd(N.w, a + b - n, n);
      WholeTurn(N);
      TimesOne(Pow(N.w, a + b - n), Pow(N.w, n), q);
    }
  }

  lemma RootZero(N: Slots)
    requires N.Ok()
    ensures N.q > 0 && N.d > 0 && Root(N, 0) == 1 % N.q
  {
    ModSmall(0, 2 * N.d);
  }

  lemma MinusOneTimes(x: int, y: int, q: int)
    requires q > 0 && (y + 1) % q == 0
    ensures (x * (y % q)) % q == (-x) % q
  {
    DivMod(y + 1, q);
    var k := (y + 1) / q;
    MulRight(x, y, q);
    assert x * y == -x + (x * k) * q by {
      assert y == k * q - 1;
      assert x * (k * q) == (x * k) * q;
    }
    ModMultiple(-x, x * k, q);
  }

  /** w^(e+d) == -w^e. */
  lemma RootHalfTurn(N: Slots, e: int)
    requires N.Ok()
    ensures N.q > 0 && N.d > 0 && Root(N, e + N.d) == (-Root(N, e)) % N.q
  {
    hide Pow, PowerOfTwo;
    RootAdd(N, e, N.d);
    ModSmall(N.d, 2 * N.d);
    MinusOneTimes(Root(N, e), Pow(N.w, N.d), N.q);
  }

  /** w^(k e) is the k-th power of w^e: the slot really is a polynomial evaluation. */
  lemma {:induction false} RootPower(N: Slots, e: int, k: nat)
    requires N.Ok()
    ensures N.q > 0 && N.d > 0 && Root(N, k * e) == Pow(Root(N, e), k) % N.q
  {
    hide *;
    SlotsSizes(N);
    if k == 0 {
      RootZero(N);
      PowNil(Root(N, e));
    } else {
      RootPower(N, e, k - 1);
      PowStep(Root(N, e), k - 1);
      Distribute(k - 1, 1, e);
      RootAdd(N, e, (k - 1) * e);
      MulRight(Root(N, e), Pow(Root(N, e), k - 1), N.q);
    }
  }

  lemma PowNil(b: int)
    ensures Pow(b, 0) == 1
  {
  }

  lemma PowStep(b: int, k: nat)
    ensures Pow(b, k + 1) == b * Pow(b, k)
  {
  }

  // ----- evaluation -----

  /** p[0] + p[1] w^e + ... + p[n-1] w^((n-1)e), not yet reduced. */
  function EvalSum(N: Slots, p: Poly, e: int, n: nat): (r: int)
    requires N.q > 0 && N.d > 0 && n <= |p|
  {
    if n == 0 then 0 else EvalSum(N, p, e, n - 1) + p[n - 1] * Root(N, (n - 1) * e)
  }

  lemma EvalSumStep(N: Slots, p: Poly, e: int, n: nat)
    requires N.q > 0 && N.d > 0 && n < |p|
    ensures EvalSum(N, p, e, 0) == 0
    ensures EvalSum(N, p, e, n + 1) == EvalSum(N, p, e, n) + p[n] * Root(N, n * e)
  {
  }

  function At(N: Slots, p: Poly, e: int): (r: int)
    requires N.q > 0 && N.d > 0
    ensures 0 <= r < N.q
  {
    EvalSum(N, p, e, |p|) % N.q
  }

  /** The polynomial's value at x, by powers of x. */
  function Value(q: int, p: Poly, x: int, n: nat): (r: int)
    requires q > 0 && n <= |p|
  {
    if n == 0 then 0 else Value(q, p, x, n - 1) + p[n - 1] * Pow(x, n - 1)
  }

  /** Evaluation at exponent e is the value of the polynomial at w^e. */
  lemma {:induction false} AtIsValue(N: Slots, p: Poly, e: int, n: nat)
    requires N.Ok() && n <= |p|
    ensures N.q > 0 && N.d > 0 && EvalSum(N, p, e, n) % N.q == Value(N.q, p, Root(N, e), n) % N.q
  {
    hide *;
    SlotsSizes(N);
    if n == 0 {
      ValueNil(N.q, p, Root(N, e));
      EvalNil(N, p, e);
    } else {
      var m := n - 1;
      AtIsValue(N, p, e, m);
      EvalSumStep(N, p, e, m);
      ValueStep(N.q, p, Root(N, e), m);
      RootPower(N, e, m);
      MulRight(p[m], Pow(Root(N, e), m), N.q);
      ModSum(EvalSum(N, p, e, m), Value(N.q, p, Root(N, e), m), p[m] * Root(N, m * e), p[m] * Pow(Root(N, e), m), N.q);
    }
  }

  lemma ValueNil(q: int, p: Poly, x: int)
    requires q > 0
    ensures Value(q, p, x, 0) == 0
  {
  }

  lemma ValueStep(q: int, p: Poly, x: int, n: nat)
    requires q > 0 && n < |p|
    ensures Value(q, p, x, n + 1) == Value(q, p, x, n) + p[n] * Pow(x, n)
  {
  }

  lemma EvalNil(N: Slots, p: Poly, e: int)
    requires N.q > 0 && N.d > 0
    ensures EvalSum(N, p, e, 0) == 0
  {
  }

  lemma LinearTerm(x: int, y: int, r: int, a: int, b: int, c: int, v: int, z: int, q: int)
    requires q > 0 && z % q == (x + c * y) % q && r % q == (a + c * b) % q
    ensures (z + r * v) % q == (x + a * v + c * (y + b * v)) % q
  {
    var u := a + c * b;
    MulLeft(r, v, q);
    MulLeft(u, v, q);
    ModSum(z, x + c * y, r * v, u * v, q);
    assert x + c * y + u * v == x + a * v + c * (y + b * v) by {
      assert u * v == a * v + (c * b) * v;
      assert (c * b) * v == c * (b * v);
      assert c * (y + b * v) == c * y + c * (b * v);
    }
  }

  /** Evaluation is linear. */
  lemma {:induction false} EvalLinear(N: Slots, a: Poly, b: Poly, r: Poly, c: int, e: int, n: nat)
    requires N.q > 0 && N.d > 0 && |a| == |b| == |r| && n <= |r|
    requires forall i :: 0 <= i < n ==> r[i] % N.q == (a[i] + c * b[i]) % N.q
    ensures EvalSum(N, r, e, n) % N.q == (EvalSum(N, a, e, n) + c * EvalSum(N, b, e, n)) % N.q
  {
    hide *;
    if n == 0 {
      EvalNil(N, a, e);
      EvalNil(N, b, e);
      EvalNil(N, r, e);
    } else {
      var m := n - 1;
      EvalLinear(N, a, b, r, c, e, m);
      EvalSumStep(N, a, e, m);
      EvalSumStep(N, b, e, m);
      EvalSumStep(N, r, e, m);
      LinearTerm(EvalSum(N, a, e, m), EvalSum(N, b, e, m), r[m], a[m], b[m], c, Root(N, m * e),
                 EvalSum(N, r, e, m), N.q);
    }
  }

  lemma AddTwice(x: int, y: int, q: int)
    requires q > 0
    ensures ((x + y) % q) % q == (x + 1 * y) % q
  {
    ModAdd(x + y, 0, q);
  }

  lemma AtAdd(N: Slots, a: Poly, b: Poly, e: int)
    requires N.q > 0 && N.d > 0 && |a| == |b|
    ensures At(N, Add(N.q, a, b), e) == (At(N, a, e) + At(N, b, e)) % N.q
  {
    hide EvalSum, Root;
    forall i | 0 <= i < |a|
      ensures Add(N.q, a, b)[i] % N.q == (a[i] + 1 * b[i]) % N.q
    {
      AddTwice(a[i], b[i], N.q);
    }
    EvalLinear(N, a, b, Add(N.q, a, b), 1, e, |a|);
    ModAdd(EvalSum(N, a, e, |a|), EvalSum(N, b, e, |a|), N.q);
  }

  lemma ScaleTwice(c: int, x: int, q: int)
    requires q > 0
    ensures ((c * x) % q) % q == (0 + c * x) % q
  {
    ModAdd(c * x, 0, q);
  }

  lemma {:induction false} EvalZero(N: Slots, d: nat, e: int, n: nat)
    requires N.q > 0 && N.d > 0 && n <= d
    ensures EvalSum(N, Zero(d), e, n) == 0
  {
    if n > 0 {
      EvalZero(N, d, e, n - 1);
    }
  }

  lemma AtZero(N: Slots, d: nat, e: int)
    requires N.q > 0 && N.d > 0
    ensures At(N, Zero(d), e) == 0
  {
    EvalZero(N, d, e, d);
    ModSmall(0, N.q);
  }

  lemma AtScale(N: Slots, c: int, a: Poly, e: int)
    requires N.q > 0 && N.d > 0
    ensures At(N, Scale(N.q, c, a), e) == (c * At(N, a, e)) % N.q
  {
    hide EvalSum, Root;
    forall i | 0 <= i < |a|
      ensures Scale(N.q, c, a)[i] % N.q == (Zero(|a|)[i] + c * a[i]) % N.q
    {
      ScaleTwice(c, a[i], N.q);
    }
    EvalLinear(N, Zero(|a|), a, Scale(N.q, c, a), c, e, |a|);
    EvalZero(N, |a|, e, |a|);
    MulRight(c, EvalSum(N, a, e, |a|), N.q);
  }

  // ----- monomials, shifts, automorphisms -----

  /** A polynomial with one non-zero coefficient. */
  lemma {:induction false} EvalSingle(N: Slots, p: Poly, j: nat, e: int, n: nat)
    requires N.q > 0 && N.d > 0 && j < |p| && n <= |p|
    requires forall i :: 0 <= i < |p| && i != j ==> p[i] == 0
    ensures EvalSum(N, p, e, n) == if j < n then p[j] * Root(N, j * e) else 0
  {
    hide *;
    if n == 0 {
      EvalNil(N, p, e);
    } else {
      EvalSingle(N, p, j, e, n - 1);
      EvalSumStep(N, p, e, n - 1);
    }
  }

  lemma MonoEntries(q: int, d: nat, k: int, i: nat)
    requires q > 0 && i < d
    ensures Mono(q, d, k)[i] == if i == SlotOf(d, k) then SignOf(d, k) % q else 0
  {
    MonoExt(d, k, i);
    ModSmall(0, q);
  }

  lemma SignTimes(sign: int, x: int, q: int)
    requires q > 0 && 0 <= x < q && (sign == 1 || sign == -1)
    ensures ((sign % q) * x) % q == if sign == 1 then x else (-x) % q
  {
    MulLeft(sign, x, q);
    ModSmall(x, q);
  }

  /** k*e falls in the slot's exponent, or half a turn past it, according to the sign. */
  lemma SlotExponent(d: nat, k: int, e: int) returns (m: int)
    requires d > 0 && e % 2 == 1
    ensures SignOf(d, k) == 1 ==> SlotOf(d, k) * e == k * e + m * (2 * d)
    ensures SignOf(d, k) == -1 ==> SlotOf(d, k) * e + d == k * e + m * (2 * d)
    ensures SignOf(d, k) == 1 || SignOf(d, k) == -1
  {
    var n := 2 * d;
    var u, r := k / n, k % n;
    DivMod(k, n);
    if r < d {
      m := -u * e;
      assert r * e == (k - u * n) * e;
      TurnsEven(k, u, e, n);
    } else {
      var h := e / 2;
      m := -u * e - h;
      TurnsOdd(k, u, e, h, d);
    }
  }

  lemma TurnsEven(k: int, u: int, e: int, n: int)
    ensures (k - u * n) * e == k * e + (-u * e) * n
  {
    Distribute(k, u * n, e);
    assert (u * n) * e == (u * e) * n;
  }

  lemma TurnsOdd(k: int, u: int, e: int, h: int, d: int)
    requires e == 2 * h + 1
    ensures (k - u * (2 * d) - d) * e + d == k * e + (-u * e - h) * (2 * d)
  {
    var n := 2 * d;
    TurnsEven(k, u, e, n);
    Distribute(k - u * n, d, e);
    Distribute(-u * e, h, n);
    assert d * e == h * n + d;
  }

  /** X^k evaluates to w^(ke) at every odd e. */
  lemma AtMono(N: Slots, k: int, e: int)
    requires N.Ok() && e % 2 == 1
    ensures N.q > 0 && N.d > 0 && At(N, Mono(N.q, N.d, k), e) == Root(N, k * e)
  {
    hide *;
    SlotsSizes(N);
    var p, j := Mono(N.q, N.d, k), SlotOf(N.d, k);
    forall i | 0 <= i < N.d
      ensures p[i] == if i == j then SignOf(N.d, k) % N.q else 0
    {
      MonoEntries(N.q, N.d, k, i);
    }
    EvalSingle(N, p, j, e, N.d);
    AtIs(N, p, e);
    var m := SlotExponent(N.d, k, e);
    SignTimes(SignOf(N.d, k), Root(N, j * e), N.q);
    RootPeriod(N, k * e, m);
    if SignOf(N.d, k) == -1 {
      RootHalfTurn(N, j * e);
    }
  }

  lemma AtIs(N: Slots, p: Poly, e: int)
    requires N.q > 0 && N.d > 0
    ensures At(N, p, e) == EvalSum(N, p, e, |p|) % N.q
  {
  }

  /** A combination of polynomials whose values are c * w^(i f) evaluates to c times p at f. */
  lemma {:induction false} AtCombination(N: Slots, cs: seq<int>, ps: seq<Poly>, e: int, c: int, f: int, n: nat)
    requires N.q > 0 && N.d > 0 && n <= |cs| && n <= |ps|
    requires forall i :: 0 <= i < n ==> |ps[i]| == N.d && At(N, ps[i], e) == (c * Root(N, i * f)) % N.q
    ensures At(N, Comb(N.q, N.d, cs, ps, n), e) == (c * EvalSum(N, cs, f, n)) % N.q
  {
    hide *;
    if n == 0 {
      CombNil(N.q, N.d, cs, ps);
      AtZero(N, N.d, e);
      EvalNil(N, cs, f);
      ModSmall(0, N.q);
    } else {
      var m := n - 1;
      AtCombination(N, cs, ps, e, c, f, m);
      CombStep(N.q, N.d, cs, ps, m);
      AtAdd(N, Comb(N.q, N.d, cs, ps, m), Scale(N.q, cs[m], ps[m]), e);
      AtScale(N, cs[m], ps[m], e);
      EvalSumStep(N, cs, f, m);
      CombinationStep(c, EvalSum(N, cs, f, m), cs[m], Root(N, m * f), N.q);
    }
  }

  lemma CombinationStep(c: int, x: int, y: int, v: int, q: int)
    requires q > 0
    ensures ((c * x) % q + (y * ((c * v) % q)) % q) % q == (c * (x + y * v)) % q
  {
    MulRight(y, c * v, q);
    ModAdd(c * x, y * (c * v), q);
    assert c * (x + y * v) == c * x + y * (c * v) by {
      assert y * (c * v) == c * (y * v);
    }
  }

  /** tau_t(p) at w^e is p at w^(te). */
  lemma AtTau(N: Slots, p: Poly, t: int, e: int)
    requires N.Ok() && |p| == N.d && e % 2 == 1
    ensures N.q > 0 && N.d > 0 && At(N, Tau(N.q, p, t), e) == At(N, p, t * e)
  {
    hide *;
    hide Mono, Powers, Tau;
    SlotsSizes(N);
    var ps := Powers(N.q, N.d, t);
    forall i | 0 <= i < N.d
      ensures At(N, ps[i], e) == (1 * Root(N, i * (t * e))) % N.q
    {
      PowersAt(N.q, N.d, t, i);
      AtMono(N, i * t, e);
      assert (i * t) * e == i * (t * e);
      ModSmall(Root(N, i * (t * e)), N.q);
    }
    AtCombination(N, p, ps, e, 1, t * e, N.d);
    TauIs(N.q, p, t);
    AtIs(N, p, t * e);
  }

  lemma ShiftIsComb(q: int, p: Poly, k: int)
    requires q > 0 && |p| > 0 && Canon(q, p)
    ensures Shift(q, p, k) == Comb(q, |p|, p, ShiftedPowers(q, |p|, k), |p|)
  {
    hide Comb, Mono, Shift;
    var d := |p|;
    forall i | 0 <= i < d
      ensures ShiftedPowers(q, d, k)[i] == Shift(q, Powers(q, d, 1)[i], k)
    {
      PowersAt(q, d, 1, i);
      MonoShift(q, d, i, k);
    }
    Decompose(q, p);
    CombShift(q, d, k, p, Powers(q, d, 1), ShiftedPowers(q, d, k), d);
  }

  function ShiftedPowers(q: int, d: nat, k: int): (r: seq<Poly>)
    requires q > 0 && d > 0
    ensures |r| == d && forall i :: 0 <= i < d ==> |r[i]| == d && r[i] == Mono(q, d, i + k)
  {
    seq(d, i => ShiftedPower(q, d, k, i))
  }

  function ShiftedPower(q: int, d: nat, k: int, i: int): (r: Poly)
    requires q > 0 && d > 0
    ensures |r| == d
  {
    Mono(q, d, i + k)
  }

  /** X^k * p at w^e is w^(ke) times p at w^e. */
  lemma AtShift(N: Slots, p: Poly, k: int, e: int)
    requires N.Ok() && |p| == N.d && Canon(N.q, p) && e % 2 == 1
    ensures N.q > 0 && N.d > 0 && At(N, Shift(N.q, p, k), e) == (Root(N, k * e) * At(N, p, e)) % N.q
  {
    hide *;
    hide Mono, Powers, ShiftedPowers;
    SlotsSizes(N);
    var ps := ShiftedPowers(N.q, N.d, k);
    forall i | 0 <= i < N.d
      ensures At(N, ps[i], e) == (Root(N, k * e) * Root(N, i * e)) % N.q
    {
      AtMono(N, i + k, e);
      Distribute(i, k, e);
      RootAdd(N, k * e, i * e);
    }
    ShiftIsComb(N.q, p, k);
    AtCombination(N, p, ps, e, Root(N, k * e), e, N.d);
    AtIs(N, p, e);
    MulRight(Root(N, k * e), EvalSum(N, p, e, N.d), N.q);
  }

  /** Only the exponent modulo 2d matters. */
  lemma {:induction false} EvalPeriod(N: Slots, p: Poly, e: int, k: int, n: nat)
    requires N.q > 0 && N.d > 0 && n <= |p|
    ensures EvalSum(N, p, e + k * (2 * N.d), n) == EvalSum(N, p, e, n)
  {
    hide *;
    var f := e + k * (2 * N.d);
    if n == 0 {
      EvalNil(N, p, e);
      EvalNil(N, p, f);
    } else {
      var m := n - 1;
      EvalPeriod(N, p, e, k, m);
      EvalSumStep(N, p, e, m);
      EvalSumStep(N, p, f, m);
      RootPeriod(N, m * e, m * k);
      PeriodTimes(m, e, k, 2 * N.d);
    }
  }

  lemma PeriodTimes(m: int, e: int, k: int, n: int)
    ensures m * (e + k * n) == m * e + (m * k) * n
  {
    assert m * (k * n) == (m * k) * n;
  }

  lemma AtMod(N: Slots, p: Poly, e: int)
    requires N.q > 0 && N.d > 0
    ensures At(N, p, e % (2 * N.d)) == At(N, p, e)
  {
    hide *;
    DivMod(e, 2 * N.d);
    EvalPeriod(N, p, e % (2 * N.d), e / (2 * N.d), |p|);
    AtIs(N, p, e);
    AtIs(N, p, e % (2 * N.d));
  }

  /** ntt_forward. */
  function Forward(N: Slots, p: Poly): (r: seq<int>)
    requires N.Ok() && |p| == N.d
    ensures |r| == N.d && N.q > 0 && N.d > 0
    ensures forall s :: 0 <= s < N.d ==> r[s] == At(N, p, N.es[s])
    ensures Canon(N.q, r)
  {
    seq(N.d, s requires 0 <= s < N.d => At(N, p, N.es[s]))
  }
}
