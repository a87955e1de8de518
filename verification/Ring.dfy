/** The ring R_q = Z_q[X]/(X^d + 1), on coefficient sequences of length d.

    Every operation reduces its result into [0, q), as the program's words are.  A product is the
    combination of the shifts X^i * b with the coefficients of a, so ring laws follow from how
    combinations behave under linear maps and no double sum is ever rearranged. */
module Ring {
  import opened Modular

  type Poly = seq<int>

  predicate Canon(q: int, p: Poly) {
    forall i :: 0 <= i < |p| ==> 0 <= p[i] < q
  }

  /** A reduced ring element of degree d. */
  predicate Elem(q: int, d: nat, p: Poly) {
    |p| == d && Canon(q, p)
  }

  predicate Elems(q: int, d: nat, ps: seq<Poly>) {
    forall i :: 0 <= i < |ps| ==> Elem(q, d, ps[i])
  }

  function Zero(d: nat): (r: Poly)
    ensures |r| == d
  {
    seq(d, _ => 0)
  }

  function Add(q: int, a: Poly, b: Poly): (r: Poly)
    requires q > 0 && |a| == |b|
    ensures |r| == |a| && Canon(q, r)
  {
    seq(|a|, i requires 0 <= i < |a| => (a[i] + b[i]) % q)
  }

  function Scale(q: int, c: int, a: Poly): (r: Poly)
    requires q > 0
    ensures |r| == |a| && Canon(q, r)
  {
    seq(|a|, i requires 0 <= i < |a| => (c * a[i]) % q)
  }

  /** Coefficient of X^n when a is extended to all integers by a(n + d) = -a(n). */
  function Ext(a: Poly, n: int): (r: int)
    requires |a| > 0
  {
    var m := n % (2 * |a|);
    if m < |a| then a[m] else -a[m - |a|]
  }

  /** X^k * a, for any integer k. */
  function Shift(q: int, a: Poly, k: int): (r: Poly)
    requires q > 0 && |a| > 0
    ensures |r| == |a| && Canon(q, r)
  {
    seq(|a|, i requires 0 <= i < |a| => Ext(a, i - k) % q)
  }

  function Unit(d: nat): (r: Poly)
    requires d > 0
    ensures |r| == d
  {
    seq(d, i => if i == 0 then 1 else 0)
  }

  /** X^k as a ring element. */
  function Mono(q: int, d: nat, k: int): (r: Poly)
    requires q > 0 && d > 0
    ensures |r| == d && Canon(q, r)
  {
    Shift(q, Unit(d), k)
  }

  /** cs[0] * ps[0] + ... + cs[n-1] * ps[n-1]. */
  function Comb(q: int, d: nat, cs: seq<int>, ps: seq<Poly>, n: nat): (r: Poly)
    requires q > 0 && n <= |cs| && n <= |ps|
    requires forall i :: 0 <= i < n ==> |ps[i]| == d
    ensures |r| == d && Canon(q, r)
  {
    if n == 0 then Zero(d)
    else Add(q, Comb(q, d, cs, ps, n - 1), Scale(q, cs[n - 1], ps[n - 1]))
  }

  /** The d shifts b, X * b, ..., X^(d-1) * b. */
  function Shifts(q: int, b: Poly): (r: seq<Poly>)
    requires q > 0 && |b| > 0
    ensures |r| == |b| && forall i :: 0 <= i < |b| ==> |r[i]| == |b| && Canon(q, r[i])
  {
    seq(|b|, i => Shift(q, b, i))
  }

  function Mul(q: int, a: Poly, b: Poly): (r: Poly)
    requires q > 0 && |a| == |b| > 0
    ensures |r| == |a| && Canon(q, r)
  {
    Comb(q, |a|, a, Shifts(q, b), |a|)
  }

  /** 1, X^t, X^(2t), ..., X^((d-1)t). */
  function Powers(q: int, d: nat, t: int): (r: seq<Poly>)
    requires q > 0 && d > 0
    ensures |r| == d && forall i :: 0 <= i < d ==> |r[i]| == d && Canon(q, r[i])
  {
    seq(d, i => Mono(q, d, i * t))
  }

  /** The automorphism X -> X^t. */
  function Tau(q: int, a: Poly, t: int): (r: Poly)
    requires q > 0 && |a| > 0
    ensures |r| == |a| && Canon(q, r)
  {
    Comb(q, |a|, a, Powers(q, |a|, t), |a|)
  }

  // ----- addition and scaling -----

  lemma AddComm(q: int, a: Poly, b: Poly)
    requires q > 0 && |a| == |b|
    ensures Add(q, a, b) == Add(q, b, a)
  {
  }

  lemma AddAssoc(q: int, a: Poly, b: Poly, c: Poly)
    requires q > 0 && |a| == |b| == |c|
    ensures Add(q, Add(q, a, b), c) == Add(q, a, Add(q, b, c))
  {
    forall i | 0 <= i < |a|
      ensures Add(q, Add(q, a, b), c)[i] == Add(q, a, Add(q, b, c))[i]
    {
      ModAdd(a[i] + b[i], c[i], q);
      ModAdd(a[i], b[i] + c[i], q);
    }
  }

  lemma AddZero(q: int, a: Poly)
    requires q > 0 && Canon(q, a)
    ensures Add(q, a, Zero(|a|)) == a && Add(q, Zero(|a|), a) == a
  {
    forall i | 0 <= i < |a|
      ensures a[i] % q == a[i]
    {
      ModSmall(a[i], q);
    }
  }

  lemma ZeroCanon(q: int, d: nat)
    requires q > 0
    ensures Canon(q, Zero(d))
  {
  }

  /** (a + b) + (c + e) == (a + c) + (b + e). */
  lemma AddSwap(q: int, a: Poly, b: Poly, c: Poly, e: Poly)
    requires q > 0 && |a| == |b| == |c| == |e|
    ensures Add(q, Add(q, a, b), Add(q, c, e)) == Add(q, Add(q, a, c), Add(q, b, e))
  {
    AddAssoc(q, a, b, Add(q, c, e));
    AddAssoc(q, b, c, e);
    AddComm(q, b, c);
    AddAssoc(q, c, b, e);
    AddAssoc(q, a, c, Add(q, b, e));
  }

  lemma ScaleAdd(q: int, c: int, a: Poly, b: Poly)
    requires q > 0 && |a| == |b|
    ensures Scale(q, c, Add(q, a, b)) == Add(q, Scale(q, c, a), Scale(q, c, b))
  {
    forall i | 0 <= i < |a|
      ensures Scale(q, c, Add(q, a, b))[i] == Add(q, Scale(q, c, a), Scale(q, c, b))[i]
    {
      ModDistribute(c, a[i], b[i], q);
    }
  }

  lemma ScaleSum(q: int, c: int, e: int, a: Poly)
    requires q > 0
    ensures Scale(q, c + e, a) == Add(q, Scale(q, c, a), Scale(q, e, a))
  {
    forall i | 0 <= i < |a|
      ensures Scale(q, c + e, a)[i] == Add(q, Scale(q, c, a), Scale(q, e, a))[i]
    {
      ModDistributeSum(c, e, a[i], q);
    }
  }

  lemma ScaleScale(q: int, c: int, e: int, a: Poly)
    requires q > 0
    ensures Scale(q, c, Scale(q, e, a)) == Scale(q, (c * e) % q, a) == Scale(q, c * e, a)
  {
    forall i | 0 <= i < |a|
      ensures (c * ((e * a[i]) % q)) % q == ((c * e) * a[i]) % q
      ensures (((c * e) % q) * a[i]) % q == ((c * e) * a[i]) % q
    {
      ModMul(c, e * a[i], q);
      assert c * (e * a[i]) == (c * e) * a[i];
      ModMul(c * e, a[i], q);
    }
  }

  lemma ScaleMod(q: int, c: int, a: Poly)
    requires q > 0
    ensures Scale(q, c % q, a) == Scale(q, c, a)
  {
    forall i | 0 <= i < |a|
      ensures (c % q * a[i]) % q == (c * a[i]) % q
    {
      ModMul(c, a[i], q);
    }
  }

  lemma ScaleOne(q: int, a: Poly)
    requires q > 0 && Canon(q, a)
    ensures Scale(q, 1, a) == a
  {
    forall i | 0 <= i < |a|
      ensures (1 * a[i]) % q == a[i]
    {
      ModSmall(a[i], q);
    }
  }

  lemma ScaleZero(q: int, c: int, d: nat)
    requires q > 0
    ensures Scale(q, c, Zero(d)) == Zero(d)
  {
    ModSmall(0, q);
    assert c * 0 == 0;
  }

  lemma ScaleByZero(q: int, a: Poly)
    requires q > 0
    ensures Scale(q, 0, a) == Zero(|a|)
  {
    ModSmall(0, q);
  }

  // ----- shifts -----

  lemma ExtPeriod(a: Poly, n: int, k: int)
    requires |a| > 0
    ensures Ext(a, n + k * (2 * |a|)) == Ext(a, n)
  {
    ModMultiple(n, k, 2 * |a|);
  }

  lemma ExtAnti(a: Poly, n: int)
    requires |a| > 0
    ensures Ext(a, n + |a|) == -Ext(a, n)
  {
    var d := |a|;
    var m := n % (2 * d);
    ModAdd(n, d, 2 * d);
    if m < d {
      ModSmall(m + d, 2 * d);
    } else {
      ModMultiple(m - d, 1, 2 * d);
      ModSmall(m - d, 2 * d);
    }
  }

  lemma ExtInside(a: Poly, i: int)
    requires 0 <= i < |a|
    ensures Ext(a, i) == a[i]
  {
    ModSmall(i, 2 * |a|);
  }

  /** Extending X^k * a is extending a and moving the index, up to multiples of q. */
  lemma ExtShift(q: int, a: Poly, k: int, n: int)
    requires q > 0 && |a| > 0
    ensures Ext(Shift(q, a, k), n) % q == Ext(a, n - k) % q
  {
    var d, s := |a|, Shift(q, a, k);
    var m, e := n % (2 * d), n / (2 * d);
    DivMod(n, 2 * d);
    ExtPeriod(a, m - k, e);
    assert n - k == m - k + e * (2 * d);
    if m < d {
      ModAdd(Ext(a, m - k), 0, q);
    } else {
      ExtAnti(a, m - d - k);
      SubRight(0, Ext(a, m - d - k), q);
    }
  }

  lemma ShiftShift(q: int, a: Poly, j: int, k: int)
    requires q > 0 && |a| > 0
    ensures Shift(q, Shift(q, a, j), k) == Shift(q, a, j + k)
  {
    forall i | 0 <= i < |a|
      ensures Shift(q, Shift(q, a, j), k)[i] == Shift(q, a, j + k)[i]
    {
      ExtShift(q, a, j, i - k);
      assert i - k - j == i - (j + k);
    }
  }

  lemma ShiftZero(q: int, a: Poly)
    requires q > 0 && |a| > 0 && Canon(q, a)
    ensures Shift(q, a, 0) == a
  {
    forall i | 0 <= i < |a|
      ensures Shift(q, a, 0)[i] == a[i]
    {
      ExtInside(a, i);
      ModSmall(a[i], q);
    }
  }

  /** X^(k + 2dm) == X^k. */
  lemma ShiftPeriod(q: int, a: Poly, k: int, m: int)
    requires q > 0 && |a| > 0
    ensures Shift(q, a, k + m * (2 * |a|)) == Shift(q, a, k)
  {
    forall i | 0 <= i < |a|
      ensures Shift(q, a, k + m * (2 * |a|))[i] == Shift(q, a, k)[i]
    {
      ExtPeriod(a, i - k, -m);
      assert i - (k + m * (2 * |a|)) == i - k + (-m) * (2 * |a|);
    }
  }

  /** X^d == -1. */
  lemma ShiftHalfTurn(q: int, a: Poly, k: int)
    requires q > 0 && |a| > 0
    ensures Shift(q, a, k + |a|) == Scale(q, -1, Shift(q, a, k))
  {
    forall i | 0 <= i < |a|
      ensures Shift(q, a, k + |a|)[i] == Scale(q, -1, Shift(q, a, k))[i]
    {
      ExtAnti(a, i - (k + |a|));
      ModMul(-1, Ext(a, i - k), q);
    }
  }

  lemma ExtLinear(a: Poly, b: Poly, r: Poly, c: int, q: int, n: int)
    requires q > 0 && |a| == |b| == |r| > 0
    requires forall i :: 0 <= i < |a| ==> r[i] == (a[i] + c * b[i]) % q
    ensures Ext(r, n) % q == (Ext(a, n) + c * Ext(b, n)) % q
  {
    var d := |a|;
    var m := n % (2 * d);
    if m < d {
      ReduceTwice(a[m] + c * b[m], q);
    } else {
      NegateLinear(a[m - d], b[m - d], c, q);
    }
  }

  lemma NegateLinear(x: int, y: int, c: int, q: int)
    requires q > 0
    ensures (-((x + c * y) % q)) % q == (-x + c * -y) % q
  {
    var z := x + c * y;
    SubRight(0, z, q);
    assert -z == -x + c * -y;
  }

  lemma ShiftAdd(q: int, a: Poly, b: Poly, k: int)
    requires q > 0 && |a| == |b| > 0
    ensures Shift(q, Add(q, a, b), k) == Add(q, Shift(q, a, k), Shift(q, b, k))
  {
    forall i | 0 <= i < |a|
      ensures Shift(q, Add(q, a, b), k)[i] == Add(q, Shift(q, a, k), Shift(q, b, k))[i]
    {
      ExtLinear(a, b, Add(q, a, b), 1, q, i - k);
      ModAdd(Ext(a, i - k), Ext(b, i - k), q);
    }
  }

  lemma ShiftScale(q: int, c: int, a: Poly, k: int)
    requires q > 0 && |a| > 0
    ensures Shift(q, Scale(q, c, a), k) == Scale(q, c, Shift(q, a, k))
  {
    forall i | 0 <= i < |a|
      ensures Shift(q, Scale(q, c, a), k)[i] == Scale(q, c, Shift(q, a, k))[i]
    {
      ExtLinear(Zero(|a|), a, Scale(q, c, a), c, q, i - k);
      ModMul(c, Ext(a, i - k), q);
    }
  }

  lemma ShiftOfZero(q: int, d: nat, k: int)
    requires q > 0 && d > 0
    ensures Shift(q, Zero(d), k) == Zero(d)
  {
    ModSmall(0, q);
    forall i | 0 <= i < d
      ensures Shift(q, Zero(d), k)[i] == 0
    {
      assert Ext(Zero(d), i - k) == 0;
    }
  }

  lemma MonoShift(q: int, d: nat, j: int, k: int)
    requires q > 0 && d > 0
    ensures Shift(q, Mono(q, d, j), k) == Mono(q, d, j + k)
  {
    ShiftShift(q, Unit(d), j, k);
  }

  // ----- entries -----

  lemma AddEntry(q: int, x: Poly, y: Poly, i: nat)
    requires q > 0 && |x| == |y| && i < |x|
    ensures Add(q, x, y)[i] == (x[i] + y[i]) % q
  {
  }

  lemma ZeroEntry(d: nat, i: nat)
    requires i < d
    ensures Zero(d)[i] == 0
  {
  }

  lemma CanonAt(q: int, p: Poly, i: nat)
    requires Canon(q, p) && i < |p|
    ensures 0 <= p[i] < q
  {
  }

  lemma ShiftsAt(q: int, b: Poly, i: nat)
    requires q > 0 && i < |b|
    ensures Shifts(q, b)[i] == Shift(q, b, i)
  {
  }

  lemma MulIs(q: int, a: Poly, b: Poly)
    requires q > 0 && |a| == |b| > 0
    ensures Mul(q, a, b) == Comb(q, |a|, a, Shifts(q, b), |a|)
  {
  }

  lemma TauIs(q: int, p: Poly, t: int)
    requires q > 0 && |p| > 0
    ensures Tau(q, p, t) == Comb(q, |p|, p, Powers(q, |p|, t), |p|)
  {
  }
}
