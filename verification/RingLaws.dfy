/** Ring and automorphism laws of R_q, each by pushing a linear map through a combination. */
module RingLaws {
  import opened Modular
  import opened Ring

  // ----- combinations -----

  lemma {:induction false} CombAddCoeffs(q: int, d: nat, cs: seq<int>, es: seq<int>, fs: seq<int>,
                                         ps: seq<Poly>, n: nat)
    requires q > 0 && n <= |cs| && n <= |es| && n <= |fs| && n <= |ps|
    requires forall i :: 0 <= i < n ==> |ps[i]| == d && fs[i] == (cs[i] + es[i]) % q
    ensures Comb(q, d, fs, ps, n) == Add(q, Comb(q, d, cs, ps, n), Comb(q, d, es, ps, n))
  {
    if n == 0 {
      AddZero(q, Zero(d));
    } else {
      var m := n - 1;
      CombAddCoeffs(q, d, cs, es, fs, ps, m);
      ScaleMod(q, cs[m] + es[m], ps[m]);
      ScaleSum(q, cs[m], es[m], ps[m]);
      AddSwap(q, Comb(q, d, cs, ps, m), Comb(q, d, es, ps, m), Scale(q, cs[m], ps[m]), Scale(q, es[m], ps[m]));
    }
  }

  lemma {:induction false} CombScaleCoeffs(q: int, d: nat, c: int, cs: seq<int>, es: seq<int>, ps: seq<Poly>, n: nat)
    requires q > 0 && n <= |cs| && n <= |es| && n <= |ps|
    requires forall i :: 0 <= i < n ==> |ps[i]| == d && es[i] == (c * cs[i]) % q
    ensures Comb(q, d, es, ps, n) == Scale(q, c, Comb(q, d, cs, ps, n))
  {
    if n == 0 {
      ScaleZero(q, c, d);
    } else {
      var m := n - 1;
      CombScaleCoeffs(q, d, c, cs, es, ps, m);
      ScaleMod(q, c * cs[m], ps[m]);
      ScaleScale(q, c, cs[m], ps[m]);
      ScaleAdd(q, c, Comb(q, d, cs, ps, m), Scale(q, cs[m], ps[m]));
    }
  }

  lemma {:induction false} CombAdd(q: int, d: nat, cs: seq<int>, ps: seq<Poly>, rs: seq<Poly>, ts: seq<Poly>, n: nat)
    requires q > 0 && n <= |cs| && n <= |ps| && n <= |rs| && n <= |ts|
    requires forall i :: 0 <= i < n ==> |ps[i]| == d && |rs[i]| == d && |ts[i]| == d && ts[i] == Add(q, ps[i], rs[i])
    ensures Comb(q, d, cs, ts, n) == Add(q, Comb(q, d, cs, ps, n), Comb(q, d, cs, rs, n))
  {
    if n == 0 {
      AddZero(q, Zero(d));
    } else {
      var m := n - 1;
      CombAdd(q, d, cs, ps, rs, ts, m);
      ScaleAdd(q, cs[m], ps[m], rs[m]);
      AddSwap(q, Comb(q, d, cs, ps, m), Comb(q, d, cs, rs, m), Scale(q, cs[m], ps[m]), Scale(q, cs[m], rs[m]));
    }
  }

  lemma {:induction false} CombScale(q: int, d: nat, c: int, cs: seq<int>, ps: seq<Poly>, rs: seq<Poly>, n: nat)
    requires q > 0 && n <= |cs| && n <= |ps| && n <= |rs|
    requires forall i :: 0 <= i < n ==> |ps[i]| == d && |rs[i]| == d && rs[i] == Scale(q, c, ps[i])
    ensures Comb(q, d, cs, rs, n) == Scale(q, c, Comb(q, d, cs, ps, n))
  {
    if n == 0 {
      ScaleZero(q, c, d);
    } else {
      var m := n - 1;
      CombScale(q, d, c, cs, ps, rs, m);
      ScaleScale(q, cs[m], c, ps[m]);
      ScaleScale(q, c, cs[m], ps[m]);
      assert c * cs[m] == cs[m] * c;
      ScaleAdd(q, c, Comb(q, d, cs, ps, m), Scale(q, cs[m], ps[m]));
    }
  }

  lemma {:induction false} CombShift(q: int, d: nat, k: int, cs: seq<int>, ps: seq<Poly>, rs: seq<Poly>, n: nat)
    requires q > 0 && d > 0 && n <= |cs| && n <= |ps| && n <= |rs|
    requires forall i :: 0 <= i < n ==> |ps[i]| == d && |rs[i]| == d && rs[i] == Shift(q, ps[i], k)
    ensures Comb(q, d, cs, rs, n) == Shift(q, Comb(q, d, cs, ps, n), k)
  {
    if n == 0 {
      ShiftOfZero(q, d, k);
    } else {
      var m := n - 1;
      CombShift(q, d, k, cs, ps, rs, m);
      ShiftScale(q, cs[m], ps[m], k);
      ShiftAdd(q, Comb(q, d, cs, ps, m), Scale(q, cs[m], ps[m]), k);
    }
  }

  lemma CombNil(q: int, d: nat, cs: seq<int>, ps: seq<Poly>)
    requires q > 0
    ensures Comb(q, d, cs, ps, 0) == Zero(d)
  {
  }

  lemma CombStep(q: int, d: nat, cs: seq<int>, ps: seq<Poly>, n: nat)
    requires q > 0 && n < |cs| && n < |ps|
    requires forall i :: 0 <= i <= n ==> |ps[i]| == d
    ensures Comb(q, d, cs, ps, n + 1) == Add(q, Comb(q, d, cs, ps, n), Scale(q, cs[n], ps[n]))
  {
  }

  /** Sum of cs[j] * ps[j][i] over j < n, as an integer. */
  function CoeffSum(cs: seq<int>, ps: seq<Poly>, i: nat, n: nat): (r: int)
    requires n <= |cs| && n <= |ps| && forall j :: 0 <= j < n ==> i < |ps[j]|
  {
    if n == 0 then 0 else CoeffSum(cs, ps, i, n - 1) + cs[n - 1] * ps[n - 1][i]
  }

  lemma AddScaledCoeff(q: int, a: Poly, c: int, b: Poly, i: nat, s: int)
    requires q > 0 && |a| == |b| && i < |a| && a[i] == s % q
    ensures Add(q, a, Scale(q, c, b))[i] == (s + c * b[i]) % q
  {
    ModAdd(s, c * b[i], q);
  }

  lemma {:induction false} CombCoeff(q: int, d: nat, cs: seq<int>, ps: seq<Poly>, i: nat, n: nat)
    requires q > 0 && n <= |cs| && n <= |ps| && i < d && forall j :: 0 <= j < n ==> |ps[j]| == d
    ensures Comb(q, d, cs, ps, n)[i] == CoeffSum(cs, ps, i, n) % q
  {
    if n == 0 {
      ModSmall(0, q);
    } else {
      CombCoeff(q, d, cs, ps, i, n - 1);
      AddScaledCoeff(q, Comb(q, d, cs, ps, n - 1), cs[n - 1], ps[n - 1], i, CoeffSum(cs, ps, i, n - 1));
    }
  }

  // ----- products -----

  lemma MulAddLeft(q: int, a: Poly, b: Poly, c: Poly)
    requires q > 0 && |a| == |b| == |c| > 0
    ensures Mul(q, Add(q, a, b), c) == Add(q, Mul(q, a, c), Mul(q, b, c))
  {
    CombAddCoeffs(q, |a|, a, b, Add(q, a, b), Shifts(q, c), |a|);
  }

  lemma MulScaleLeft(q: int, k: int, a: Poly, b: Poly)
    requires q > 0 && |a| == |b| > 0
    ensures Mul(q, Scale(q, k, a), b) == Scale(q, k, Mul(q, a, b))
  {
    CombScaleCoeffs(q, |a|, k, a, Scale(q, k, a), Shifts(q, b), |a|);
  }

  lemma MulShiftRight(q: int, a: Poly, b: Poly, k: int)
    requires q > 0 && |a| == |b| > 0
    ensures Mul(q, a, Shift(q, b, k)) == Shift(q, Mul(q, a, b), k)
  {
    forall i | 0 <= i < |a|
      ensures Shifts(q, Shift(q, b, k))[i] == Shift(q, Shifts(q, b)[i], k)
    {
      ShiftShift(q, b, k, i);
      ShiftShift(q, b, i, k);
    }
    CombShift(q, |a|, k, a, Shifts(q, b), Shifts(q, Shift(q, b, k)), |a|);
  }

  lemma MulAddRight(q: int, a: Poly, b: Poly, c: Poly)
    requires q > 0 && |a| == |b| == |c| > 0
    ensures Mul(q, a, Add(q, b, c)) == Add(q, Mul(q, a, b), Mul(q, a, c))
  {
    forall i | 0 <= i < |a|
      ensures Shifts(q, Add(q, b, c))[i] == Add(q, Shifts(q, b)[i], Shifts(q, c)[i])
    {
      ShiftAdd(q, b, c, i);
    }
    CombAdd(q, |a|, a, Shifts(q, b), Shifts(q, c), Shifts(q, Add(q, b, c)), |a|);
  }

  lemma MulScaleRight(q: int, k: int, a: Poly, b: Poly)
    requires q > 0 && |a| == |b| > 0
    ensures Mul(q, a, Scale(q, k, b)) == Scale(q, k, Mul(q, a, b))
  {
    forall i | 0 <= i < |a|
      ensures Shifts(q, Scale(q, k, b))[i] == Scale(q, k, Shifts(q, b)[i])
    {
      ShiftScale(q, k, b, i);
    }
    CombScale(q, |a|, k, a, Shifts(q, b), Shifts(q, Scale(q, k, b)), |a|);
  }

  lemma {:induction false} CombOfZeros(q: int, d: nat, cs: seq<int>, ps: seq<Poly>, n: nat)
    requires q > 0 && n <= |cs| && n <= |ps|
    requires forall i :: 0 <= i < n ==> |ps[i]| == d && ps[i] == Zero(d)
    ensures Comb(q, d, cs, ps, n) == Zero(d)
  {
    if n > 0 {
      CombOfZeros(q, d, cs, ps, n - 1);
      ScaleZero(q, cs[n - 1], d);
      AddZero(q, Zero(d));
    }
  }

  lemma MulZeroRight(q: int, a: Poly)
    requires q > 0 && |a| > 0
    ensures Mul(q, a, Zero(|a|)) == Zero(|a|)
  {
    forall i | 0 <= i < |a|
      ensures Shifts(q, Zero(|a|))[i] == Zero(|a|)
    {
      ShiftOfZero(q, |a|, i);
    }
    CombOfZeros(q, |a|, a, Shifts(q, Zero(|a|)), |a|);
  }

  lemma MulZeroLeft(q: int, a: Poly)
    requires q > 0 && |a| > 0
    ensures Mul(q, Zero(|a|), a) == Zero(|a|)
  {
    MulScaleLeft(q, 0, Zero(|a|), a);
    ScaleByZero(q, Zero(|a|));
    ScaleByZero(q, Mul(q, Zero(|a|), a));
  }

  lemma {:induction false} MulCombRight(q: int, d: nat, a: Poly, cs: seq<int>, ps: seq<Poly>, rs: seq<Poly>, n: nat)
    requires q > 0 && |a| == d > 0 && n <= |cs| && n <= |ps| && n <= |rs|
    requires forall i :: 0 <= i < n ==> |ps[i]| == d && |rs[i]| == d && rs[i] == Mul(q, a, ps[i])
    ensures Mul(q, a, Comb(q, d, cs, ps, n)) == Comb(q, d, cs, rs, n)
  {
    if n == 0 {
      MulZeroRight(q, a);
    } else {
      var m := n - 1;
      MulCombRight(q, d, a, cs, ps, rs, m);
      MulScaleRight(q, cs[m], a, ps[m]);
      MulAddRight(q, a, Comb(q, d, cs, ps, m), Scale(q, cs[m], ps[m]));
    }
  }

  lemma {:induction false} MulCombLeft(q: int, d: nat, cs: seq<int>, ps: seq<Poly>, a: Poly, rs: seq<Poly>, n: nat)
    requires q > 0 && |a| == d > 0 && n <= |cs| && n <= |ps| && n <= |rs|
    requires forall i :: 0 <= i < n ==> |ps[i]| == d && |rs[i]| == d && rs[i] == Mul(q, ps[i], a)
    ensures Mul(q, Comb(q, d, cs, ps, n), a) == Comb(q, d, cs, rs, n)
  {
    if n == 0 {
      MulZeroLeft(q, a);
    } else {
      var m := n - 1;
      MulCombLeft(q, d, cs, ps, a, rs, m);
      MulScaleLeft(q, cs[m], ps[m], a);
      MulAddLeft(q, Comb(q, d, cs, ps, m), Scale(q, cs[m], ps[m]), a);
    }
  }

  // ----- the monomial basis -----

  lemma PowersAt(q: int, d: nat, t: int, i: nat)
    requires q > 0 && i < d
    ensures Powers(q, d, t)[i] == Mono(q, d, i * t)
  {
  }

  lemma MonoCoeff(q: int, d: nat, k: nat, i: nat)
    requires q > 0 && k < d && i < d
    ensures Mono(q, d, k)[i] == if i == k then 1 % q else 0
  {
    ModSmall(0, q);
    if i >= k {
      ExtInside(Unit(d), i - k);
    } else {
      ExtAnti(Unit(d), i - k);
      ExtInside(Unit(d), i - k + d);
    }
  }

  lemma ScaledMonoCoeff(q: int, d: nat, c: int, k: nat, i: nat)
    requires 0 <= c < q && k < d && i < d
    ensures Scale(q, c, Mono(q, d, k))[i] == if i == k then c else 0
  {
    MonoCoeff(q, d, k, i);
    if i == k {
      MulRight(c, 1, q);
      ModSmall(c, q);
    } else {
      assert c * 0 == 0;
      ModSmall(0, q);
    }
  }

  lemma {:induction false} CombMonomials(q: int, a: Poly, n: nat, i: nat)
    requires q > 0 && Canon(q, a) && n <= |a| && i < |a|
    ensures Comb(q, |a|, a, Powers(q, |a|, 1), n)[i] == if i < n then a[i] else 0
  {
    if n > 0 {
      CombMonomials(q, a, n - 1, i);
      ScaledMonoCoeff(q, |a|, a[n - 1], n - 1, i);
      ModSmall(a[i], q);
      ModSmall(0, q);
    }
  }

  /** Every reduced element is the combination of 1, X, ..., X^(d-1) with its own coefficients. */
  lemma Decompose(q: int, a: Poly)
    requires q > 0 && |a| > 0 && Canon(q, a)
    ensures Comb(q, |a|, a, Powers(q, |a|, 1), |a|) == a
  {
    forall i | 0 <= i < |a|
      ensures Comb(q, |a|, a, Powers(q, |a|, 1), |a|)[i] == a[i]
    {
      CombMonomials(q, a, |a|, i);
    }
  }

  lemma MulMono(q: int, a: Poly, k: int)
    requires q > 0 && |a| > 0 && Canon(q, a)
    ensures Mul(q, a, Mono(q, |a|, k)) == Shift(q, a, k)
  {
    assert Shifts(q, Unit(|a|)) == Powers(q, |a|, 1);
    Decompose(q, a);
    MulShiftRight(q, a, Unit(|a|), k);
  }

  lemma MulComm(q: int, a: Poly, b: Poly)
    requires q > 0 && |a| == |b| > 0 && Canon(q, a) && Canon(q, b)
    ensures Mul(q, a, b) == Mul(q, b, a)
  {
    var d := |a|;
    forall i | 0 <= i < d
      ensures Shifts(q, a)[i] == Mul(q, a, Powers(q, d, 1)[i])
    {
      MulMono(q, a, i);
    }
    MulCombRight(q, d, a, b, Powers(q, d, 1), Shifts(q, a), d);
    Decompose(q, b);
  }

  lemma MulShiftLeft(q: int, a: Poly, b: Poly, k: int)
    requires q > 0 && |a| == |b| > 0 && Canon(q, a) && Canon(q, b)
    ensures Mul(q, Shift(q, a, k), b) == Shift(q, Mul(q, a, b), k)
  {
    MulComm(q, Shift(q, a, k), b);
    MulShiftRight(q, b, a, k);
    MulComm(q, a, b);
  }

  lemma MulAssoc(q: int, a: Poly, b: Poly, c: Poly)
    requires q > 0 && |a| == |b| == |c| > 0 && Canon(q, b) && Canon(q, c)
    ensures Mul(q, Mul(q, a, b), c) == Mul(q, a, Mul(q, b, c))
  {
    var d := |a|;
    forall i | 0 <= i < d
      ensures Shifts(q, Mul(q, b, c))[i] == Mul(q, Shifts(q, b)[i], c)
    {
      MulShiftLeft(q, b, c, i);
    }
    MulCombLeft(q, d, a, Shifts(q, b), c, Shifts(q, Mul(q, b, c)), d);
  }

  // ----- automorphisms -----

  lemma TauAdd(q: int, a: Poly, b: Poly, t: int)
    requires q > 0 && |a| == |b| > 0
    ensures Tau(q, Add(q, a, b), t) == Add(q, Tau(q, a, t), Tau(q, b, t))
  {
    CombAddCoeffs(q, |a|, a, b, Add(q, a, b), Powers(q, |a|, t), |a|);
  }

  lemma TauScale(q: int, c: int, a: Poly, t: int)
    requires q > 0 && |a| > 0
    ensures Tau(q, Scale(q, c, a), t) == Scale(q, c, Tau(q, a, t))
  {
    CombScaleCoeffs(q, |a|, c, a, Scale(q, c, a), Powers(q, |a|, t), |a|);
  }

  lemma TauZero(q: int, d: nat, t: int)
    requires q > 0 && d > 0
    ensures Tau(q, Zero(d), t) == Zero(d)
  {
    TauScale(q, 0, Zero(d), t);
    ScaleByZero(q, Zero(d));
    ScaleByZero(q, Tau(q, Zero(d), t));
  }

  lemma {:induction false} TauComb(q: int, d: nat, t: int, cs: seq<int>, ps: seq<Poly>, rs: seq<Poly>, n: nat)
    requires q > 0 && d > 0 && n <= |cs| && n <= |ps| && n <= |rs|
    requires forall i :: 0 <= i < n ==> |ps[i]| == d && |rs[i]| == d && rs[i] == Tau(q, ps[i], t)
    ensures Tau(q, Comb(q, d, cs, ps, n), t) == Comb(q, d, cs, rs, n)
  {
    if n == 0 {
      TauZero(q, d, t);
    } else {
      var m := n - 1;
      TauComb(q, d, t, cs, ps, rs, m);
      TauScale(q, cs[m], ps[m], t);
      TauAdd(q, Comb(q, d, cs, ps, m), Scale(q, cs[m], ps[m]), t);
    }
  }

  lemma {:induction false} CombOfMono(q: int, d: nat, k: nat, ps: seq<Poly>, n: nat)
    requires q > 0 && k < d && n <= d && n <= |ps| && Elems(q, d, ps)
    ensures Comb(q, d, Mono(q, d, k), ps, n) == if n <= k then Zero(d) else ps[k]
  {
    if n > 0 {
      var m := n - 1;
      CombOfMono(q, d, k, ps, m);
      MonoCoeff(q, d, k, m);
      if m == k {
        ScaleMod(q, 1, ps[m]);
        ScaleOne(q, ps[m]);
        AddZero(q, ps[m]);
      } else {
        ScaleByZero(q, ps[m]);
        AddZero(q, Comb(q, d, Mono(q, d, k), ps, m));
      }
    }
  }

  lemma TauMonoInside(q: int, d: nat, k: nat, t: int)
    requires q > 0 && k < d
    ensures Tau(q, Mono(q, d, k), t) == Mono(q, d, k * t)
  {
    CombOfMono(q, d, k, Powers(q, d, t), d);
  }

  lemma TauMonoWrapped(q: int, d: nat, k: nat, t: int)
    requires q > 0 && k < d && t % 2 == 1
    ensures Tau(q, Mono(q, d, k + d), t) == Mono(q, d, (k + d) * t)
  {
    var h := t / 2;
    calc {
      (k + d) * t;
      k * t + d * t;
      { assert t == 2 * h + 1; }
      k * t + d * (2 * h + 1);
      { assert d * (2 * h + 1) == d + h * (2 * d); }
      k * t + d + h * (2 * d);
    }
    ShiftHalfTurn(q, Unit(d), k);
    TauScale(q, -1, Mono(q, d, k), t);
    TauMonoInside(q, d, k, t);
    ShiftHalfTurn(q, Unit(d), k * t);
    ShiftPeriod(q, Unit(d), k * t + d, h);
  }

  /** Raising X^k to an odd power t: (X^k)^t is X^(kt) even when k is outside [0, d). */
  lemma TauMono(q: int, d: nat, k: int, t: int)
    requires q > 0 && d > 0 && t % 2 == 1
    ensures Tau(q, Mono(q, d, k), t) == Mono(q, d, k * t)
  {
    var r, e := k % (2 * d), k / (2 * d);
    DivMod(k, 2 * d);
    ShiftPeriod(q, Unit(d), r, e);
    ShiftPeriod(q, Unit(d), r * t, e * t);
    calc {
      k * t;
      (r + e * (2 * d)) * t;
      { Distribute(r, e * (2 * d), t); }
      r * t + e * (2 * d) * t;
      r * t + e * t * (2 * d);
    }
    if r < d {
      TauMonoInside(q, d, r, t);
    } else {
      TauMonoWrapped(q, d, r - d, t);
    }
  }

  lemma TauShift(q: int, a: Poly, k: int, t: int)
    requires q > 0 && |a| > 0 && Canon(q, a) && t % 2 == 1
    ensures Tau(q, Shift(q, a, k), t) == Shift(q, Tau(q, a, t), k * t)
  {
    var d := |a|;
    var moved := seq(d, i => Mono(q, d, i + k));
    var image := seq(d, i => Mono(q, d, (i + k) * t));
    forall i | 0 <= i < d
      ensures moved[i] == Shift(q, Powers(q, d, 1)[i], k)
      ensures image[i] == Tau(q, moved[i], t)
      ensures image[i] == Shift(q, Powers(q, d, t)[i], k * t)
    {
      MonoShift(q, d, i, k);
      TauMono(q, d, i + k, t);
      MonoShift(q, d, i * t, k * t);
      assert (i + k) * t == i * t + k * t;
    }
    Decompose(q, a);
    CombShift(q, d, k, a, Powers(q, d, 1), moved, d);
    TauComb(q, d, t, a, moved, image, d);
    CombShift(q, d, k * t, a, Powers(q, d, t), image, d);
  }

  /** Automorphisms are multiplicative. */
  lemma TauMul(q: int, a: Poly, b: Poly, t: int)
    requires q > 0 && |a| == |b| > 0 && Canon(q, b) && t % 2 == 1
    ensures Tau(q, Mul(q, a, b), t) == Mul(q, Tau(q, a, t), Tau(q, b, t))
  {
    var d, tb := |a|, Tau(q, b, t);
    var image := seq(d, i => Shift(q, tb, i * t));
    forall i | 0 <= i < d
      ensures image[i] == Tau(q, Shifts(q, b)[i], t)
      ensures image[i] == Mul(q, Powers(q, d, t)[i], tb)
    {
      TauShift(q, b, i, t);
      MulMono(q, tb, i * t);
      MulComm(q, tb, Mono(q, d, i * t));
    }
    TauComb(q, d, t, a, Shifts(q, b), image, d);
    MulCombLeft(q, d, a, Powers(q, d, t), tb, image, d);
  }

  lemma TauTau(q: int, a: Poly, t: int, u: int)
    requires q > 0 && |a| > 0 && u % 2 == 1
    ensures Tau(q, Tau(q, a, t), u) == Tau(q, a, t * u)
  {
    var d := |a|;
    forall i | 0 <= i < d
      ensures Powers(q, d, t * u)[i] == Tau(q, Powers(q, d, t)[i], u)
    {
      TauMono(q, d, i * t, u);
      assert i * t * u == i * (t * u);
    }
    TauComb(q, d, u, a, Powers(q, d, t), Powers(q, d, t * u), d);
  }

  /** Only the exponent modulo 2d matters. */
  lemma TauPeriod(q: int, a: Poly, t: int, m: int)
    requires q > 0 && |a| > 0
    ensures Tau(q, a, t + m * (2 * |a|)) == Tau(q, a, t)
  {
    var d := |a|;
    forall i | 0 <= i < d
      ensures Powers(q, d, t + m * (2 * d))[i] == Powers(q, d, t)[i]
    {
      ShiftPeriod(q, Unit(d), i * t, i * m);
      assert i * (t + m * (2 * d)) == i * t + i * m * (2 * d);
    }
    assert Powers(q, d, t + m * (2 * d)) == Powers(q, d, t);
  }

  lemma TauMod(q: int, a: Poly, t: int)
    requires q > 0 && |a| > 0
    ensures Tau(q, a, t % (2 * |a|)) == Tau(q, a, t)
  {
    DivMod(t, 2 * |a|);
    TauPeriod(q, a, t % (2 * |a|), t / (2 * |a|));
  }

  lemma TauOne(q: int, a: Poly)
    requires q > 0 && |a| > 0 && Canon(q, a)
    ensures Tau(q, a, 1) == a
  {
    Decompose(q, a);
  }

  // ----- sums of products -----

  /** as[0] * bs[0] + ... + as[n-1] * bs[n-1]. */
  function Dot(q: int, d: nat, xs: seq<Poly>, bs: seq<Poly>, n: nat): (r: Poly)
    requires q > 0 && d > 0 && n <= |xs| && n <= |bs|
    requires forall i :: 0 <= i < n ==> |xs[i]| == d && |bs[i]| == d
    ensures |r| == d && Canon(q, r)
  {
    if n == 0 then Zero(d) else Add(q, Dot(q, d, xs, bs, n - 1), Mul(q, xs[n - 1], bs[n - 1]))
  }

  lemma DotStep(q: int, d: nat, xs: seq<Poly>, bs: seq<Poly>, n: nat)
    requires q > 0 && d > 0 && n < |xs| && n < |bs|
    requires forall i :: 0 <= i <= n ==> |xs[i]| == d && |bs[i]| == d
    ensures Dot(q, d, xs, bs, n + 1) == Add(q, Dot(q, d, xs, bs, n), Mul(q, xs[n], bs[n]))
  {
  }

  lemma DotNil(q: int, d: nat, xs: seq<Poly>, bs: seq<Poly>)
    requires q > 0 && d > 0
    ensures Dot(q, d, xs, bs, 0) == Zero(d)
  {
  }

  lemma {:induction false} DotPrefix(q: int, d: nat, xs: seq<Poly>, bs: seq<Poly>, cs: seq<Poly>, es: seq<Poly>, n: nat)
    requires q > 0 && d > 0 && n <= |xs| && n <= |bs| && n <= |cs| && n <= |es|
    requires forall i :: 0 <= i < n ==>
               |xs[i]| == d && |bs[i]| == d && |cs[i]| == d && |es[i]| == d
               && Mul(q, xs[i], bs[i]) == Mul(q, cs[i], es[i])
    ensures Dot(q, d, xs, bs, n) == Dot(q, d, cs, es, n)
  {
    if n > 0 {
      DotPrefix(q, d, xs, bs, cs, es, n - 1);
    }
  }

  lemma {:induction false} DotConcat(q: int, d: nat, xs: seq<Poly>, bs: seq<Poly>, cs: seq<Poly>, es: seq<Poly>, n: nat)
    requires q > 0 && d > 0 && |xs| == |bs| && n <= |cs| && n <= |es|
    requires forall i :: 0 <= i < |xs| ==> |xs[i]| == d && |bs[i]| == d
    requires forall i :: 0 <= i < n ==> |cs[i]| == d && |es[i]| == d
    ensures Dot(q, d, xs + cs, bs + es, |xs| + n) == Add(q, Dot(q, d, xs, bs, |xs|), Dot(q, d, cs, es, n))
  {
    hide *;
    if n == 0 {
      DotPrefix(q, d, xs + cs, bs + es, xs, bs, |xs|);
      DotNil(q, d, cs, es);
      AddZero(q, Dot(q, d, xs, bs, |xs|));
    } else {
      var m := |xs| + n - 1;
      assert (xs + cs)[m] == cs[n - 1] && (bs + es)[m] == es[n - 1];
      DotConcat(q, d, xs, bs, cs, es, n - 1);
      DotStep(q, d, cs, es, n - 1);
      DotStep(q, d, xs + cs, bs + es, m);
      AddAssoc(q, Dot(q, d, xs, bs, |xs|), Dot(q, d, cs, es, n - 1), Mul(q, cs[n - 1], es[n - 1]));
    }
  }

  // ----- sums of shifted polynomials -----

  /** ps[0] + X ps[1] + ... + X^(n-1) ps[n-1]. */
  function ShiftSum(q: int, d: nat, ps: seq<Poly>, n: nat): (r: Poly)
    requires q > 0 && d > 0 && n <= |ps|
    requires forall k :: 0 <= k < n ==> |ps[k]| == d
    ensures |r| == d && Canon(q, r)
  {
    if n == 0 then Zero(d) else Add(q, ShiftSum(q, d, ps, n - 1), Shift(q, ps[n - 1], n - 1))
  }

  lemma ShiftSumStep(q: int, d: nat, ps: seq<Poly>, n: nat)
    requires q > 0 && d > 0 && n < |ps|
    requires forall k :: 0 <= k <= n ==> |ps[k]| == d
    ensures ShiftSum(q, d, ps, n + 1) == Add(q, ShiftSum(q, d, ps, n), Shift(q, ps[n], n))
  {
  }

  lemma ShiftSumNil(q: int, d: nat, ps: seq<Poly>)
    requires q > 0 && d > 0
    ensures ShiftSum(q, d, ps, 0) == Zero(d)
  {
  }

  lemma {:induction false} ShiftSumMul(q: int, d: nat, ps: seq<Poly>, s: Poly, rs: seq<Poly>, n: nat)
    requires q > 0 && d > 0 && n <= |ps| && n <= |rs| && |s| == d && Canon(q, s)
    requires forall k :: 0 <= k < n ==> |ps[k]| == d && Canon(q, ps[k]) && |rs[k]| == d && rs[k] == Mul(q, ps[k], s)
    ensures Mul(q, ShiftSum(q, d, ps, n), s) == ShiftSum(q, d, rs, n)
  {
    hide *;
    if n == 0 {
      ShiftSumNil(q, d, ps);
      ShiftSumNil(q, d, rs);
      MulZeroLeft(q, s);
    } else {
      var m := n - 1;
      ShiftSumMul(q, d, ps, s, rs, m);
      ShiftSumStep(q, d, ps, m);
      ShiftSumStep(q, d, rs, m);
      MulShiftLeft(q, ps[m], s, m);
      MulAddLeft(q, ShiftSum(q, d, ps, m), Shift(q, ps[m], m), s);
    }
  }

  lemma {:induction false} ShiftSumAdd(q: int, d: nat, ps: seq<Poly>, rs: seq<Poly>, ts: seq<Poly>, n: nat)
    requires q > 0 && d > 0 && n <= |ps| && n <= |rs| && n <= |ts|
    requires forall k :: 0 <= k < n ==> |ps[k]| == d && |rs[k]| == d && |ts[k]| == d && ts[k] == Add(q, ps[k], rs[k])
    ensures ShiftSum(q, d, ts, n) == Add(q, ShiftSum(q, d, ps, n), ShiftSum(q, d, rs, n))
  {
    hide *;
    if n == 0 {
      ShiftSumNil(q, d, ps);
      ShiftSumNil(q, d, rs);
      ShiftSumNil(q, d, ts);
      ZeroCanon(q, d);
      AddZero(q, Zero(d));
    } else {
      var m := n - 1;
      ShiftSumAdd(q, d, ps, rs, ts, m);
      ShiftSumStep(q, d, ps, m);
      ShiftSumStep(q, d, rs, m);
      ShiftSumStep(q, d, ts, m);
      ShiftAdd(q, ps[m], rs[m], m);
      AddSwap(q, ShiftSum(q, d, ps, m), ShiftSum(q, d, rs, m), Shift(q, ps[m], m), Shift(q, rs[m], m));
    }
  }

  lemma {:induction false} ShiftSumScale(q: int, d: nat, c: int, ps: seq<Poly>, rs: seq<Poly>, n: nat)
    requires q > 0 && d > 0 && n <= |ps| && n <= |rs|
    requires forall k :: 0 <= k < n ==> |ps[k]| == d && |rs[k]| == d && rs[k] == Scale(q, c, ps[k])
    ensures ShiftSum(q, d, rs, n) == Scale(q, c, ShiftSum(q, d, ps, n))
  {
    hide *;
    if n == 0 {
      ShiftSumNil(q, d, ps);
      ShiftSumNil(q, d, rs);
      ScaleZero(q, c, d);
    } else {
      var m := n - 1;
      ShiftSumScale(q, d, c, ps, rs, m);
      ShiftSumStep(q, d, ps, m);
      ShiftSumStep(q, d, rs, m);
      ShiftScale(q, c, ps[m], m);
      ScaleAdd(q, c, ShiftSum(q, d, ps, m), Shift(q, ps[m], m));
    }
  }

  lemma {:induction false} ShiftSumZeros(q: int, d: nat, ps: seq<Poly>, n: nat)
    requires q > 0 && d > 0 && n <= |ps|
    requires forall k :: 0 <= k < n ==> |ps[k]| == d && ps[k] == Zero(d)
    ensures ShiftSum(q, d, ps, n) == Zero(d)
  {
    if n > 0 {
      ShiftSumZeros(q, d, ps, n - 1);
      ShiftOfZero(q, d, n - 1);
      AddZero(q, Zero(d));
    }
  }

  // ----- adding one monomial -----

  /** The slot that X^e lands in, and its sign. */
  function SlotOf(d: nat, e: int): (r: nat)
    requires d > 0
    ensures r < d
  {
    var m := e % (2 * d);
    if m < d then m else m - d
  }

  function SignOf(d: nat, e: int): (r: int)
    requires d > 0
  {
    if e % (2 * d) < d then 1 else -1
  }

  lemma MonoExt(d: nat, e: int, i: nat)
    requires i < d
    ensures Ext(Unit(d), i - e) == if i == SlotOf(d, e) then SignOf(d, e) else 0
  {
    var m := e % (2 * d);
    SubRight(i, e, 2 * d);
    assert (i - e) % (2 * d) == (i - m) % (2 * d);
    if i >= m {
      ModSmall(i - m, 2 * d);
    } else {
      ModMultiple(i - m, 1, 2 * d);
      ModSmall(i - m + 2 * d, 2 * d);
    }
  }

  lemma ScaledMonoEntry(q: int, d: nat, c: int, e: int, i: nat)
    requires q > 0 && i < d
    ensures Scale(q, c, Mono(q, d, e))[i] == if i == SlotOf(d, e) then (c * SignOf(d, e)) % q else 0
  {
    MonoExt(d, e, i);
    var u := if i == SlotOf(d, e) then SignOf(d, e) else 0;
    assert Mono(q, d, e)[i] == u % q;
    MulRight(c, u, q);
    if u == 0 {
      assert c * 0 == 0;
      ModSmall(0, q);
    }
  }

  /** Adding c X^e touches one coefficient. */
  lemma ScatterAdd(q: int, x: Poly, c: int, e: int)
    requires q > 0 && |x| > 0 && Canon(q, x)
    ensures var i := SlotOf(|x|, e);
            Add(q, x, Scale(q, c, Mono(q, |x|, e))) == x[i := (x[i] + c * SignOf(|x|, e)) % q]
  {
    var d, j := |x|, SlotOf(|x|, e);
    var y := Scale(q, c, Mono(q, d, e));
    forall i | 0 <= i < d
      ensures (x[i] + y[i]) % q == if i == j then (x[i] + c * SignOf(d, e)) % q else x[i]
    {
      ScaledMonoEntry(q, d, c, e, i);
      if i == j {
        ModAdd(x[i], c * SignOf(d, e), q);
      } else {
        ModSmall(x[i], q);
      }
    }
  }

  // ----- coefficients -----

  lemma CoeffSumNil(cs: seq<int>, ps: seq<Poly>, i: nat)
    ensures CoeffSum(cs, ps, i, 0) == 0
  {
  }

  lemma CoeffSumStep(cs: seq<int>, ps: seq<Poly>, i: nat, n: nat)
    requires n < |cs| && n < |ps| && forall k :: 0 <= k <= n ==> i < |ps[k]|
    ensures CoeffSum(cs, ps, i, n + 1) == CoeffSum(cs, ps, i, n) + cs[n] * ps[n][i]
  {
  }

  lemma MulCoeff(q: int, a: Poly, b: Poly, k: nat)
    requires q > 0 && |a| == |b| && k < |a|
    ensures Mul(q, a, b)[k] == CoeffSum(a, Shifts(q, b), k, |a|) % q
  {
    CombCoeff(q, |a|, a, Shifts(q, b), k, |a|);
  }
}
