/** The Galois exponents 5^j and -5^j modulo 2d, and the trace they define
    (inspiring/src/automorph.rs). */
module Galois {
  import opened Modular
  import opened Ring
  import opened RingLaws

  function Pow(b: int, e: nat): (r: int) {
    if e == 0 then 1 else b * Pow(b, e - 1)
  }

  predicate PowerOfTwo(n: int) {
    n >= 1 && (n == 1 || (n % 2 == 0 && PowerOfTwo(n / 2)))
  }

  /** The number of times 2 divides n. */
  function Log2(n: int): (k: nat)
    requires PowerOfTwo(n)
    ensures Pow(2, k) == n
  {
    if n == 1 then 0 else 1 + Log2(n / 2)
  }

  lemma {:induction false} PowAdd(b: int, m: nat, n: nat)
    ensures Pow(b, m + n) == Pow(b, m) * Pow(b, n)
  {
    if m > 0 {
      PowAdd(b, m - 1, n);
      var x, y := Pow(b, m - 1), Pow(b, n);
      assert b * (x * y) == (b * x) * y;
    }
  }

  lemma {:induction false} PowSquare(b: int, n: nat)
    ensures Pow(b * b, n) == Pow(b, 2 * n)
  {
    if n > 0 {
      PowSquare(b, n - 1);
      var x := Pow(b, 2 * n - 2);
      assert Pow(b, 2 * n) == b * (b * x);
      assert (b * b) * x == b * (b * x);
    }
  }

  lemma {:induction false} PowMod(b: int, n: nat, m: int)
    requires m > 0
    ensures Pow(b % m, n) % m == Pow(b, n) % m
  {
    if n > 0 {
      PowMod(b, n - 1, m);
      var x, y := Pow(b % m, n - 1), Pow(b, n - 1);
      ModMul(b % m, x, m);
      ModMul(b % m, y, m);
      MulLeft(b, y, m);
    }
  }

  lemma {:induction false} PowPositive(b: int, n: nat)
    requires b > 0
    ensures Pow(b, n) > 0
  {
    if n > 0 {
      PowPositive(b, n - 1);
    }
  }

  /** Odd bases have odd powers; powers of 5 are 1 modulo 4. */
  lemma {:induction false} PowFiveOdd(j: nat)
    ensures Pow(5, j) % 4 == 1 && Pow(5, j) > 0
  {
    if j > 0 {
      PowFiveOdd(j - 1);
      FiveTimes(Pow(5, j - 1));
    }
  }

  lemma FiveTimes(x: int)
    requires x % 4 == 1
    ensures (5 * x) % 4 == 1
  {
    RemainderUnique(5 * x, x + x / 4, 1, 4);
  }

  /** 5^j mod 2d, by the program's square-and-multiply loop. */
  method TauGPow(j: nat, d: nat) returns (acc: nat)
    requires d > 0
    ensures acc == Pow(5, j) % (2 * d)
  {
    var modulus := 2 * d;
    acc := 1;
    var base := 5 % modulus;
    var exp := j;
    ModSmall(1, modulus);
    PowMod(5, j, modulus);
    while exp > 0
      invariant 0 <= acc < modulus && base >= 0
      invariant (acc * Pow(base, exp)) % modulus == Pow(5, j) % modulus
    {
      ghost var acc0, base0, half := acc, base, exp / 2;
      PowSquare(base, half);
      PowMod(base * base, half, modulus);
      ghost var tail := Pow(base * base, half);
      if exp % 2 == 1 {
        assert Pow(base, exp) == base * tail;
        assert acc * (base * tail) == (acc * base) * tail;
        MulLeft(acc * base, tail, modulus);
        acc := (acc * base) % modulus;
      }
      assert (acc * tail) % modulus == Pow(5, j) % modulus;
      base := (base * base) % modulus;
      exp := exp / 2;
      ModMul(acc, Pow(base, exp), modulus);
      ModMul(acc, tail, modulus);
    }
    ModSmall(acc, modulus);
  }

  function LeftExp(d: nat, j: nat): (r: int)
    requires d > 0
  {
    Pow(5, j) % (2 * d)
  }

  /** l * h mod 2d, for h = 2d - 1. */
  function TimesH(d: nat, l: int): (r: int)
    requires d > 0
  {
    (l * (2 * d - 1)) % (2 * d)
  }

  function RightExp(d: nat, j: nat): (r: int)
    requires d > 0
  {
    TimesH(d, LeftExp(d, j))
  }

  lemma OddMod(x: int, d: nat)
    requires d > 0 && x % 2 == 1
    ensures (x % (2 * d)) % 2 == 1
  {
    DivMod(x, 2 * d);
    var e := x / (2 * d);
    assert e * (2 * d) == 2 * (e * d);
  }

  lemma NegatedExponent(t: int, d: nat) returns (k: int)
    requires d > 0
    ensures ((t % (2 * d)) * (2 * d - 1)) % (2 * d) == -t + k * (2 * d)
  {
    var n := 2 * d;
    var l := t % n;
    var u := l * (n - 1);
    DivMod(t, n);
    DivMod(u, n);
    k := l + t / n - u / n;
    assert u == l * n - l;
    Distribute(l, t / n, n);
    Distribute(l + t / n, u / n, n);
  }

  lemma ExponentsOdd(d: nat, j: nat)
    requires d > 0
    ensures LeftExp(d, j) % 2 == 1 && RightExp(d, j) % 2 == 1
  {
    hide *;
    PowFiveOdd(j);
    OddLowBit(Pow(5, j));
    ExponentsAre(d, j);
    OddMod(Pow(5, j), d);
    OddTimesH(LeftExp(d, j), d);
    OddMod(LeftExp(d, j) * (2 * d - 1), d);
  }

  lemma OddLowBit(x: int)
    requires x % 4 == 1
    ensures x % 2 == 1
  {
    DivMod(x, 4);
    RemainderUnique(x, 2 * (x / 4), 1, 2);
  }

  lemma ExponentsAre(d: nat, j: nat)
    requires d > 0
    ensures LeftExp(d, j) == Pow(5, j) % (2 * d)
    ensures RightExp(d, j) == (LeftExp(d, j) * (2 * d - 1)) % (2 * d)
  {
    hide Pow;
  }

  lemma OddTimesH(l: int, d: nat)
    requires l % 2 == 1
    ensures (l * (2 * d - 1)) % 2 == 1
  {
    var h := l / 2;
    assert l * (2 * d - 1) == 2 * (l * d) - l;
    RemainderUnique(l * (2 * d - 1), l * d - h - 1, 1, 2);
  }

  /** The stored exponents act as 5^j and -5^j. */
  lemma StoredExponents(q: int, a: Poly, j: nat)
    requires q > 0 && |a| > 0
    ensures Tau(q, a, LeftExp(|a|, j)) == Tau(q, a, Pow(5, j))
    ensures Tau(q, a, RightExp(|a|, j)) == Tau(q, a, -Pow(5, j))
  {
    var t := Pow(5, j);
    TauMod(q, a, t);
    var k := NegatedExponent(t, |a|);
    TauPeriod(q, a, -t, k);
  }

  /** 5^(2^k) == 1 + 2^(k+2) * odd. */
  lemma {:induction false} FiveTwoAdic(k: nat) returns (c: int)
    ensures Pow(2, k) >= 0 && Pow(5, Pow(2, k)) == 1 + Pow(2, k + 2) * (2 * c + 1)
  {
    if k == 0 {
      c := 0;
    } else {
      var b := FiveTwoAdic(k - 1);
      var n, m, u := Pow(2, k - 1), Pow(2, k + 1), 2 * b + 1;
      PowPositive(2, k - 1);
      var x := Pow(5, n);
      PowAdd(5, n, n);
      assert Pow(2, k) == n + n;
      assert m == 2 * Pow(2, k) && Pow(2, k) == 2 * n && Pow(2, k + 2) == 2 * m;
      // (1 + m u)^2 == 1 + 2 m (u + 2 n u^2)
      c := b + n * u * u;
      SquareStep(m, n, u);
      assert u + 2 * (n * u * u) == 2 * c + 1;
    }
  }

  lemma SquareStep(m: int, n: int, u: int)
    requires m == 4 * n
    ensures (1 + m * u) * (1 + m * u) == 1 + (2 * m) * (u + 2 * (n * u * u))
  {
    var p := m * u;
    assert (1 + p) * (1 + p) == 1 + 2 * p + p * p;
    assert p * p == m * (u * p);
    assert u * p == 4 * (n * u * u);
    assert (2 * m) * (u + 2 * (n * u * u)) == 2 * p + m * (4 * (n * u * u));
  }

  /** Splits a positive integer below 2^L into a power of two times an odd number. */
  lemma {:induction false} OddPart(i: int, L: nat) returns (v: nat, m: int)
    requires 0 < i < Pow(2, L)
    ensures v < L && m % 2 == 1 && i == Pow(2, v) * m
  {
    if i % 2 == 1 {
      v, m := 0, i;
    } else {
      var w, n := OddPart(i / 2, L - 1);
      v, m := w + 1, n;
    }
  }

  // ----- sums of automorphic images -----

  /** tau_ts[0](p) + ... + tau_ts[n-1](p). */
  function ImageSum(q: int, p: Poly, ts: seq<int>, n: nat): (r: Poly)
    requires q > 0 && |p| > 0 && n <= |ts|
    ensures |r| == |p| && Canon(q, r)
  {
    if n == 0 then Zero(|p|)
    else Add(q, ImageSum(q, p, ts, n - 1), Tau(q, p, ts[n - 1]))
  }

  lemma ImageSumStep(q: int, p: Poly, ts: seq<int>, n: nat)
    requires q > 0 && |p| > 0 && n < |ts|
    ensures ImageSum(q, p, ts, n + 1) == Add(q, ImageSum(q, p, ts, n), Tau(q, p, ts[n]))
  {
  }

  lemma ImageSumNil(q: int, p: Poly, ts: seq<int>)
    requires q > 0 && |p| > 0
    ensures ImageSum(q, p, ts, 0) == Zero(|p|)
  {
  }

  lemma {:induction false} ImageSumAdd(q: int, a: Poly, b: Poly, ts: seq<int>, n: nat)
    requires q > 0 && |a| == |b| > 0 && n <= |ts|
    ensures ImageSum(q, Add(q, a, b), ts, n) == Add(q, ImageSum(q, a, ts, n), ImageSum(q, b, ts, n))
  {
    if n == 0 {
      AddZero(q, Zero(|a|));
    } else {
      var t := ts[n - 1];
      ImageSumAdd(q, a, b, ts, n - 1);
      TauAdd(q, a, b, t);
      AddSwap(q, ImageSum(q, a, ts, n - 1), ImageSum(q, b, ts, n - 1), Tau(q, a, t), Tau(q, b, t));
    }
  }

  lemma {:induction false} ImageSumScale(q: int, c: int, a: Poly, ts: seq<int>, n: nat)
    requires q > 0 && |a| > 0 && n <= |ts|
    ensures ImageSum(q, Scale(q, c, a), ts, n) == Scale(q, c, ImageSum(q, a, ts, n))
  {
    if n == 0 {
      ScaleZero(q, c, |a|);
    } else {
      ImageSumScale(q, c, a, ts, n - 1);
      TauScale(q, c, a, ts[n - 1]);
      ScaleAdd(q, c, ImageSum(q, a, ts, n - 1), Tau(q, a, ts[n - 1]));
    }
  }

  lemma {:induction false} ImageSumComb(q: int, d: nat, cs: seq<int>, ps: seq<Poly>, rs: seq<Poly>, ts: seq<int>, m: nat)
    requires q > 0 && d > 0 && m <= |cs| && m <= |ps| && m <= |rs|
    requires forall i :: 0 <= i < m ==> |ps[i]| == d && |rs[i]| == d && rs[i] == ImageSum(q, ps[i], ts, |ts|)
    ensures ImageSum(q, Comb(q, d, cs, ps, m), ts, |ts|) == Comb(q, d, cs, rs, m)
  {
    if m == 0 {
      ImageSumScale(q, 0, Zero(d), ts, |ts|);
      ScaleByZero(q, Zero(d));
      ScaleByZero(q, ImageSum(q, Zero(d), ts, |ts|));
    } else {
      ImageSumComb(q, d, cs, ps, rs, ts, m - 1);
      ImageSumScale(q, cs[m - 1], ps[m - 1], ts, |ts|);
      ImageSumAdd(q, Comb(q, d, cs, ps, m - 1), Scale(q, cs[m - 1], ps[m - 1]), ts, |ts|);
    }
  }

  lemma {:induction false} ImageSumConcat(q: int, p: Poly, ts: seq<int>, us: seq<int>, n: nat)
    requires q > 0 && |p| > 0 && n <= |us|
    ensures ImageSum(q, p, ts + us, |ts| + n) == Add(q, ImageSum(q, p, ts, |ts|), ImageSum(q, p, us, n))
  {
    hide *;
    if n == 0 {
      ImageSumPrefix(q, p, ts, ts + us, |ts|);
      ImageSumNil(q, p, us);
      AddZero(q, ImageSum(q, p, ts, |ts|));
    } else {
      ImageSumConcat(q, p, ts, us, n - 1);
      ImageSumStep(q, p, us, n - 1);
      ImageSumStep(q, p, ts + us, |ts| + n - 1);
      assert (ts + us)[|ts| + n - 1] == us[n - 1];
      AddAssoc(q, ImageSum(q, p, ts, |ts|), ImageSum(q, p, us, n - 1), Tau(q, p, us[n - 1]));
    }
  }

  lemma {:induction false} ImageSumPrefix(q: int, p: Poly, ts: seq<int>, us: seq<int>, n: nat)
    requires q > 0 && |p| > 0 && n <= |ts| && n <= |us|
    requires forall i :: 0 <= i < n ==> Tau(q, p, ts[i]) == Tau(q, p, us[i])
    ensures ImageSum(q, p, ts, n) == ImageSum(q, p, us, n)
  {
    if n > 0 {
      ImageSumPrefix(q, p, ts, us, n - 1);
    }
  }

  // ----- the trace -----

  /** X^(e + d * odd) == -X^e. */
  lemma MonoOddTurn(q: int, d: nat, e: int, m: int)
    requires q > 0 && d > 0 && m % 2 == 1
    ensures Mono(q, d, e + m * d) == Scale(q, -1, Mono(q, d, e))
  {
    var h := m / 2;
    assert e + m * d == e + d + h * (2 * d) by {
      assert m == 2 * h + 1;
      Distribute(2 * h, 1, d);
      assert 2 * h * d == h * (2 * d);
    }
    ShiftPeriod(q, Unit(d), e + d, h);
    ShiftHalfTurn(q, Unit(d), e);
  }

  lemma AddNeg(q: int, a: Poly)
    requires q > 0
    ensures Add(q, a, Scale(q, -1, a)) == Zero(|a|) && Add(q, Scale(q, -1, a), a) == Zero(|a|)
  {
    ModSmall(0, q);
    forall i | 0 <= i < |a|
      ensures Add(q, a, Scale(q, -1, a))[i] == 0
    {
      ModAdd(a[i], -1 * a[i], q);
    }
    AddComm(q, a, Scale(q, -1, a));
  }

  /** Cancellation: a + c == b + c only when a == b. */
  lemma AddCancel(q: int, a: Poly, b: Poly, c: Poly)
    requires q > 0 && |a| == |b| == |c| && Canon(q, a) && Canon(q, b)
    requires Add(q, a, c) == Add(q, b, c)
    ensures a == b
  {
    var n := Scale(q, -1, c);
    AddAssoc(q, a, c, n);
    AddAssoc(q, b, c, n);
    AddNeg(q, c);
    AddZero(q, a);
    AddZero(q, b);
  }

  predicate FlipsAt(q: int, p: Poly, ts: seq<int>, J: nat, j: nat)
    requires q > 0 && |p| > 0
  {
    j + J < |ts| ==> Tau(q, p, ts[j + J]) == Scale(q, -1, Tau(q, p, ts[j]))
  }

  ghost predicate SignFlips(q: int, p: Poly, ts: seq<int>, J: nat)
    requires q > 0 && |p| > 0
  {
    forall j: nat :: FlipsAt(q, p, ts, J, j)
  }

  /** Images that flip sign every J steps: partial sums J apart add up to the J-th one. */
  lemma {:induction false} SignFlipTelescopes(q: int, p: Poly, ts: seq<int>, J: nat, n: nat)
    requires q > 0 && |p| > 0 && n + J <= |ts|
    requires SignFlips(q, p, ts, J)
    ensures Add(q, ImageSum(q, p, ts, n + J), ImageSum(q, p, ts, n)) == ImageSum(q, p, ts, J)
  {
    hide Add, Scale, Tau, ImageSum;
    if n == 0 {
      ImageSumNil(q, p, ts);
      AddZero(q, ImageSum(q, p, ts, J));
    } else {
      var m := n - 1;
      ImageSumStep(q, p, ts, m + J);
      ImageSumStep(q, p, ts, m);
      SignFlipTelescopes(q, p, ts, J, m);
      assert FlipsAt(q, p, ts, J, m);
      OppositeTermsVanish(q, ImageSum(q, p, ts, m + J), ImageSum(q, p, ts, m), Tau(q, p, ts[m + J]), Tau(q, p, ts[m]));
    }
  }

  lemma OppositeTermsVanish(q: int, a: Poly, b: Poly, x: Poly, y: Poly)
    requires q > 0 && |a| == |b| == |x| == |y| && x == Scale(q, -1, y)
    ensures Add(q, Add(q, a, x), Add(q, b, y)) == Add(q, a, b)
  {
    AddSwap(q, a, x, b, y);
    AddNeg(q, y);
    AddZero(q, Add(q, a, b));
  }

  lemma SignFlipPeriod(q: int, p: Poly, ts: seq<int>, J: nat, n: nat)
    requires q > 0 && |p| > 0 && n + 2 * J <= |ts|
    requires SignFlips(q, p, ts, J)
    ensures ImageSum(q, p, ts, n + 2 * J) == ImageSum(q, p, ts, n)
  {
    SignFlipTelescopes(q, p, ts, J, n);
    SignFlipTelescopes(q, p, ts, J, n + J);
    assert n + J + J == n + 2 * J;
    SameOuter(q, ImageSum(q, p, ts, n + 2 * J), ImageSum(q, p, ts, n + J), ImageSum(q, p, ts, n));
  }

  lemma SameOuter(q: int, a: Poly, b: Poly, c: Poly)
    requires q > 0 && |a| == |b| == |c| && Canon(q, a) && Canon(q, c)
    requires Add(q, a, b) == Add(q, b, c)
    ensures a == c
  {
    AddComm(q, b, c);
    AddCancel(q, a, c, b);
  }

  lemma {:induction false} SignFlipVanishes(q: int, p: Poly, ts: seq<int>, J: nat, n: nat)
    requires q > 0 && |p| > 0 && J > 0 && n <= |ts| && n % (2 * J) == 0
    requires SignFlips(q, p, ts, J)
    ensures ImageSum(q, p, ts, n) == Zero(|p|)
  {
    if n > 0 {
      if n < 2 * J {
        ModSmall(n, 2 * J);
      }
      ModMultiple(n, -1, 2 * J);
      SignFlipVanishes(q, p, ts, J, n - 2 * J);
      SignFlipPeriod(q, p, ts, J, n - 2 * J);
    }
  }

  lemma {:induction false} ImageSumNegated(q: int, p: Poly, ts: seq<int>, us: seq<int>, n: nat)
    requires q > 0 && |p| > 0 && n <= |ts| && n <= |us|
    requires forall j :: 0 <= j < n ==> Tau(q, p, us[j]) == Scale(q, -1, Tau(q, p, ts[j]))
    ensures ImageSum(q, p, us, n) == Scale(q, -1, ImageSum(q, p, ts, n))
  {
    if n == 0 {
      ScaleZero(q, -1, |p|);
    } else {
      ImageSumNegated(q, p, ts, us, n - 1);
      ScaleAdd(q, -1, ImageSum(q, p, ts, n - 1), Tau(q, p, ts[n - 1]));
    }
  }

  lemma {:induction false} ImageSumConstant(q: int, d: nat, ts: seq<int>, n: nat)
    requires q > 0 && d > 0 && n <= |ts|
    requires forall j :: 0 <= j < n ==> ts[j] % 2 == 1
    ensures ImageSum(q, Mono(q, d, 0), ts, n) == Scale(q, n, Mono(q, d, 0))
  {
    var one := Mono(q, d, 0);
    if n == 0 {
      ScaleByZero(q, one);
    } else {
      ImageSumConstant(q, d, ts, n - 1);
      TauMono(q, d, 0, ts[n - 1]);
      assert Tau(q, one, ts[n - 1]) == one;
      ScaleOne(q, one);
      ScaleSum(q, n - 1, 1, one);
    }
  }

  /** s * 5^0, s * 5^1, ... */
  function Fives(s: int, n: nat): (r: seq<int>)
    ensures |r| == n && forall j :: 0 <= j < n ==> r[j] == s * Pow(5, j)
  {
    seq(n, j requires j >= 0 => s * Pow(5, j))
  }

  /** 5^(j+J) - 5^j, times i = 2^v m, is an odd multiple of 2^L when J = 2^(L-2-v). */
  lemma FiveStepGap(L: nat, v: nat, m: int, j: nat, J: nat) returns (o: int)
    requires v + 2 <= L && m % 2 == 1 && J == Pow(2, L - 2 - v)
    ensures o % 2 == 1
    ensures (Pow(2, v) * m) * (Pow(5, j + J) - Pow(5, j)) == o * Pow(2, L)
  {
    var c := FiveTwoAdic(L - 2 - v);
    PowAdd(5, j, J);
    PowAdd(2, v, L - v);
    PowFiveOdd(j);
    var f, w, b := Pow(5, j), Pow(2, L - v), 2 * c + 1;
    OddProduct(f, m);
    OddProduct(f * m, b);
    o := f * m * b;
    GapProduct(f, w, b);
    ExponentGap(Pow(2, v), m, f, w, b, Pow(2, L));
  }

  lemma GapProduct(f: int, w: int, b: int)
    ensures f * (1 + w * b) - f == f * (w * b)
  {
  }

  lemma ExponentGap(u: int, m: int, t: int, w: int, o: int, d: int)
    requires u * w == d
    ensures (u * m) * (t * (w * o)) == (t * m * o) * d
  {
    calc {
      (u * m) * (t * (w * o));
      (t * m * o) * (u * w);
    }
  }

  lemma OddProduct(x: int, y: int)
    requires x % 2 == 1 && y % 2 == 1
    ensures (x * y) % 2 == 1
  {
    var h, k := x / 2, y / 2;
    assert x * y == 2 * (h * y + k) + 1;
  }

  /** Exponents whose images of X^i differ by an odd number of half turns. */
  lemma OppositeImages(q: int, d: nat, i: int, t: int, u: int, o: int)
    requires q > 0 && d > 0 && t % 2 == 1 && u % 2 == 1 && o % 2 == 1
    requires i * u == i * t + o * d
    ensures Tau(q, Mono(q, d, i), u) == Scale(q, -1, Tau(q, Mono(q, d, i), t))
  {
    TauMono(q, d, i, t);
    TauMono(q, d, i, u);
    MonoOddTurn(q, d, i * t, o);
  }

  lemma OppositeSignedImages(q: int, d: nat, i: int, f: int, g: int, o: int)
    requires q > 0 && d > 0 && f % 2 == 1 && g % 2 == 1 && o % 2 == 1
    requires i * (g - f) == o * d
    ensures Tau(q, Mono(q, d, i), 1 * g) == Scale(q, -1, Tau(q, Mono(q, d, i), 1 * f))
    ensures Tau(q, Mono(q, d, i), -1 * g) == Scale(q, -1, Tau(q, Mono(q, d, i), -1 * f))
  {
    hide *;
    SignedGap(i, f, g, o, d);
    OppositeImages(q, d, i, f, g, o);
    OppositeImages(q, d, i, -f, -g, -o);
  }

  /** Stepping 5^j by J = 2^(L-2-v) negates X^i when v is the 2-adic valuation of i. */
  lemma FiveStepNegates(q: int, d: nat, L: nat, v: nat, m: int, j: nat, J: nat, i: int)
    requires q > 0 && v + 2 <= L && m % 2 == 1
    requires d == Pow(2, L) > 0 && J == Pow(2, L - 2 - v) && i == Pow(2, v) * m
    ensures Tau(q, Mono(q, d, i), 1 * Pow(5, j + J)) == Scale(q, -1, Tau(q, Mono(q, d, i), 1 * Pow(5, j)))
    ensures Tau(q, Mono(q, d, i), -1 * Pow(5, j + J)) == Scale(q, -1, Tau(q, Mono(q, d, i), -1 * Pow(5, j)))
  {
    hide *;
    var o := FiveStepGap(L, v, m, j, J);
    PowFiveOdd(j);
    PowFiveOdd(j + J);
    OppositeSignedImages(q, d, i, Pow(5, j), Pow(5, j + J), o);
  }

  lemma SignedGap(i: int, f: int, g: int, o: int, d: int)
    requires i * (g - f) == o * d
    ensures i * g == i * f + o * d
    ensures i * (-1 * g) == i * (-1 * f) + (-1 * o) * d
  {
    Distribute(g, f, i);
    assert i * -g == -(i * g) && i * -f == -(i * f) && (-o) * d == -(o * d);
  }

  /** X^(d/2): the images under 5^j and -5^j cancel. */
  lemma HalfPowerCancels(q: int, d: nat, f: int)
    requires q > 0 && d > 0 && d % 2 == 0 && f % 2 == 1
    ensures Tau(q, Mono(q, d, d / 2), -1 * f) == Scale(q, -1, Tau(q, Mono(q, d, d / 2), 1 * f))
  {
    var h := d / 2;
    assert h * (-1 * f) == h * (1 * f) + (-f) * d by {
      assert d == 2 * h;
      assert (-f) * d == -2 * (h * f);
    }
    OppositeImages(q, d, h, 1 * f, -1 * f, -f);
  }

  function TraceMono(q: int, d: nat, i: int): (r: Poly)
    requires q > 0 && d > 0
    ensures |r| == d
  {
    var x, n := Mono(q, d, i), d / 2;
    Add(q, ImageSum(q, x, Fives(1, n), n), ImageSum(q, x, Fives(-1, n), n))
  }

  lemma TraceMonoLowValuation(q: int, d: nat, L: nat, v: nat, m: int, i: int)
    requires q > 0 && v + 2 <= L && m % 2 == 1 && d == Pow(2, L) > 0 && i == Pow(2, v) * m
    ensures TraceMono(q, d, i) == Zero(d)
  {
    var n, x, J := d / 2, Mono(q, d, i), Pow(2, L - 2 - v);
    PowPositive(2, L - 2 - v);
    PowAdd(2, v, L - 1 - v);
    ModMultiple(0, Pow(2, v), 2 * J);
    ModSmall(0, 2 * J);
    forall j: nat
      ensures FlipsAt(q, x, Fives(1, n), J, j) && FlipsAt(q, x, Fives(-1, n), J, j)
    {
      FiveStepNegates(q, d, L, v, m, j, J, i);
    }
    SignFlipVanishes(q, x, Fives(1, n), J, n);
    SignFlipVanishes(q, x, Fives(-1, n), J, n);
    AddZero(q, Zero(d));
  }

  lemma TraceMonoHalf(q: int, d: nat)
    requires q > 0 && d > 0 && d % 2 == 0
    ensures TraceMono(q, d, d / 2) == Zero(d)
  {
    var n, x := d / 2, Mono(q, d, d / 2);
    forall j | 0 <= j < n
      ensures Tau(q, x, Fives(-1, n)[j]) == Scale(q, -1, Tau(q, x, Fives(1, n)[j]))
    {
      PowFiveOdd(j);
      HalfPowerCancels(q, d, Pow(5, j));
    }
    ImageSumNegated(q, x, Fives(1, n), Fives(-1, n), n);
    AddNeg(q, ImageSum(q, x, Fives(1, n), n));
  }

  lemma TopValuation(d: int, v: nat, m: int, i: int)
    requires d == Pow(2, v + 1) && i == Pow(2, v) * m && m % 2 == 1 && 0 < i < d
    ensures i == d / 2 && d % 2 == 0
  {
    var w := Pow(2, v);
    PowPositive(2, v);
    assert d == 2 * w;
    if m != 1 {
      assert m <= 0 || m >= 2;
      MulStrict(m - 1, w);
    }
  }

  /** The trace of X^i vanishes for 0 < i < d. */
  lemma TraceMonoVanishes(q: int, d: nat, i: nat)
    requires q > 0 && PowerOfTwo(d) && 0 < i < d
    ensures TraceMono(q, d, i) == Zero(d)
  {
    var L := Log2(d);
    var v, m := OddPart(i, L);
    if v + 2 <= L {
      TraceMonoLowValuation(q, d, L, v, m, i);
    } else {
      TopValuation(d, v, m, i);
      TraceMonoHalf(q, d);
    }
  }

  /** 5^0, 5^1, ... reduced modulo 2d. */
  function LeftExps(d: nat, n: nat): (r: seq<int>)
    requires d > 0
    ensures |r| == n && forall j :: 0 <= j < n ==> r[j] == LeftExp(d, j)
  {
    seq(n, j requires j >= 0 => LeftExp(d, j))
  }

  function RightExps(d: nat, n: nat): (r: seq<int>)
    requires d > 0
    ensures |r| == n && forall j :: 0 <= j < n ==> r[j] == RightExp(d, j)
  {
    seq(n, j requires j >= 0 => RightExp(d, j))
  }

  /** The exponents of the slots: d/2 powers of 5, then the same powers negated. */
  function SlotExps(d: nat): (r: seq<int>)
    requires d > 0
    ensures |r| == 2 * (d / 2)
  {
    LeftExps(d, d / 2) + RightExps(d, d / 2)
  }

  lemma SlotExpsSum(q: int, p: Poly, n: nat)
    requires q > 0 && |p| > 0
    ensures ImageSum(q, p, LeftExps(|p|, n), n) == ImageSum(q, p, Fives(1, n), n)
    ensures ImageSum(q, p, RightExps(|p|, n), n) == ImageSum(q, p, Fives(-1, n), n)
  {
    hide *;
    var l, r := LeftExps(|p|, n), RightExps(|p|, n);
    forall j | 0 <= j < n
      ensures Tau(q, p, l[j]) == Tau(q, p, Fives(1, n)[j])
      ensures Tau(q, p, r[j]) == Tau(q, p, Fives(-1, n)[j])
    {
      StoredExponents(q, p, j);
    }
    ImageSumPrefix(q, p, l, Fives(1, n), n);
    ImageSumPrefix(q, p, r, Fives(-1, n), n);
  }

  lemma TraceOfBasis(q: int, d: nat, i: nat)
    requires q > 0 && d >= 2 && PowerOfTwo(d) && i < d
    ensures ImageSum(q, Mono(q, d, i), SlotExps(d), 2 * (d / 2))
            == if i == 0 then Scale(q, 2 * (d / 2), Mono(q, d, 0)) else Zero(d)
  {
    if i == 0 {
      SlotExpsOdd(d);
      ImageSumConstant(q, d, SlotExps(d), 2 * (d / 2));
    } else {
      var n, x := d / 2, Mono(q, d, i);
      assert SlotExps(d) == LeftExps(d, n) + RightExps(d, n);
      assert TraceMono(q, d, i) == Add(q, ImageSum(q, x, Fives(1, n), n), ImageSum(q, x, Fives(-1, n), n));
      hide *;
      ImageSumConcat(q, x, LeftExps(d, n), RightExps(d, n), n);
      SlotExpsSum(q, x, n);
      TraceMonoVanishes(q, d, i);
    }
  }

  function BasisTraces(q: int, d: nat): (r: seq<Poly>)
    requires q > 0 && d > 0
    ensures |r| == d
    ensures forall i :: 0 <= i < d ==> |r[i]| == d && r[i] == ImageSum(q, Mono(q, d, i), SlotExps(d), 2 * (d / 2))
  {
    seq(d, i => ImageSum(q, Mono(q, d, i), SlotExps(d), 2 * (d / 2)))
  }

  lemma TraceIsComb(q: int, p: Poly)
    requires q > 0 && |p| > 0 && Canon(q, p)
    ensures ImageSum(q, p, SlotExps(|p|), 2 * (|p| / 2)) == Comb(q, |p|, p, BasisTraces(q, |p|), |p|)
  {
    hide *;
    var d := |p|;
    forall i | 0 <= i < d
      ensures Powers(q, d, 1)[i] == Mono(q, d, i)
    {
      PowersAt(q, d, 1, i);
    }
    Decompose(q, p);
    ImageSumComb(q, d, p, Powers(q, d, 1), BasisTraces(q, d), SlotExps(d), d);
  }

  /** Trace lemma: the d images of p add up to d times its constant coefficient. */
  lemma TraceLemma(q: int, p: Poly)
    requires q > 0 && |p| >= 2 && PowerOfTwo(|p|) && Canon(q, p)
    ensures ImageSum(q, p, SlotExps(|p|), |p|) == Scale(q, |p| * p[0], Mono(q, |p|, 0))
  {
    var d := |p|;
    assert 2 * (d / 2) == d;
    hide *;
    TraceIsComb(q, p);
    forall i | 0 <= i < d
      ensures BasisTraces(q, d)[i] == if i == 0 then Scale(q, d, Mono(q, d, 0)) else Zero(d)
    {
      TraceOfBasis(q, d, i);
    }
    CombOfHead(q, d, p, BasisTraces(q, d), d);
    ScaleScale(q, p[0], d, Mono(q, d, 0));
    assert p[0] * d == d * p[0];
  }

  lemma SlotExpsOdd(d: nat)
    requires d > 0
    ensures forall j :: 0 <= j < |SlotExps(d)| ==> SlotExps(d)[j] % 2 == 1
  {
    forall j | 0 <= j < |SlotExps(d)|
      ensures SlotExps(d)[j] % 2 == 1
    {
      ExponentsOdd(d, if j < d / 2 then j else j - d / 2);
    }
  }

  lemma {:induction false} CombOfHead(q: int, d: nat, cs: seq<int>, ps: seq<Poly>, n: nat)
    requires q > 0 && 0 < n <= |cs| && n <= |ps|
    requires forall i :: 0 <= i < n ==> |ps[i]| == d && (i > 0 ==> ps[i] == Zero(d))
    ensures Comb(q, d, cs, ps, n) == Scale(q, cs[0], ps[0])
  {
    if n == 1 {
      AddZero(q, Scale(q, cs[0], ps[0]));
    } else {
      CombOfHead(q, d, cs, ps, n - 1);
      ScaleZero(q, cs[n - 1], d);
      AddZero(q, Scale(q, cs[0], ps[0]));
    }
  }

  lemma {:induction false} PowMonotone(m: nat, n: nat)
    requires m <= n
    ensures 0 < Pow(2, m) <= Pow(2, n)
    decreases n
  {
    PowPositive(2, m);
    if m < n {
      PowMonotone(m, n - 1);
    }
  }

  lemma BytePower()
    ensures Pow(2, 8) == 256
  {
    PowAdd(2, 4, 4);
    assert Pow(2, 4) == 16;
  }

  lemma WordPower64()
    ensures Pow(2, 64) == 0x1_0000_0000_0000_0000
  {
    hide Pow;
    BytePower();
    PowAdd(2, 8, 8);
    PowAdd(2, 16, 16);
    PowAdd(2, 32, 32);
  }
}
