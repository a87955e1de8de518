/** The inverse transform: with d invertible modulo q, slot values determine the polynomial, by an explicit formula
    that follows from the trace lemma. */
module NttInverse {
  import opened Modular
  import opened Ring
  import opened Galois
  import opened Ntt

  /** The slot that evaluates at w^t. */
  function SlotFor(N: Slots, t: int): (s: nat)
    requires N.Ok() && OddBelow(t, N.d)
    ensures s < N.d && N.es[s] == t
  {
    N.at[(t - 1) / 2]
  }

  /** Every slot exponent is odd and below 2d. */
  predicate Odds(d: nat, ts: seq<int>) {
    forall j :: 0 <= j < |ts| ==> OddBelow(ts[j], d)
  }

  lemma SlotExpsBelow(d: nat)
    requires d > 0
    ensures Odds(d, SlotExps(d))
  {
    hide LeftExp, RightExp;
    SlotExpsOdd(d);
    forall j: nat
      ensures 0 <= LeftExp(d, j) < 2 * d && 0 <= RightExp(d, j) < 2 * d
    {
      ExponentsAre(d, j);
    }
    forall j | 0 <= j < |SlotExps(d)|
      ensures OddBelow(SlotExps(d)[j], d)
    {
      assert SlotExps(d)[j] % 2 == 1;
    }
  }

  /** w^(-k t) v(t) added up over the exponents ts. */
  function Weighted(N: Slots, v: seq<int>, k: int, ts: seq<int>, n: nat): (r: int)
    requires N.Ok() && |v| == N.d && Odds(N.d, ts) && n <= |ts|
  {
    if n == 0 then 0
    else Weighted(N, v, k, ts, n - 1) + Root(N, -k * ts[n - 1]) * v[SlotFor(N, ts[n - 1])]
  }

  lemma WeightedStep(N: Slots, v: seq<int>, k: int, ts: seq<int>, n: nat)
    requires N.Ok() && |v| == N.d && Odds(N.d, ts) && n < |ts|
    ensures OddBelow(ts[n], N.d) && SlotFor(N, ts[n]) < N.d && N.q > 0 && N.d > 0
    ensures Weighted(N, v, k, ts, 0) == 0
    ensures Weighted(N, v, k, ts, n + 1)
            == Weighted(N, v, k, ts, n) + Root(N, -k * ts[n]) * v[SlotFor(N, ts[n])]
  {
  }

  lemma WeightedNil(N: Slots, v: seq<int>, k: int, ts: seq<int>)
    requires N.Ok() && |v| == N.d && Odds(N.d, ts)
    ensures Weighted(N, v, k, ts, 0) == 0
  {
  }

  lemma SlotReads(N: Slots, p: Poly, t: int)
    requires N.Ok() && |p| == N.d && OddBelow(t, N.d)
    ensures N.q > 0 && N.d > 0 && t % 2 == 1 && Forward(N, p)[SlotFor(N, t)] == At(N, p, t)
  {
  }

  /** The weighted slot sum is the value at w of the images of X^-k p added up. */
  lemma {:induction false} WeightedIsTrace(N: Slots, p: Poly, k: int, ts: seq<int>, n: nat)
    requires N.Ok() && |p| == N.d && Canon(N.q, p) && Odds(N.d, ts) && n <= |ts|
    ensures N.q > 0 && N.d > 0
    ensures Same(N.q, Weighted(N, Forward(N, p), k, ts, n), At(N, ImageSum(N.q, Shift(N.q, p, -k), ts, n), 1))
  {
    hide *;
    SlotsSizes(N);
    var q, z := N.q, Shift(N.q, p, -k);
    if n == 0 {
      WeightedNil(N, Forward(N, p), k, ts);
      ImageSumNil(q, z, ts);
      AtZero(N, N.d, 1);
      SameIs(q, 0, 0);
    } else {
      var t := ts[n - 1];
      WeightedIsTrace(N, p, k, ts, n - 1);
      WeightedStep(N, Forward(N, p), k, ts, n - 1);
      ImageSumStep(q, z, ts, n - 1);
      SlotReads(N, p, t);
      AtAdd(N, ImageSum(q, z, ts, n - 1), Tau(q, z, t), 1);
      AtTau(N, z, t, 1);
      AtShift(N, p, -k, t);
      SumReduced(q, Weighted(N, Forward(N, p), k, ts, n - 1), At(N, ImageSum(q, z, ts, n - 1), 1),
                 Root(N, -k * t) * At(N, p, t), At(N, z, t * 1));
    }
  }

  lemma SumReduced(q: int, x: int, y: int, u: int, v: int)
    requires q > 0 && Same(q, x, y) && v == u % q
    ensures Same(q, x + u, (y + v) % q)
  {
    SameIs(q, x, y);
    ModAdd(x, u, q);
    ModAdd(y, v, q);
    ReduceTwice(u, q);
    ModSum(x, y, u, v, q);
    ReduceTwice(y + v, q);
    SameIs(q, x + u, (y + v) % q);
  }

  /** from_ntt: coefficient k is d^-1 times the weighted slot sum. */
  function Backward(N: Slots, dInv: int, v: seq<int>): (p: Poly)
    requires N.Ok() && |v| == N.d
    ensures |p| == N.d && N.q > 0 && Canon(N.q, p)
  {
    SlotExpsBelow(N.d);
    seq(N.d, k => (dInv * Weighted(N, v, k, SlotExps(N.d), |SlotExps(N.d)|)) % N.q)
  }

  lemma BackwardAt(N: Slots, dInv: int, v: seq<int>, k: nat)
    requires N.Ok() && |v| == N.d && k < N.d
    ensures Odds(N.d, SlotExps(N.d)) && N.q > 0
    ensures Backward(N, dInv, v)[k] == (dInv * Weighted(N, v, k, SlotExps(N.d), |SlotExps(N.d)|)) % N.q
  {
    SlotExpsBelow(N.d);
  }

  lemma UndoDegree(q: int, d: int, dInv: int, x: int, w: int)
    requires 0 <= x < q && Inverses(q, d, dInv) && Same(q, w, (d * x) % q)
    ensures (dInv * w) % q == x
  {
    SameIs(q, w, (d * x) % q);
    ReduceTwice(d * x, q);
    MulRight(dInv, w, q);
    MulRight(dInv, d * x, q);
    assert dInv * (d * x) == (d * dInv) * x;
    MulLeft(d * dInv, x, q);
    OneTimes(q, d * dInv, x);
  }

  lemma OneTimes(q: int, u: int, x: int)
    requires 0 <= x < q && u % q == 1 % q
    ensures (u * x) % q == x
  {
    MulLeft(u, x, q);
    MulLeft(1, x, q);
    assert 1 * x == x;
    ModSmall(x, q);
  }

  lemma TraceAtRoot(N: Slots, c: int)
    requires N.Ok()
    ensures N.q > 0 && N.d > 0 && At(N, Scale(N.q, c, Mono(N.q, N.d, 0)), 1) == c % N.q
  {
    hide *;
    SlotsSizes(N);
    AtScale(N, c, Mono(N.q, N.d, 0), 1);
    AtMono(N, 0, 1);
    RootZero(N);
    MulRight(c, 1, N.q);
    assert c * 1 == c && 0 * 1 == 0;
  }

  /** The transform of a reduced polynomial gives it back: the slots determine the polynomial. */
  lemma BackwardForward(N: Slots, dInv: int, p: Poly)
    requires N.Ok() && N.d >= 2 && Inverses(N.q, N.d, dInv) && |p| == N.d && Canon(N.q, p)
    ensures Backward(N, dInv, Forward(N, p)) == p
  {
    hide *;
    SlotsSizes(N);
    var q, d, ts := N.q, N.d, SlotExps(N.d);
    ExpsCount(d);
    forall k | 0 <= k < d
      ensures Backward(N, dInv, Forward(N, p))[k] == p[k]
    {
      var z := Shift(q, p, -k);
      BackwardAt(N, dInv, Forward(N, p), k);
      WeightedIsTrace(N, p, k, ts, d);
      TraceLemma(q, z);
      TraceAtRoot(N, d * z[0]);
      BackShift(q, p, k);
      CanonAt(q, p, k);
      UndoDegree(q, d, dInv, p[k], Weighted(N, Forward(N, p), k, ts, d));
    }
  }

  lemma ExpsCount(d: nat)
    requires d >= 2 && PowerOfTwo(d)
    ensures |SlotExps(d)| == d
  {
  }

  lemma BackShift(q: int, p: Poly, k: int)
    requires q > 0 && 0 <= k < |p| && Canon(q, p)
    ensures Shift(q, p, -k)[0] == p[k]
  {
    ExtInside(p, k);
    ModSmall(p[k], q);
  }
}
