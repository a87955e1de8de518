/** LWE ciphertexts and the wide intermediate ciphertext
    (inspiring/src/lwe.rs, inspiring/src/intermediate.rs). */
module Intermediate {
  import opened Modular
  import opened MachineWords
  import opened Ring
  import opened RingLaws
  import opened Galois

  datatype Lwe = Lwe(a: seq<int>, b: int)

  /** Wide ciphertext: d mask slots and one body polynomial. */
  datatype IrCtx = IrCtx(aHat: seq<Poly>, bTilde: Poly)

  /** Sum of a[i] * s[i] over i < n. */
  function Inner(a: seq<int>, s: seq<int>, n: nat): (r: int)
    requires n <= |a| && n <= |s|
  {
    if n == 0 then 0 else Inner(a, s, n - 1) + a[n - 1] * s[n - 1]
  }

  /** The embedding sum a[i] X^(-i), that is, a(X^-1). */
  function ATilde(q: int, a: seq<int>): (r: Poly)
    requires q > 0 && |a| > 0
    ensures |r| == |a| && Canon(q, r)
  {
    Tau(q, a, -1)
  }

  lemma NegativeShift(q: int, s: Poly, i: int)
    requires q > 0 && 0 <= i < |s| && Canon(q, s)
    ensures Mul(q, Mono(q, |s|, i * -1), s) == Shift(q, s, -i)
    ensures Shift(q, s, -i)[0] == s[i]
  {
    ExtInside(s, i);
    ModSmall(s[i], q);
    assert Shift(q, s, -i)[0] == s[i];
    hide *;
    assert i * -1 == -i;
    MulMono(q, s, -i);
    MulComm(q, s, Mono(q, |s|, -i));
  }

  /** s, X^-1 s, X^-2 s, ... */
  function BackShifts(q: int, s: Poly): (r: seq<Poly>)
    requires q > 0 && |s| > 0
    ensures |r| == |s|
    ensures forall i :: 0 <= i < |s| ==> r[i] == Shift(q, s, -i) && |r[i]| == |s|
  {
    seq(|s|, i => Shift(q, s, -i))
  }

  /** The constant coefficient of (sum a[i] X^(-i)) * s is the inner product of a and s. */
  lemma EmbeddingInnerProduct(q: int, a: seq<int>, s: Poly)
    requires q > 0 && |a| == |s| > 0 && Canon(q, s)
    ensures Mul(q, ATilde(q, a), s)[0] == Inner(a, s, |a|) % q
  {
    var d, rs := |a|, BackShifts(q, s);
    assert ATilde(q, a) == Comb(q, d, a, Powers(q, d, -1), d);
    hide *;
    forall i | 0 <= i < d
      ensures rs[i] == Mul(q, Powers(q, d, -1)[i], s) && rs[i][0] == s[i]
    {
      PowersAt(q, d, -1, i);
      NegativeShift(q, s, i);
    }
    MulCombLeft(q, d, a, Powers(q, d, -1), s, rs, d);
    CombCoeff(q, d, a, rs, 0, d);
    InnerIsCoeffSum(a, s, rs, d);
  }

  lemma {:induction false} InnerIsCoeffSum(a: seq<int>, s: seq<int>, rs: seq<Poly>, n: nat)
    requires n <= |a| && n <= |s| && n <= |rs|
    requires forall i :: 0 <= i < n ==> |rs[i]| > 0 && rs[i][0] == s[i]
    ensures CoeffSum(a, rs, 0, n) == Inner(a, s, n)
  {
    if n > 0 {
      InnerIsCoeffSum(a, s, rs, n - 1);
    }
  }

  // ----- stage 1 -----

  /** The constant polynomial c. */
  function Constant(q: int, d: nat, c: int): (r: Poly)
    requires q > 0 && d > 0
    ensures |r| == d && Canon(q, r)
  {
    Scale(q, c, Mono(q, d, 0))
  }

  /** The images of p under the slot exponents, each times c. */
  function ScaledImages(q: int, c: int, p: Poly, ts: seq<int>): (r: seq<Poly>)
    requires q > 0 && |p| > 0
    ensures |r| == |ts|
    ensures forall j :: 0 <= j < |ts| ==> r[j] == Scale(q, c, Tau(q, p, ts[j])) && |r[j]| == |p| && Canon(q, r[j])
  {
    seq(|ts|, j requires 0 <= j < |ts| => Scale(q, c, Tau(q, p, ts[j])))
  }

  /** The structured secret of the wide ciphertext: tau_j(s) for every slot j. */
  function Secrets(q: int, s: Poly, ts: seq<int>): (r: seq<Poly>)
    requires q > 0 && |s| > 0
    ensures |r| == |ts|
    ensures forall j :: 0 <= j < |ts| ==> r[j] == Tau(q, s, ts[j]) && |r[j]| == |s| && Canon(q, r[j])
  {
    seq(|ts|, j requires 0 <= j < |ts| => Tau(q, s, ts[j]))
  }

  function Transform(q: int, dInv: int, ct: Lwe): (r: IrCtx)
    requires q > 0 && |ct.a| > 0
    ensures |r.aHat| == 2 * (|ct.a| / 2) && |r.bTilde| == |ct.a|
    ensures forall j :: 0 <= j < |r.aHat| ==> |r.aHat[j]| == |ct.a| && Canon(q, r.aHat[j])
  {
    IrCtx(ScaledImages(q, dInv, ATilde(q, ct.a), SlotExps(|ct.a|)), Constant(q, |ct.a|, ct.b))
  }

  /** The phase of a wide ciphertext under the structured secret of s. */
  function WidePhase(q: int, d: nat, a: seq<Poly>, ss: seq<Poly>, b: Poly): (r: Poly)
    requires q > 0 && d > 0 && |a| <= |ss| && |b| == d
    requires forall i :: 0 <= i < |a| ==> |a[i]| == d && |ss[i]| == d
    ensures |r| == d && Canon(q, r)
  {
    Add(q, Dot(q, d, a, ss, |a|), b)
  }

  lemma {:induction false} ScaledImagesDot(q: int, c: int, p: Poly, s: Poly, ts: seq<int>, n: nat)
    requires q > 0 && |p| == |s| > 0 && Canon(q, s) && n <= |ts|
    requires forall j :: 0 <= j < |ts| ==> ts[j] % 2 == 1
    ensures Dot(q, |p|, ScaledImages(q, c, p, ts), Secrets(q, s, ts), n)
            == Scale(q, c, ImageSum(q, Mul(q, p, s), ts, n))
  {
    hide *;
    if n == 0 {
      DotNil(q, |p|, ScaledImages(q, c, p, ts), Secrets(q, s, ts));
      ImageSumNil(q, Mul(q, p, s), ts);
      ScaleZero(q, c, |p|);
    } else {
      var t := ts[n - 1];
      ScaledImagesDot(q, c, p, s, ts, n - 1);
      DotStep(q, |p|, ScaledImages(q, c, p, ts), Secrets(q, s, ts), n - 1);
      ImageSumStep(q, Mul(q, p, s), ts, n - 1);
      TauMul(q, p, s, t);
      MulScaleLeft(q, c, Tau(q, p, t), Tau(q, s, t));
      ScaleAdd(q, c, ImageSum(q, Mul(q, p, s), ts, n - 1), Tau(q, Mul(q, p, s), t));
    }
  }

  /** The mask slots alone, read under the structured secret, give the inner product <a, s>. */
  lemma TransformDot(q: int, dInv: int, a: seq<int>, s: Poly)
    requires q > 0 && |a| == |s| >= 2 && PowerOfTwo(|s|) && Canon(q, s)
    requires Inverses(q, |s|, dInv)
    ensures |SlotExps(|s|)| == |s|
    ensures Dot(q, |s|, ScaledImages(q, dInv, ATilde(q, a), SlotExps(|s|)), Secrets(q, s, SlotExps(|s|)), |s|)
            == Constant(q, |s|, Inner(a, s, |s|))
  {
    var d, ts, x := |s|, SlotExps(|s|), ATilde(q, a);
    assert 2 * (d / 2) == d;
    assert Constant(q, d, Inner(a, s, d)) == Scale(q, Inner(a, s, d), Mono(q, d, 0));
    hide *;
    SlotExpsOdd(d);
    ScaledImagesDot(q, dInv, x, s, ts, d);
    TraceLemma(q, Mul(q, x, s));
    EmbeddingInnerProduct(q, a, s);
    UndoTraceFactor(q, d, dInv, Mul(q, x, s)[0], Inner(a, s, d));
  }

  lemma ConstantSum(q: int, d: nat, c: int, e: int)
    requires q > 0 && d > 0
    ensures Constant(q, d, c + e) == Add(q, Constant(q, d, c), Constant(q, d, e))
  {
    ScaleSum(q, c, e, Mono(q, d, 0));
  }

  /** Stage 1: under the structured secret the phase is the constant b + <a, s>. */
  lemma TransformPhase(q: int, dInv: int, ct: Lwe, s: Poly)
    requires q > 0 && |ct.a| == |s| >= 2 && PowerOfTwo(|s|) && Canon(q, s)
    requires Inverses(q, |s|, dInv)
    ensures |SlotExps(|s|)| == |s|
    ensures var r := Transform(q, dInv, ct);
            WidePhase(q, |s|, r.aHat, Secrets(q, s, SlotExps(|s|)), r.bTilde)
            == Constant(q, |s|, Inner(ct.a, s, |s|) + ct.b)
  {
    hide *;
    TransformDot(q, dInv, ct.a, s);
    TransformParts(q, dInv, ct);
    var r, ts := Transform(q, dInv, ct), SlotExps(|s|);
    WidePhaseIs(q, |s|, r.aHat, Secrets(q, s, ts), r.bTilde);
    ConstantSum(q, |s|, Inner(ct.a, s, |s|), ct.b);
  }

  lemma TransformParts(q: int, dInv: int, ct: Lwe)
    requires q > 0 && |ct.a| > 0
    ensures Transform(q, dInv, ct).aHat == ScaledImages(q, dInv, ATilde(q, ct.a), SlotExps(|ct.a|))
    ensures Transform(q, dInv, ct).bTilde == Constant(q, |ct.a|, ct.b)
  {
  }

  lemma WidePhaseIs(q: int, d: nat, a: seq<Poly>, ss: seq<Poly>, b: Poly)
    requires q > 0 && d > 0 && |a| <= |ss| && |b| == d
    requires forall i :: 0 <= i < |a| ==> |a[i]| == d && |ss[i]| == d
    ensures WidePhase(q, d, a, ss, b) == Add(q, Dot(q, d, a, ss, |a|), b)
  {
  }

  lemma UndoTraceFactor(q: int, d: nat, dInv: int, m0: int, c: int)
    requires d > 0 && Inverses(q, d, dInv) && m0 == c % q
    ensures Scale(q, dInv, Scale(q, d * m0, Mono(q, d, 0))) == Scale(q, c, Mono(q, d, 0))
  {
    var one := Mono(q, d, 0);
    assert dInv * (d * m0) == (d * dInv) * m0;
    assert (dInv * (d * m0)) % q == c % q by {
      MulLeft(d * dInv, m0, q);
      MulLeft(1, m0, q);
      ModAdd(c, 0, q);
    }
    hide Scale, Mono;
    ScaleScale(q, dInv, d * m0, one);
    ScaleMod(q, dInv * (d * m0), one);
    ScaleMod(q, c, one);
  }

  // ----- stage 2 -----

  predicate CtxShape(q: int, d: nat, m: nat, c: IrCtx) {
    |c.aHat| == m && |c.bTilde| == d && forall j :: 0 <= j < m ==> |c.aHat[j]| == d && Canon(q, c.aHat[j])
  }

  predicate CtxShapes(q: int, d: nat, m: nat, ctxs: seq<IrCtx>) {
    forall k :: 0 <= k < |ctxs| ==> CtxShape(q, d, m, ctxs[k])
  }

  /** Slot j of every ciphertext. */
  function SlotColumn(q: int, d: nat, m: nat, ctxs: seq<IrCtx>, j: nat): (r: seq<Poly>)
    requires CtxShapes(q, d, m, ctxs) && j < m
    ensures |r| == |ctxs|
    ensures forall k :: 0 <= k < |ctxs| ==> r[k] == ctxs[k].aHat[j] && |r[k]| == d && Canon(q, r[k])
  {
    seq(|ctxs|, k requires 0 <= k < |ctxs| => assert CtxShape(q, d, m, ctxs[k]); ctxs[k].aHat[j])
  }

  function Bodies(q: int, d: nat, m: nat, ctxs: seq<IrCtx>): (r: seq<Poly>)
    requires CtxShapes(q, d, m, ctxs)
    ensures |r| == |ctxs| && forall k :: 0 <= k < |ctxs| ==> r[k] == ctxs[k].bTilde && |r[k]| == d
  {
    seq(|ctxs|, k requires 0 <= k < |ctxs| => assert CtxShape(q, d, m, ctxs[k]); ctxs[k].bTilde)
  }

  /** Stage 2: sum over k of X^k * ctxs[k], slot by slot. */
  function Aggregate(q: int, d: nat, m: nat, ctxs: seq<IrCtx>): (r: IrCtx)
    requires q > 0 && d > 0 && CtxShapes(q, d, m, ctxs)
    ensures |r.aHat| == m && |r.bTilde| == d
    ensures forall j :: 0 <= j < m ==>
              |r.aHat[j]| == d && Canon(q, r.aHat[j])
              && r.aHat[j] == ShiftSum(q, d, SlotColumn(q, d, m, ctxs, j), |ctxs|)
    ensures r.bTilde == ShiftSum(q, d, Bodies(q, d, m, ctxs), |ctxs|)
  {
    IrCtx(seq(m, j requires 0 <= j < m => ShiftSum(q, d, SlotColumn(q, d, m, ctxs, j), |ctxs|)),
          ShiftSum(q, d, Bodies(q, d, m, ctxs), |ctxs|))
  }

  /** The mask part of every ciphertext's phase, over its first n slots. */
  function PartialDots(q: int, d: nat, m: nat, ctxs: seq<IrCtx>, ss: seq<Poly>, n: nat): (r: seq<Poly>)
    requires q > 0 && d > 0 && CtxShapes(q, d, m, ctxs) && n <= m == |ss|
    requires forall j :: 0 <= j < m ==> |ss[j]| == d && Canon(q, ss[j])
    ensures |r| == |ctxs|
    ensures forall k :: 0 <= k < |ctxs| ==>
              CtxShape(q, d, m, ctxs[k]) && r[k] == Dot(q, d, ctxs[k].aHat, ss, n) && |r[k]| == d && Canon(q, r[k])
  {
    seq(|ctxs|, k requires 0 <= k < |ctxs| => assert CtxShape(q, d, m, ctxs[k]); Dot(q, d, ctxs[k].aHat, ss, n))
  }

  lemma {:induction false} AggregateDot(q: int, d: nat, m: nat, ctxs: seq<IrCtx>, ss: seq<Poly>, n: nat)
    requires q > 0 && d > 0 && CtxShapes(q, d, m, ctxs) && n <= m == |ss|
    requires forall j :: 0 <= j < m ==> |ss[j]| == d && Canon(q, ss[j])
    ensures Dot(q, d, Aggregate(q, d, m, ctxs).aHat, ss, n)
            == ShiftSum(q, d, PartialDots(q, d, m, ctxs, ss, n), |ctxs|)
  {
    hide *;
    if n == 0 {
      DotNil(q, d, Aggregate(q, d, m, ctxs).aHat, ss);
      forall k | 0 <= k < |ctxs|
        ensures PartialDots(q, d, m, ctxs, ss, 0)[k] == Zero(d)
      {
        DotNil(q, d, ctxs[k].aHat, ss);
      }
      ShiftSumZeros(q, d, PartialDots(q, d, m, ctxs, ss, 0), |ctxs|);
    } else {
      var j, N := n - 1, |ctxs|;
      var col := SlotColumn(q, d, m, ctxs, j);
      var prods := seq(N, k requires 0 <= k < N => Mul(q, col[k], ss[j]));
      AggregateDot(q, d, m, ctxs, ss, j);
      DotStep(q, d, Aggregate(q, d, m, ctxs).aHat, ss, j);
      ShiftSumMul(q, d, col, ss[j], prods, N);
      forall k | 0 <= k < N
        ensures PartialDots(q, d, m, ctxs, ss, n)[k] == Add(q, PartialDots(q, d, m, ctxs, ss, j)[k], prods[k])
      {
        CtxSlots(q, d, m, ctxs[k]);
        DotStep(q, d, ctxs[k].aHat, ss, j);
      }
      ShiftSumAdd(q, d, PartialDots(q, d, m, ctxs, ss, j), prods, PartialDots(q, d, m, ctxs, ss, n), N);
    }
  }

  lemma CtxSlots(q: int, d: nat, m: nat, c: IrCtx)
    requires CtxShape(q, d, m, c)
    ensures |c.aHat| == m && |c.bTilde| == d && forall j :: 0 <= j < m ==> |c.aHat[j]| == d && Canon(q, c.aHat[j])
  {
  }

  /** The phases of the inputs. */
  function Phases(q: int, d: nat, m: nat, ctxs: seq<IrCtx>, ss: seq<Poly>): (r: seq<Poly>)
    requires q > 0 && d > 0 && CtxShapes(q, d, m, ctxs) && m == |ss|
    requires forall j :: 0 <= j < m ==> |ss[j]| == d && Canon(q, ss[j])
    ensures |r| == |ctxs|
    ensures forall k :: 0 <= k < |ctxs| ==>
              CtxShape(q, d, m, ctxs[k]) && |r[k]| == d && r[k] == WidePhase(q, d, ctxs[k].aHat, ss, ctxs[k].bTilde)
  {
    seq(|ctxs|, k requires 0 <= k < |ctxs| =>
      assert CtxShape(q, d, m, ctxs[k]); WidePhase(q, d, ctxs[k].aHat, ss, ctxs[k].bTilde))
  }

  /** Stage 2 is homomorphic: the aggregate's phase is the sum of X^k times the k-th phase. */
  lemma AggregatePhase(q: int, d: nat, m: nat, ctxs: seq<IrCtx>, ss: seq<Poly>)
    requires q > 0 && d > 0 && CtxShapes(q, d, m, ctxs) && m == |ss|
    requires forall j :: 0 <= j < m ==> |ss[j]| == d && Canon(q, ss[j])
    ensures var r := Aggregate(q, d, m, ctxs);
            WidePhase(q, d, r.aHat, ss, r.bTilde) == ShiftSum(q, d, Phases(q, d, m, ctxs, ss), |ctxs|)
  {
    hide *;
    var r, dots, N := Aggregate(q, d, m, ctxs), PartialDots(q, d, m, ctxs, ss, m), |ctxs|;
    AggregateDot(q, d, m, ctxs, ss, m);
    WidePhaseIs(q, d, r.aHat, ss, r.bTilde);
    forall k | 0 <= k < N
      ensures Phases(q, d, m, ctxs, ss)[k] == Add(q, dots[k], Bodies(q, d, m, ctxs)[k])
    {
      CtxSlots(q, d, m, ctxs[k]);
      WidePhaseIs(q, d, ctxs[k].aHat, ss, ctxs[k].bTilde);
    }
    ShiftSumAdd(q, d, dots, Bodies(q, d, m, ctxs), Phases(q, d, m, ctxs, ss), N);
  }

  // ----- the packed message -----

  /** Coefficient k is <a_k, s> + b_k, the value ciphertext k decrypts to. */
  function Message(q: int, cts: seq<Lwe>, s: Poly): (r: Poly)
    requires q > 0 && forall k :: 0 <= k < |cts| ==> |cts[k].a| == |s|
    ensures |r| == |cts| && Canon(q, r)
    ensures forall k :: 0 <= k < |cts| ==> r[k] == (Inner(cts[k].a, s, |s|) + cts[k].b) % q
  {
    seq(|cts|, k requires 0 <= k < |cts| => (Inner(cts[k].a, s, |s|) + cts[k].b) % q)
  }

  function Transforms(q: int, d: nat, dInv: int, cts: seq<Lwe>): (r: seq<IrCtx>)
    requires q > 0 && d > 0 && forall k :: 0 <= k < |cts| ==> |cts[k].a| == d
    ensures |r| == |cts| && forall k :: 0 <= k < |cts| ==> r[k] == Transform(q, dInv, cts[k])
    ensures CtxShapes(q, d, 2 * (d / 2), r)
  {
    seq(|cts|, k requires 0 <= k < |cts| => Transform(q, dInv, cts[k]))
  }

  lemma ConstantShift(q: int, d: nat, c: int, k: int)
    requires q > 0 && d > 0
    ensures Shift(q, Constant(q, d, c), k) == Scale(q, c % q, Mono(q, d, k))
  {
    ShiftScale(q, c, Mono(q, d, 0), k);
    MonoShift(q, d, 0, k);
    ScaleMod(q, c, Mono(q, d, k));
  }

  /** Adding up X^k * m_k rebuilds the polynomial with coefficients m_k. */
  lemma {:induction false} ShiftedConstants(q: int, ms: Poly, ps: seq<Poly>, n: nat)
    requires q > 0 && |ms| > 0 && n <= |ms| && n <= |ps| && Canon(q, ms)
    requires forall k :: 0 <= k < n ==> |ps[k]| == |ms| && ps[k] == Constant(q, |ms|, ms[k])
    ensures ShiftSum(q, |ms|, ps, n) == Comb(q, |ms|, ms, Powers(q, |ms|, 1), n)
  {
    if n > 0 {
      var d, m := |ms|, n - 1;
      ShiftedConstants(q, ms, ps, m);
      ModSmall(ms[m], q);
      ConstantShift(q, d, ms[m], m);
      PowersAt(q, d, 1, m);
    }
  }

  lemma ConstantMod(q: int, d: nat, c: int)
    requires q > 0 && d > 0
    ensures Constant(q, d, c) == Constant(q, d, c % q)
  {
    ScaleMod(q, c, Mono(q, d, 0));
  }

  lemma SlotCount(d: nat)
    requires d >= 2 && PowerOfTwo(d)
    ensures 2 * (d / 2) == d
  {
  }

  /** Stages 1 and 2: aggregating the transformed batch hides exactly the packed message. */
  lemma PackedPhase(q: int, dInv: int, cts: seq<Lwe>, s: Poly)
    requires q > 0 && |cts| == |s| >= 2 && PowerOfTwo(|s|) && Canon(q, s) && Inverses(q, |s|, dInv)
    requires forall k :: 0 <= k < |cts| ==> |cts[k].a| == |s|
    ensures |SlotExps(|s|)| == |s|
    ensures var r := Aggregate(q, |s|, 2 * (|s| / 2), Transforms(q, |s|, dInv, cts));
            WidePhase(q, |s|, r.aHat, Secrets(q, s, SlotExps(|s|)), r.bTilde) == Message(q, cts, s)
  {
    hide *;
    var d, ms, ts := |s|, Message(q, cts, s), SlotExps(|s|);
    var ctxs, ss := Transforms(q, d, dInv, cts), Secrets(q, s, ts);
    var ps := Phases(q, d, 2 * (d / 2), ctxs, ss);
    AggregatePhase(q, d, 2 * (d / 2), ctxs, ss);
    SlotCount(d);
    forall k | 0 <= k < d
      ensures ps[k] == Constant(q, d, ms[k])
    {
      TransformPhase(q, dInv, cts[k], s);
      ConstantMod(q, d, Inner(cts[k].a, s, d) + cts[k].b);
    }
    ShiftedConstants(q, ms, ps, d);
    Decompose(q, ms);
  }

  // ----- the program's loops -----

  lemma NegatedResidue(q: int, c: int)
    requires q > 0
    ensures (0 + c * -1) % q == if c % q == 0 then 0 else q - c % q
  {
    var r := c % q;
    SubRight(0, c, q);
    assert c * -1 == 0 - c;
    if r == 0 {
      ModSmall(0, q);
    } else {
      ModMultiple(-r, 1, q);
      ModSmall(q - r, q);
    }
  }

  lemma BackSlot(d: nat, i: int)
    requires 0 < i < d
    ensures SlotOf(d, i * -1) == d - i && SignOf(d, i * -1) == -1
  {
    ModMultiple(i * -1, 1, 2 * d);
    ModSmall(2 * d - i, 2 * d);
  }

  /** The embedding of the first n coefficients. */
  function ATildeTo(q: int, a: seq<int>, n: nat): (r: Poly)
    requires q > 0 && 0 < |a| && n <= |a|
    ensures |r| == |a| && Canon(q, r)
    ensures n == |a| ==> r == ATilde(q, a)
    ensures n == 0 ==> r == Zero(|a|)
  {
    Comb(q, |a|, a, Powers(q, |a|, -1), n)
  }

  /** The next coefficient lands on one still-zero slot. */
  lemma ATildeStep(q: int, a: seq<int>, i: nat)
    requires q > 0 && i < |a|
    ensures var x := ATildeTo(q, a, i);
            && (i == 0 ==> ATildeTo(q, a, 1) == x[0 := a[0] % q])
            && (i > 0 && x[|a| - i] == 0 ==>
                ATildeTo(q, a, i + 1) == x[|a| - i := if a[i] % q == 0 then 0 else q - a[i] % q])
  {
    var d, x := |a|, ATildeTo(q, a, i);
    CombStep(q, d, a, Powers(q, d, -1), i);
    PowersAt(q, d, -1, i);
    hide Comb, Powers, Scale, Add, Mono;
    ScatterAdd(q, x, a[i], i * -1);
    if i == 0 {
      ModSmall(0, 2 * d);
      assert 0 * -1 == 0;
    } else {
      BackSlot(d, i);
      NegatedResidue(q, a[i]);
    }
  }

  /** a_tilde: writes a[0] at 0 and -a[i] at d - i. */
  method ATildeRun(q: int, a: seq<int>) returns (poly: array<int>)
    requires q > 0 && |a| > 0
    ensures fresh(poly) && poly[..] == ATilde(q, a)
  {
    hide *;
    var d := |a|;
    poly := new int[d](_ => 0);
    ZeroAt(d);
    assert poly[..] == Zero(d);
    ATildeStep(q, a, 0);
    poly[0] := a[0] % q;
    assert poly[..] == Zero(d)[0 := a[0] % q];
    for i := 1 to d
      invariant poly[..] == ATildeTo(q, a, i)
      invariant forall k :: 0 < k <= d - i ==> poly[k] == 0
    {
      ghost var before := poly[..];
      assert before[d - i] == 0;
      ATildeStep(q, a, i);
      var reduced := a[i] % q;
      poly[d - i] := if reduced == 0 then 0 else q - reduced;
      assert poly[..] == before[d - i := poly[d - i]];
    }
  }

  lemma ZeroAt(d: nat)
    ensures forall i :: 0 <= i < d ==> Zero(d)[i] == 0
  {
  }

  /** transform: both halves of the slots are filled from one exponent per round. */
  method TransformRun(q: int, dInv: int, ct: Lwe) returns (r: IrCtx)
    requires q > 0 && |ct.a| > 0 && |ct.a| % 2 == 0
    ensures r == Transform(q, dInv, ct)
  {
    hide *;
    var d := |ct.a|;
    var n := d / 2;
    var aTilde := ATildeRun(q, ct.a);
    var x := aTilde[..];
    var slots := new Poly[d](_ => Zero(d));
    SlotExpsAt(d);
    ghost var want := ScaledImages(q, dInv, x, SlotExps(d));
    for j := 0 to n
      invariant forall i :: 0 <= i < j ==> slots[i] == want[i]
      invariant forall i :: n <= i < n + j ==> slots[i] == want[i]
    {
      var gj := TauGPow(j, d);
      LeftExpIs(d, j);
      slots[j] := Scale(q, dInv, Tau(q, x, gj));
      slots[j + n] := Scale(q, dInv, Tau(q, x, TimesH(d, gj)));
    }
    assert slots[..] == want;
    TransformParts(q, dInv, ct);
    r := IrCtx(slots[..], Constant(q, d, ct.b));
  }

  lemma LeftExpIs(d: nat, j: nat)
    requires d > 0
    ensures LeftExp(d, j) == Pow(5, j) % (2 * d)
    ensures RightExp(d, j) == TimesH(d, LeftExp(d, j))
  {
  }

  lemma SlotExpsAt(d: nat)
    requires d > 0
    ensures forall i :: 0 <= i < d / 2 ==> SlotExps(d)[i] == LeftExp(d, i)
    ensures forall i :: d / 2 <= i < 2 * (d / 2) ==> SlotExps(d)[i] == RightExp(d, i - d / 2)
  {
    hide LeftExp, RightExp;
  }

  /** mul_raw_by_xk: multiplies by X^(k mod d), so it is X^k only for k < d. */
  method MulRawByXk(q: int, poly: Poly, k: nat) returns (out: array<int>)
    requires q > 0 && |poly| > 0
    ensures fresh(out) && out[..] == Shift(q, poly, k % |poly|)
  {
    var d := |poly|;
    out := new int[d](_ => 0);
    var shift := k % d;
    for idx := 0 to d
      invariant forall t :: 0 <= t < d && (shift <= t < shift + idx || t < shift + idx - d) ==>
                  out[t] == Shift(q, poly, shift)[t]
    {
      var reduced := poly[idx] % q;
      var target := idx + shift;
      ShiftEntry(q, poly, shift, idx);
      if target < d {
        out[target] := reduced;
      } else {
        out[target - d] := if reduced == 0 then 0 else q - reduced;
      }
    }
  }

  lemma ShiftEntry(q: int, p: Poly, s: nat, i: nat)
    requires q > 0 && i < |p| && s < |p|
    ensures i + s < |p| ==> Shift(q, p, s)[i + s] == p[i] % q
    ensures i + s >= |p| ==> Shift(q, p, s)[i + s - |p|] == if p[i] % q == 0 then 0 else q - p[i] % q
  {
    ExtInside(p, i);
    NegatedResidue(q, p[i]);
    if i + s >= |p| {
      ExtAnti(p, i - |p|);
    }
  }

  /** add_assign_raw_mod: 64-bit sums, reduced. */
  method AddAssignRawMod(q: int, x: Poly, y: Poly) returns (r: Poly)
    requires 0 < q < WORD && |x| == |y| && Canon(q, x) && Canon(q, y)
    ensures |r| == |x| && Canon(q, r)
    ensures q <= HALF ==> r == Add(q, x, y)
  {
    hide *;
    var out := new int[|x|](_ => 0);
    for i := 0 to |x|
      invariant forall k :: 0 <= k < |x| ==> 0 <= out[k] < q
      invariant q <= HALF ==> forall k :: 0 <= k < i ==> out[k] == Add(q, x, y)[k]
    {
      CanonAt(q, x, i);
      CanonAt(q, y, i);
      AddAt(q, x, y, i);
      if q <= HALF {
        ReducedSumIs(x[i], y[i], q);
      }
      out[i] := ReducedSum(x[i], y[i], q);
    }
    r := out[..];
    CanonFrom(q, r);
    assert q <= HALF ==> r == Add(q, x, y);
  }

  lemma AddAt(q: int, x: Poly, y: Poly, i: nat)
    requires q > 0 && |x| == |y| && i < |x|
    ensures Add(q, x, y)[i] == (x[i] + y[i]) % q
  {
  }

  lemma CanonFrom(q: int, p: Poly)
    requires forall i :: 0 <= i < |p| ==> 0 <= p[i] < q
    ensures Canon(q, p)
  {
  }

  /** aggregate: adds X^k times ciphertext k into every slot and into the body. */
  method AggregateRun(q: int, d: nat, m: nat, ctxs: seq<IrCtx>) returns (r: IrCtx)
    requires 0 < q < WORD && d > 0 && CtxShapes(q, d, m, ctxs) && |ctxs| <= d
    ensures q <= HALF ==> r == Aggregate(q, d, m, ctxs)
  {
    hide *;
    var slots := new Poly[m](_ => Zero(d));
    var body := Zero(d);
    ghost var agg := Aggregate(q, d, m, ctxs);
    forall j | 0 <= j < m
      ensures slots[j] == ShiftSum(q, d, SlotColumn(q, d, m, ctxs, j), 0)
    {
      ShiftSumNil(q, d, SlotColumn(q, d, m, ctxs, j));
    }
    ShiftSumNil(q, d, Bodies(q, d, m, ctxs));
    for k := 0 to |ctxs|
      invariant forall j :: 0 <= j < m ==> slots[j] == ShiftSum(q, d, SlotColumn(q, d, m, ctxs, j), k)
      invariant |body| == d && Canon(q, body)
      invariant q <= HALF ==> body == ShiftSum(q, d, Bodies(q, d, m, ctxs), k)
    {
      CtxAt(q, d, m, ctxs, k);
      for j := 0 to m
        invariant forall i :: 0 <= i < j ==> slots[i] == ShiftSum(q, d, SlotColumn(q, d, m, ctxs, i), k + 1)
        invariant forall i :: j <= i < m ==> slots[i] == ShiftSum(q, d, SlotColumn(q, d, m, ctxs, i), k)
      {
        var slot := ctxs[k].aHat[j];
        MulMono(q, slot, k);
        ShiftSumStep(q, d, SlotColumn(q, d, m, ctxs, j), k);
        slots[j] := Add(q, slots[j], Mul(q, slot, Mono(q, d, k)));
      }
      var shifted := MulRawByXk(q, ctxs[k].bTilde, k);
      ModSmall(k, d);
      ShiftSumStep(q, d, Bodies(q, d, m, ctxs), k);
      body := AddAssignRawMod(q, body, shifted[..]);
    }
    assert slots[..] == agg.aHat;
    r := IrCtx(slots[..], body);
  }

  lemma CtxAt(q: int, d: nat, m: nat, ctxs: seq<IrCtx>, k: nat)
    requires CtxShapes(q, d, m, ctxs) && k < |ctxs|
    ensures |ctxs[k].aHat| == m && |ctxs[k].bTilde| == d
    ensures forall j :: 0 <= j < m ==> |ctxs[k].aHat[j]| == d && Canon(q, ctxs[k].aHat[j])
  {
    assert CtxShape(q, d, m, ctxs[k]);
  }

  /** trace: adds both images of every round, left exponent first; by the trace lemma only d p[0] survives. */
  method TraceRun(q: int, p: Poly) returns (out: Poly)
    requires 0 < q < WORD && |p| >= 2 && PowerOfTwo(|p|) && Canon(q, p)
    ensures q <= HALF ==> out == Constant(q, |p|, |p| * p[0])
  {
    hide *;
    var d := |p|;
    SlotCount(d);
    var n := d / 2;
    out := Zero(d);
    ImageSumNil(q, p, LeftExps(d, n));
    ImageSumNil(q, p, RightExps(d, n));
    ZeroCanon(q, d);
    AddZero(q, Zero(d));
    for j := 0 to n
      invariant |out| == d && Canon(q, out)
      invariant q <= HALF ==> out == Add(q, ImageSum(q, p, LeftExps(d, n), j), ImageSum(q, p, RightExps(d, n), j))
    {
      var gj := TauGPow(j, d);
      LeftExpIs(d, j);
      var left := Tau(q, p, gj);
      var right := Tau(q, p, TimesH(d, gj));
      ImageSumStep(q, p, LeftExps(d, n), j);
      ImageSumStep(q, p, RightExps(d, n), j);
      TraceRound(q, ImageSum(q, p, LeftExps(d, n), j), ImageSum(q, p, RightExps(d, n), j), left, right);
      out := AddAssignRawMod(q, out, left);
      out := AddAssignRawMod(q, out, right);
    }
    SlotExpsParts(d);
    ImageSumConcat(q, p, LeftExps(d, n), RightExps(d, n), n);
    TraceLemma(q, p);
    ConstantIs(q, d, d * p[0]);
  }

  lemma TraceRound(q: int, a: Poly, b: Poly, x: Poly, y: Poly)
    requires q > 0 && |a| == |b| == |x| == |y|
    ensures Add(q, Add(q, Add(q, a, b), x), y) == Add(q, Add(q, a, x), Add(q, b, y))
  {
    AddAssoc(q, Add(q, a, b), x, y);
    AddSwap(q, a, b, x, y);
  }

  lemma SlotExpsParts(d: nat)
    requires d > 0
    ensures SlotExps(d) == LeftExps(d, d / 2) + RightExps(d, d / 2)
  {
  }

  lemma ConstantIs(q: int, d: nat, c: int)
    requires q > 0 && d > 0
    ensures Constant(q, d, c) == Scale(q, c, Mono(q, d, 0))
  {
  }
}
