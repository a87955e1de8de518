/** Stage 3: the cascade from the wide ciphertext to an RLWE pair (inspiring/src/collapse.rs). */
module Collapse {
  import opened Ring
  import opened RingLaws
  import opened KeySwitch
  import opened Intermediate

  /** Modulus, degree, gadget base and gadget length. */
  datatype Setting = Setting(q: int, d: nat, z: int, ell: nat) {
    predicate Ok() {
      d > 0 && GadgetFits(q, z, ell)
    }
  }

  /** A running collapse state as a value: remaining mask slots and the body. */
  datatype Wide = Wide(a: seq<Poly>, b: Poly)

  predicate WideOk(S: Setting, st: Wide) {
    S.Ok() && |st.a| > 0 && Elems(S.q, S.d, st.a) && Elem(S.q, S.d, st.b)
  }

  predicate KeysOk(S: Setting, ks: seq<Key>) {
    forall i :: 0 <= i < |ks| ==> Shaped(S.q, S.d, S.ell, ks[i])
  }

  predicate ErrsOk(S: Setting, errs: seq<seq<Poly>>) {
    forall i :: 0 <= i < |errs| ==> |errs[i]| == S.ell && Elems(S.q, S.d, errs[i])
  }

  /** One cascade step with given digits for the last slot. */
  function StepDigits(S: Setting, st: Wide, k: Key, digits: seq<Poly>): (r: Wide)
    requires WideOk(S, st) && |st.a| >= 2 && Shaped(S.q, S.d, S.ell, k)
    requires |digits| == S.ell && forall i :: 0 <= i < S.ell ==> |digits[i]| == S.d
    ensures WideOk(S, r) && |r.a| == |st.a| - 1
  {
    var n := |st.a|;
    var delta := SwitchWithDigits(S.q, S.d, k, digits, st.b);
    Wide(st.a[..n - 1][n - 2 := Add(S.q, st.a[n - 2], delta.a)], delta.b)
  }

  function DigitsOf(S: Setting, c: Poly): (r: seq<Poly>)
    requires S.Ok() && |c| == S.d
    ensures |r| == S.ell && forall i :: 0 <= i < S.ell ==> |r[i]| == S.d
  {
    GadgetDigits(S.q, S.z, S.ell, c)
  }

  function StepOne(S: Setting, st: Wide, k: Key): (r: Wide)
    requires WideOk(S, st) && |st.a| >= 2 && Shaped(S.q, S.d, S.ell, k)
    ensures WideOk(S, r) && |r.a| == |st.a| - 1
  {
    StepDigits(S, st, k, DigitsOf(S, st.a[|st.a| - 1]))
  }

  /** Steps until one slot is left, using image i - 2 when i slots remain. */
  function Half(S: Setting, st: Wide, images: seq<Key>): (r: Wide)
    requires WideOk(S, st) && KeysOk(S, images) && |st.a| <= |images| + 1
    ensures WideOk(S, r) && |r.a| == 1
    decreases |st.a|
  {
    if |st.a| == 1 then st else Half(S, StepOne(S, st, images[|st.a| - 2]), images)
  }

  /** The error the half cascade adds, one switch error per step. */
  function HalfError(S: Setting, st: Wide, images: seq<Key>, errs: seq<seq<Poly>>): (r: Poly)
    requires WideOk(S, st) && KeysOk(S, images) && |st.a| <= |images| + 1 && |errs| == |images|
    requires ErrsOk(S, errs)
    ensures |r| == S.d && Canon(S.q, r)
    decreases |st.a|
  {
    var n := |st.a|;
    if n == 1 then Zero(S.d)
    else
      assert Elems(S.q, S.d, errs[n - 2]);
      Add(S.q, SwitchError(S.q, S.z, S.ell, S.d, errs[n - 2], st.a[n - 1]),
             HalfError(S, StepOne(S, st, images[n - 2]), images, errs))
  }

  lemma StepParts(S: Setting, st: Wide, k: Key)
    requires WideOk(S, st) && |st.a| >= 2 && Shaped(S.q, S.d, S.ell, k)
    ensures var n, r, p := |st.a|, StepOne(S, st, k), KsSwitch(S.q, S.z, S.ell, S.d, k, st.a[|st.a| - 1], st.b);
            && |r.a| == n - 1 && r.a[n - 2] == Add(S.q, st.a[n - 2], p.a) && r.b == p.b
            && forall i :: 0 <= i < n - 2 ==> r.a[i] == st.a[i]
  {
  }

  lemma WideSizes(S: Setting, st: Wide)
    requires WideOk(S, st)
    ensures S.q > 0 && S.d > 0 && S.z >= 2 && S.ell > 0 && GadgetFits(S.q, S.z, S.ell)
    ensures |st.b| == S.d && Elem(S.q, S.d, st.b)
    ensures forall i :: 0 <= i < |st.a| ==> |st.a[i]| == S.d && Elem(S.q, S.d, st.a[i])
  {
  }

  lemma ElemsSizes(q: int, d: nat, ps: seq<Poly>)
    requires Elems(q, d, ps)
    ensures forall i :: 0 <= i < |ps| ==> |ps[i]| == d && Canon(q, ps[i]) && Elem(q, d, ps[i])
  {
  }

  /** Splits the last two slots off a dot product. */
  lemma DotLastTwo(q: int, d: nat, a: seq<Poly>, ss: seq<Poly>, n: nat)
    requires q > 0 && d > 0 && 2 <= n <= |a| && n <= |ss|
    requires forall i :: 0 <= i < n ==> |a[i]| == d && |ss[i]| == d
    ensures Dot(q, d, a, ss, n)
            == Add(q, Add(q, Dot(q, d, a, ss, n - 2), Mul(q, a[n - 2], ss[n - 2])), Mul(q, a[n - 1], ss[n - 1]))
  {
    hide *;
    DotStep(q, d, a, ss, n - 2);
    DotStep(q, d, a, ss, n - 1);
  }

  /** One CollapseOne changes the wide phase by its own switch error only. */
  lemma StepOnePhase(S: Setting, st: Wide, k: Key, ss: seq<Poly>, es: seq<Poly>)
    requires WideOk(S, st) && |st.a| >= 2 && |st.a| <= |ss| && Elems(S.q, S.d, ss)
    requires Shaped(S.q, S.d, S.ell, k) && |es| == S.ell && Elems(S.q, S.d, es)
    requires Switches(S.q, S.z, S.d, S.ell, k, ss[|st.a| - 1], ss[|st.a| - 2], es)
    ensures var r := StepOne(S, st, k);
            WidePhase(S.q, S.d, r.a, ss, r.b)
            == Add(S.q, WidePhase(S.q, S.d, st.a, ss, st.b), SwitchError(S.q, S.z, S.ell, S.d, es, st.a[|st.a| - 1]))
  {
    hide *;
    WideSizes(S, st);
    ElemsSizes(S.q, S.d, ss);
    ElemsSizes(S.q, S.d, es);
    var q, d, n := S.q, S.d, |st.a|;
    var r, x := StepOne(S, st, k), st.a[n - 1];
    WideSizes(S, r);
    var p := KsSwitch(q, S.z, S.ell, d, k, x, st.b);
    StepParts(S, st, k);
    DotPrefix(q, d, r.a, ss, st.a, ss, n - 2);
    DotStep(q, d, r.a, ss, n - 2);
    DotLastTwo(q, d, st.a, ss, n);
    WidePhaseIs(q, d, r.a, ss, r.b);
    WidePhaseIs(q, d, st.a, ss, st.b);
    KsSwitchPhase(q, S.z, S.ell, d, k, ss[n - 1], ss[n - 2], es, x, st.b);
    StepAlgebra(q, Dot(q, d, st.a, ss, n - 2), st.a[n - 2], p.a, ss[n - 2], p.b, Mul(q, x, ss[n - 1]), st.b,
                SwitchError(q, S.z, S.ell, d, es, x));
  }

  /** (h + (y + a) s) + b == ((h + y s) + x) + c + e when a s + b == (x + c) + e. */
  lemma StepAlgebra(q: int, h: Poly, y: Poly, a: Poly, s: Poly, b: Poly, x: Poly, c: Poly, e: Poly)
    requires q > 0 && |h| == |y| == |a| == |s| == |b| == |x| == |c| == |e| > 0
    requires Add(q, Mul(q, a, s), b) == Add(q, Add(q, x, c), e)
    ensures Add(q, Add(q, h, Mul(q, Add(q, y, a), s)), b)
            == Add(q, Add(q, Add(q, Add(q, h, Mul(q, y, s)), x), c), e)
  {
    hide *;
    var u, v, g := Mul(q, y, s), Mul(q, a, s), Add(q, h, Mul(q, y, s));
    MulAddLeft(q, y, a, s);
    AddAssoc(q, h, u, v);
    AddAssoc(q, g, v, b);
    AddAssoc(q, g, Add(q, x, c), e);
    AddAssoc(q, g, x, c);
  }

  /** Every image i switches slot secret i + 1 to slot secret i. */
  ghost predicate Chain(S: Setting, images: seq<Key>, ss: seq<Poly>, errs: seq<seq<Poly>>) {
    && |ss| == |images| + 1 && |errs| == |images|
    && forall i :: 0 <= i < |images| ==> Switches(S.q, S.z, S.d, S.ell, images[i], ss[i + 1], ss[i], errs[i])
  }

  lemma {:induction false} HalfPhase(S: Setting, st: Wide, images: seq<Key>, ss: seq<Poly>, errs: seq<seq<Poly>>)
    requires WideOk(S, st) && KeysOk(S, images) && |st.a| <= |images| + 1
    requires Elems(S.q, S.d, ss) && Chain(S, images, ss, errs)
    ensures ErrsOk(S, errs)
    ensures var r := Half(S, st, images);
            WidePhase(S.q, S.d, r.a, ss, r.b)
            == Add(S.q, WidePhase(S.q, S.d, st.a, ss, st.b), HalfError(S, st, images, errs))
    decreases |st.a|
  {
    ChainErrors(S, images, ss, errs);
    var w := WidePhase(S.q, S.d, st.a, ss, st.b);
    if |st.a| == 1 {
      AddZero(S.q, w);
    } else {
      var n := |st.a|;
      var next := StepOne(S, st, images[n - 2]);
      var e := SwitchError(S.q, S.z, S.ell, S.d, errs[n - 2], st.a[n - 1]);
      assert Half(S, st, images) == Half(S, next, images);
      assert HalfError(S, st, images, errs) == Add(S.q, e, HalfError(S, next, images, errs));
      StepOnePhase(S, st, images[n - 2], ss, errs[n - 2]);
      HalfPhase(S, next, images, ss, errs);
      AddAssoc(S.q, w, e, HalfError(S, next, images, errs));
    }
  }

  lemma ChainErrors(S: Setting, images: seq<Key>, ss: seq<Poly>, errs: seq<seq<Poly>>)
    requires Chain(S, images, ss, errs)
    ensures |ss| == |images| + 1 && |errs| == |images| && ErrsOk(S, errs)
  {
    forall i | 0 <= i < |errs|
      ensures |errs[i]| == S.ell && Elems(S.q, S.d, errs[i])
    {
      assert Switches(S.q, S.z, S.d, S.ell, images[i], ss[i + 1], ss[i], errs[i]);
    }
  }

  // ----- the full collapse -----

  predicate CollapseOk(S: Setting, agg: IrCtx, left: seq<Key>, right: seq<Key>, kh: Key) {
    && S.Ok() && |left| == |right| && |agg.aHat| == 2 * (|left| + 1)
    && Elems(S.q, S.d, agg.aHat) && Elem(S.q, S.d, agg.bTilde)
    && KeysOk(S, left) && KeysOk(S, right) && Shaped(S.q, S.d, S.ell, kh)
  }

  function LeftHalf(S: Setting, agg: IrCtx, left: seq<Key>, right: seq<Key>, kh: Key): (r: Wide)
    requires CollapseOk(S, agg, left, right, kh)
    ensures WideOk(S, r) && |r.a| == 1
  {
    Half(S, Wide(agg.aHat[..|left| + 1], agg.bTilde), left)
  }

  function RightHalf(S: Setting, agg: IrCtx, left: seq<Key>, right: seq<Key>, kh: Key): (r: Wide)
    requires CollapseOk(S, agg, left, right, kh)
    ensures WideOk(S, r) && |r.a| == 1
  {
    Half(S, Wide(agg.aHat[|left| + 1..], LeftHalf(S, agg, left, right, kh).b), right)
  }

  /** The two survivors, joined for the final switch. */
  function Joined(S: Setting, agg: IrCtx, left: seq<Key>, right: seq<Key>, kh: Key): (r: Wide)
    requires CollapseOk(S, agg, left, right, kh)
    ensures WideOk(S, r) && |r.a| == 2
  {
    var l, r := LeftHalf(S, agg, left, right, kh), RightHalf(S, agg, left, right, kh);
    Wide([l.a[0], r.a[0]], r.b)
  }

  function CollapseAll(S: Setting, agg: IrCtx, left: seq<Key>, right: seq<Key>, kh: Key): (r: Pair)
    requires CollapseOk(S, agg, left, right, kh)
    ensures |r.a| == S.d && |r.b| == S.d && Canon(S.q, r.a) && Canon(S.q, r.b)
  {
    var f := StepOne(S, Joined(S, agg, left, right, kh), kh);
    Pair(f.a[0], f.b)
  }

  /** All errors of a collapse: the left half's, the right half's and the final switch's. */
  function CollapseError(S: Setting, agg: IrCtx, left: seq<Key>, right: seq<Key>, kh: Key,
                         leftErrs: seq<seq<Poly>>, rightErrs: seq<seq<Poly>>, eh: seq<Poly>): (r: Poly)
    requires CollapseOk(S, agg, left, right, kh)
    requires |leftErrs| == |left| && |rightErrs| == |right| && ErrsOk(S, leftErrs) && ErrsOk(S, rightErrs)
    requires |eh| == S.ell && Elems(S.q, S.d, eh)
    ensures |r| == S.d && Canon(S.q, r)
  {
    var n := |left| + 1;
    Add(S.q,
        Add(S.q, HalfError(S, Wide(agg.aHat[..n], agg.bTilde), left, leftErrs),
            HalfError(S, Wide(agg.aHat[n..], LeftHalf(S, agg, left, right, kh).b), right, rightErrs)),
        SwitchError(S.q, S.z, S.ell, S.d, eh, Joined(S, agg, left, right, kh).a[1]))
  }

  /** The phase of an RLWE pair under s. */
  function Phase(q: int, c: Pair, s: Poly): (r: Poly)
    requires q > 0 && |c.a| == |c.b| == |s| > 0
    ensures |r| == |s| && Canon(q, r)
  {
    Add(q, Mul(q, c.a, s), c.b)
  }

  lemma SinglePhase(q: int, d: nat, a: seq<Poly>, ss: seq<Poly>, b: Poly)
    requires q > 0 && d > 0 && |a| == 1 && |ss| >= 1 && |a[0]| == d && |ss[0]| == d && |b| == d
    ensures WidePhase(q, d, a, ss, b) == Add(q, Mul(q, a[0], ss[0]), b)
  {
    DotNil(q, d, a, ss);
    DotStep(q, d, a, ss, 0);
    AddZero(q, Mul(q, a[0], ss[0]));
  }

  lemma PairPhase(q: int, d: nat, a: seq<Poly>, ss: seq<Poly>, b: Poly)
    requires q > 0 && d > 0 && |a| == 2 && |ss| == 2 && |a[0]| == |a[1]| == d && |ss[0]| == |ss[1]| == d && |b| == d
    ensures WidePhase(q, d, a, ss, b) == Add(q, Add(q, Mul(q, a[0], ss[0]), Mul(q, a[1], ss[1])), b)
  {
    hide *;
    DotNil(q, d, a, ss);
    DotStep(q, d, a, ss, 0);
    DotStep(q, d, a, ss, 1);
    AddZero(q, Mul(q, a[0], ss[0]));
    WidePhaseIs(q, d, a, ss, b);
  }

  /** R == ((A+B)+rb)+ef with A+lb == (X+b)+el and B+rb == (Y+lb)+er. */
  lemma JoinAlgebra(q: int, A: Poly, B: Poly, X: Poly, Y: Poly, b: Poly, lb: Poly, rb: Poly, el: Poly, er: Poly, ef: Poly)
    requires q > 0 && |A| == |B| == |X| == |Y| == |b| == |lb| == |rb| == |el| == |er| == |ef|
    requires Add(q, A, lb) == Add(q, Add(q, X, b), el)
    requires Add(q, B, rb) == Add(q, Add(q, Y, lb), er)
    ensures Add(q, Add(q, Add(q, A, B), rb), ef)
            == Add(q, Add(q, Add(q, X, Y), b), Add(q, Add(q, el, er), ef))
  {
    hide *;
    var t := Add(q, Y, er);
    calc {
      Add(q, Add(q, A, B), rb);
      { AddAssoc(q, A, B, rb); }
      Add(q, A, Add(q, Add(q, Y, lb), er));
      { AddComm(q, Y, lb); AddAssoc(q, lb, Y, er); }
      Add(q, A, Add(q, lb, t));
      { AddAssoc(q, A, lb, t); }
      Add(q, Add(q, Add(q, X, b), el), Add(q, Y, er));
      { AddSwap(q, Add(q, X, b), el, Y, er); }
      Add(q, Add(q, Add(q, X, b), Y), Add(q, el, er));
      { AddAssoc(q, X, b, Y); AddComm(q, b, Y); AddAssoc(q, X, Y, b); }
      Add(q, Add(q, Add(q, X, Y), b), Add(q, el, er));
    }
    AddAssoc(q, Add(q, Add(q, X, Y), b), Add(q, el, er), ef);
  }

  lemma HalfReading(S: Setting, st: Wide, images: seq<Key>, ss: seq<Poly>, errs: seq<seq<Poly>>)
    requires WideOk(S, st) && KeysOk(S, images) && |st.a| == |images| + 1
    requires Elems(S.q, S.d, ss) && Chain(S, images, ss, errs)
    ensures ErrsOk(S, errs)
    ensures var r := Half(S, st, images);
            Add(S.q, Mul(S.q, r.a[0], ss[0]), r.b)
            == Add(S.q, Add(S.q, Dot(S.q, S.d, st.a, ss, |st.a|), st.b), HalfError(S, st, images, errs))
  {
    hide *;
    ChainErrors(S, images, ss, errs);
    var r := Half(S, st, images);
    WideSizes(S, st);
    WideSizes(S, r);
    ElemsSizes(S.q, S.d, ss);
    HalfPhase(S, st, images, ss, errs);
    SinglePhase(S.q, S.d, r.a, ss, r.b);
    WidePhaseIs(S.q, S.d, st.a, ss, st.b);
  }

  lemma FinalReading(S: Setting, st: Wide, kh: Key, s0: Poly, t0: Poly, eh: seq<Poly>)
    requires WideOk(S, st) && |st.a| == 2 && Elem(S.q, S.d, s0) && Elem(S.q, S.d, t0)
    requires Shaped(S.q, S.d, S.ell, kh) && |eh| == S.ell && Elems(S.q, S.d, eh)
    requires Switches(S.q, S.z, S.d, S.ell, kh, t0, s0, eh)
    ensures var f := StepOne(S, st, kh);
            Phase(S.q, Pair(f.a[0], f.b), s0)
            == Add(S.q, Add(S.q, Add(S.q, Mul(S.q, st.a[0], s0), Mul(S.q, st.a[1], t0)), st.b),
                   SwitchError(S.q, S.z, S.ell, S.d, eh, st.a[1]))
  {
    var f, ss := StepOne(S, st, kh), [s0, t0];
    assert Elems(S.q, S.d, ss);
    assert Phase(S.q, Pair(f.a[0], f.b), s0) == Add(S.q, Mul(S.q, f.a[0], s0), f.b);
    hide *;
    WideSizes(S, st);
    WideSizes(S, f);
    ElemsSizes(S.q, S.d, eh);
    ElemsSizes(S.q, S.d, ss);
    StepOnePhase(S, st, kh, ss, eh);
    PairPhase(S.q, S.d, st.a, ss, st.b);
    SinglePhase(S.q, S.d, f.a, ss, f.b);
  }

  lemma CollapseParts(S: Setting, agg: IrCtx, left: seq<Key>, right: seq<Key>, kh: Key)
    requires CollapseOk(S, agg, left, right, kh)
    ensures var n := |left| + 1;
            && WideOk(S, Wide(agg.aHat[..n], agg.bTilde))
            && WideOk(S, Wide(agg.aHat[n..], LeftHalf(S, agg, left, right, kh).b))
            && |agg.aHat| == n + n && |left| == |right| && KeysOk(S, left) && KeysOk(S, right)
            && Shaped(S.q, S.d, S.ell, kh)
            && LeftHalf(S, agg, left, right, kh) == Half(S, Wide(agg.aHat[..n], agg.bTilde), left)
            && RightHalf(S, agg, left, right, kh)
               == Half(S, Wide(agg.aHat[n..], LeftHalf(S, agg, left, right, kh).b), right)
            && Joined(S, agg, left, right, kh)
               == Wide([LeftHalf(S, agg, left, right, kh).a[0], RightHalf(S, agg, left, right, kh).a[0]],
                       RightHalf(S, agg, left, right, kh).b)
            && CollapseAll(S, agg, left, right, kh)
               == Pair(StepOne(S, Joined(S, agg, left, right, kh), kh).a[0],
                       StepOne(S, Joined(S, agg, left, right, kh), kh).b)
  {
    hide Half, StepOne, GadgetFits;
  }

  lemma CollapseErrorIs(S: Setting, agg: IrCtx, left: seq<Key>, right: seq<Key>, kh: Key,
                        leftErrs: seq<seq<Poly>>, rightErrs: seq<seq<Poly>>, eh: seq<Poly>)
    requires CollapseOk(S, agg, left, right, kh)
    requires |leftErrs| == |left| && |rightErrs| == |right| && ErrsOk(S, leftErrs) && ErrsOk(S, rightErrs)
    requires |eh| == S.ell && Elems(S.q, S.d, eh)
    ensures var n := |left| + 1;
            CollapseError(S, agg, left, right, kh, leftErrs, rightErrs, eh)
            == Add(S.q,
                   Add(S.q, HalfError(S, Wide(agg.aHat[..n], agg.bTilde), left, leftErrs),
                       HalfError(S, Wide(agg.aHat[n..], LeftHalf(S, agg, left, right, kh).b), right, rightErrs)),
                   SwitchError(S.q, S.z, S.ell, S.d, eh, Joined(S, agg, left, right, kh).a[1]))
  {
  }

  /** Collapse: the pair's phase under the base secret is the wide phase plus all switch errors. */
  lemma CollapsePhase(S: Setting, agg: IrCtx, left: seq<Key>, right: seq<Key>, kh: Key, sl: seq<Poly>, sr: seq<Poly>,
                      leftErrs: seq<seq<Poly>>, rightErrs: seq<seq<Poly>>, eh: seq<Poly>)
    requires CollapseOk(S, agg, left, right, kh)
    requires Elems(S.q, S.d, sl) && Elems(S.q, S.d, sr)
    requires Chain(S, left, sl, leftErrs) && Chain(S, right, sr, rightErrs)
    requires |eh| == S.ell && Elems(S.q, S.d, eh) && Switches(S.q, S.z, S.d, S.ell, kh, sr[0], sl[0], eh)
    ensures ErrsOk(S, leftErrs) && ErrsOk(S, rightErrs)
    ensures Phase(S.q, CollapseAll(S, agg, left, right, kh), sl[0])
            == Add(S.q, WidePhase(S.q, S.d, agg.aHat, sl + sr, agg.bTilde),
                   CollapseError(S, agg, left, right, kh, leftErrs, rightErrs, eh))
  {
    hide *;
    var q, d, n := S.q, S.d, |left| + 1;
    ChainErrors(S, left, sl, leftErrs);
    ChainErrors(S, right, sr, rightErrs);
    CollapseParts(S, agg, left, right, kh);
    var la, ra := agg.aHat[..n], agg.aHat[n..];
    var l, r := LeftHalf(S, agg, left, right, kh), RightHalf(S, agg, left, right, kh);
    var j := Joined(S, agg, left, right, kh);
    WideSizes(S, Wide(la, agg.bTilde));
    WideSizes(S, Wide(ra, l.b));
    WideSizes(S, l);
    WideSizes(S, r);
    ElemsSizes(q, d, sl);
    ElemsSizes(q, d, sr);
    ElemsSizes(q, d, eh);
    HalfReading(S, Wide(la, agg.bTilde), left, sl, leftErrs);
    HalfReading(S, Wide(ra, l.b), right, sr, rightErrs);
    FinalReading(S, j, kh, sl[0], sr[0], eh);
    assert agg.aHat == la + ra;
    DotConcat(q, d, la, sl, ra, sr, n);
    WidePhaseIs(q, d, agg.aHat, sl + sr, agg.bTilde);
    CollapseErrorIs(S, agg, left, right, kh, leftErrs, rightErrs, eh);
    JoinAlgebra(q, Mul(q, l.a[0], sl[0]), Mul(q, r.a[0], sr[0]), Dot(q, d, la, sl, n), Dot(q, d, ra, sr, n),
                agg.bTilde, l.b, r.b, HalfError(S, Wide(la, agg.bTilde), left, leftErrs),
                HalfError(S, Wide(ra, l.b), right, rightErrs), SwitchError(q, S.z, S.ell, d, eh, j.a[1]));
  }

  // ----- the mutable cascade -----

  /** Running state of the cascade.  The counter is the program's ks_call_count. */
  class CollapseState {
    var a: seq<Poly>
    var b: Poly
    var switches: nat

    constructor (a0: seq<Poly>, b0: Poly, calls: nat)
      ensures a == a0 && b == b0 && switches == calls
    {
      a, b, switches := a0, b0, calls;
    }

    function Value(): (r: Wide)
      reads this
    {
      Wide(a, b)
    }

    method CollapseOneWithDigits(S: Setting, k: Key, digits: seq<Poly>)
      requires WideOk(S, Value()) && |a| >= 2 && Shaped(S.q, S.d, S.ell, k)
      requires |digits| == S.ell && forall i :: 0 <= i < S.ell ==> |digits[i]| == S.d
      modifies this
      ensures Value() == StepDigits(S, old(Value()), k, digits)
      ensures switches == old(switches) + 1
    {
      var n := |a|;
      var delta := SwitchWithDigits(S.q, S.d, k, digits, b);
      switches := switches + 1;
      a := a[n - 2 := Add(S.q, a[n - 2], delta.a)];
      a := a[..n - 1];
      b := delta.b;
      assert a == old(a)[..n - 1][n - 2 := Add(S.q, old(a)[n - 2], delta.a)];
    }

    method CollapseOne(S: Setting, k: Key)
      requires WideOk(S, Value()) && |a| >= 2 && Shaped(S.q, S.d, S.ell, k)
      modifies this
      ensures Value() == StepOne(S, old(Value()), k)
      ensures switches == old(switches) + 1
    {
      CollapseOneWithDigits(S, k, DigitsOf(S, a[|a| - 1]));
    }

    method CollapseHalf(S: Setting, images: seq<Key>)
      requires WideOk(S, Value()) && KeysOk(S, images) && |images| == |a| - 1
      modifies this
      ensures Value() == Half(S, old(Value()), images) && |a| == 1
      ensures switches == old(switches) + |images|
    {
      while |a| > 1
        invariant WideOk(S, Value()) && |a| <= |images| + 1
        invariant Half(S, Value(), images) == Half(S, old(Value()), images)
        invariant switches + |a| == old(switches) + old(|a|)
        decreases |a|
      {
        CollapseOne(S, images[|a| - 2]);
      }
    }
  }

  /** Collapse with the switch counter: exactly d - 1 switches for d slots. */
  method CollapseRun(S: Setting, agg: IrCtx, left: seq<Key>, right: seq<Key>, kh: Key)
    returns (c: Pair, calls: nat)
    requires CollapseOk(S, agg, left, right, kh)
    ensures c == CollapseAll(S, agg, left, right, kh)
    ensures calls == |agg.aHat| - 1
  {
    var n := |left| + 1;
    var ls := new CollapseState(agg.aHat[..n], agg.bTilde, 0);
    ls.CollapseHalf(S, left);
    var rs := new CollapseState(agg.aHat[n..], ls.b, ls.switches);
    rs.CollapseHalf(S, right);
    var fs := new CollapseState([ls.a[0], rs.a[0]], rs.b, rs.switches);
    fs.CollapseOne(S, kh);
    c, calls := Pair(fs.a[0], fs.b), fs.switches;
  }
}
