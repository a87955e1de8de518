/** InspiRING packing, end to end: offline preprocessing, online packing, and the uploaded-body
    variant (inspiring/src/preprocess.rs, inspiring/src/preprocess_reuse.rs, inspiring/src/pack.rs). */
module Packing {
  import opened Modular
  import opened Ring
  import opened RingLaws
  import opened Galois
  import opened KeySwitch
  import opened Intermediate
  import opened Collapse
  import opened MaskCascade

  // ----- the collapse as a public trace plus a body sum -----

  /** What the server keeps for one CRS block: the final mask and the digit blocks in execution order. */
  datatype Trace = Trace(c1: Poly, blocks: seq<seq<Poly>>)

  predicate MasksOk(S: Setting, a: seq<Poly>, left: seq<seq<Poly>>, right: seq<seq<Poly>>, last: seq<Poly>) {
    && S.Ok() && |left| == |right| && |a| == 2 * (|left| + 1) && Elems(S.q, S.d, a)
    && RowsOk(S, left) && RowsOk(S, right) && RowOk(S, last)
  }

  /** Depends on the CRS slots and the public mask rows only. */
  function PublicTrace(S: Setting, a: seq<Poly>, left: seq<seq<Poly>>, right: seq<seq<Poly>>, last: seq<Poly>): (r: Trace)
    requires MasksOk(S, a, left, right, last)
    ensures |r.c1| == S.d && Canon(S.q, r.c1) && |r.blocks| == |a| - 1 && BlocksOk(S, r.blocks)
  {
    var n := |left| + 1;
    var survivor := MaskHalf(S, a[n..], right);
    Trace(Add(S.q, MaskHalf(S, a[..n], left), Product(S, last, DigitsOf(S, survivor))),
          MaskDigits(S, a[..n], left) + MaskDigits(S, a[n..], right) + [DigitsOf(S, survivor)])
  }

  /** b plus every body row times its digit block: left half, right half, final switch. */
  function BodyChain(S: Setting, b: Poly, left: seq<seq<Poly>>, right: seq<seq<Poly>>, last: seq<Poly>,
                     blocks: seq<seq<Poly>>): (r: Poly)
    requires S.Ok() && |b| == S.d && RowsOk(S, left) && RowsOk(S, right) && RowOk(S, last)
    requires |blocks| == |left| + |right| + 1 && BlocksOk(S, blocks)
    ensures |r| == S.d && Canon(S.q, r)
  {
    var m, n := |left|, |left| + |right|;
    Add(S.q, Add(S.q, Add(S.q, b, BodySum(S, left, blocks[..m])), BodySum(S, right, blocks[m..n])),
        Product(S, last, blocks[n]))
  }

  lemma TraceParts(S: Setting, a: seq<Poly>, left: seq<seq<Poly>>, right: seq<seq<Poly>>, last: seq<Poly>)
    requires MasksOk(S, a, left, right, last)
    ensures var n, m, t := |left| + 1, |left| + |right|, PublicTrace(S, a, left, right, last);
            && |a| == n + n && SlotsOk(S, a[..n]) && SlotsOk(S, a[n..]) && m == |a| - 2
            && t.blocks[..n - 1] == MaskDigits(S, a[..n], left)
            && t.blocks[n - 1..m] == MaskDigits(S, a[n..], right)
            && t.blocks[m] == DigitsOf(S, MaskHalf(S, a[n..], right))
            && t.c1 == Add(S.q, MaskHalf(S, a[..n], left), Product(S, last, t.blocks[m]))
  {
    hide MaskHalf, MaskDigits, DigitsOf, GadgetFits;
  }

  lemma KeysMasksOk(S: Setting, agg: IrCtx, left: seq<Key>, right: seq<Key>, kh: Key)
    requires CollapseOk(S, agg, left, right, kh)
    ensures MasksOk(S, agg.aHat, MasksOf(left), MasksOf(right), kh.w)
    ensures RowsOk(S, BodiesOf(left)) && RowsOk(S, BodiesOf(right)) && RowOk(S, kh.y) && RowOk(S, kh.w)
    ensures |agg.bTilde| == S.d && S.Ok()
  {
    KeyRowsOk(S, left);
    KeyRowsOk(S, right);
  }

  lemma BodyChainIs(S: Setting, b: Poly, left: seq<seq<Poly>>, right: seq<seq<Poly>>, last: seq<Poly>, blocks: seq<seq<Poly>>)
    requires S.Ok() && |b| == S.d && RowsOk(S, left) && RowsOk(S, right) && RowOk(S, last)
    requires |blocks| == |left| + |right| + 1 && BlocksOk(S, blocks)
    ensures var m, n := |left|, |left| + |right|;
            && BlocksOk(S, blocks[..m]) && BlocksOk(S, blocks[m..n])
            && |blocks[n]| == S.ell && (forall i :: 0 <= i < S.ell ==> |blocks[n][i]| == S.d)
            && BodyChain(S, b, left, right, last, blocks)
            == Add(S.q, Add(S.q, Add(S.q, b, BodySum(S, left, blocks[..m])), BodySum(S, right, blocks[m..n])),
                   Product(S, last, blocks[n]))
  {
  }

  /** Collapsing equals the public trace of the masks together with the chain over the bodies. */
  lemma CollapseSplits(S: Setting, agg: IrCtx, left: seq<Key>, right: seq<Key>, kh: Key)
    requires CollapseOk(S, agg, left, right, kh)
    ensures MasksOk(S, agg.aHat, MasksOf(left), MasksOf(right), kh.w)
    ensures RowsOk(S, BodiesOf(left)) && RowsOk(S, BodiesOf(right)) && RowOk(S, kh.y)
    ensures |left| == |right| && |agg.aHat| == |left| + |right| + 2
    ensures S.Ok() && |agg.bTilde| == S.d
    ensures var t := PublicTrace(S, agg.aHat, MasksOf(left), MasksOf(right), kh.w);
            CollapseAll(S, agg, left, right, kh)
            == Pair(t.c1, BodyChain(S, agg.bTilde, BodiesOf(left), BodiesOf(right), kh.y, t.blocks))
  {
    hide *;
    KeysMasksOk(S, agg, left, right, kh);
    CollapseParts(S, agg, left, right, kh);
    var n := |left| + 1;
    var a := agg.aHat;
    var t := PublicTrace(S, a, MasksOf(left), MasksOf(right), kh.w);
    TraceParts(S, a, MasksOf(left), MasksOf(right), kh.w);
    var l, r := LeftHalf(S, agg, left, right, kh), RightHalf(S, agg, left, right, kh);
    HalfSplits(S, Wide(a[..n], agg.bTilde), left);
    HalfSplits(S, Wide(a[n..], l.b), right);
    var j := Joined(S, agg, left, right, kh);
    StepSplits(S, j, kh);
    SettingSizes(S);
    WideSizes(S, j);
    MaskStepPair(S, j.a, kh.w);
    BodyChainIs(S, agg.bTilde, BodiesOf(left), BodiesOf(right), kh.y, t.blocks);
    AddComm(S.q, Product(S, kh.y, t.blocks[2 * n - 2]), r.b);
  }

  lemma MaskStepPair(S: Setting, a: seq<Poly>, mask: seq<Poly>)
    requires SlotsOk(S, a) && |a| == 2 && RowOk(S, mask)
    ensures S.q > 0 && |a[0]| == |a[1]| == S.d
    ensures MaskStep(S, a, mask)[0] == Add(S.q, a[0], Product(S, mask, DigitsOf(S, a[1])))
  {
  }

  // ----- automorphic key images -----

  function ImagesAt(q: int, d: nat, ell: nat, k: Key, ts: seq<int>): (r: seq<Key>)
    requires q > 0 && d > 0 && Shaped(q, d, ell, k)
    ensures |r| == |ts| && KeyImagePre(k)
    ensures forall i :: 0 <= i < |ts| ==> r[i] == KeyImage(q, k, ts[i])
    ensures forall i :: 0 <= i < |ts| ==> Shaped(q, d, ell, r[i])
  {
    seq(|ts|, i requires 0 <= i < |ts| => KeyImage(q, k, ts[i]))
  }

  predicate KeyImagePre(k: Key) {
    && (forall i :: 0 <= i < |k.w| ==> |k.w[i]| > 0)
    && (forall i :: 0 <= i < |k.y| ==> |k.y[i]| > 0)
  }

  function ErrorsAt(q: int, d: nat, es: seq<Poly>, ts: seq<int>): (r: seq<seq<Poly>>)
    requires q > 0 && d > 0 && Elems(q, d, es)
    ensures |r| == |ts|
    ensures forall i :: 0 <= i < |ts| ==>
              (forall j :: 0 <= j < |es| ==> |es[j]| > 0) && r[i] == MapTau(q, es, ts[i])
              && |r[i]| == |es| && Elems(q, d, r[i])
  {
    seq(|ts|, i requires 0 <= i < |ts| => MapTau(q, es, ts[i]))
  }

  /** Applying tau_g to s and then the i-th stored exponent is the next stored exponent. */
  lemma NextExponent(q: int, s: Poly, i: nat)
    requires q > 0 && |s| > 0
    ensures Tau(q, Tau(q, s, LeftExp(|s|, 1)), LeftExp(|s|, i)) == Tau(q, s, LeftExp(|s|, i + 1))
    ensures Tau(q, Tau(q, s, LeftExp(|s|, 1)), RightExp(|s|, i)) == Tau(q, s, RightExp(|s|, i + 1))
  {
    hide *;
    PowSteps(i);
    var g, f := Tau(q, s, Pow(5, 1)), Pow(5, i);
    StoredExponents(q, s, 1);
    StoredExponents(q, g, i);
    StoredExponents(q, s, i + 1);
    PowFiveOdd(i);
    TauTau(q, s, Pow(5, 1), f);
    TauTau(q, s, Pow(5, 1), -f);
  }

  lemma PowSteps(i: nat)
    ensures Pow(5, 1) == 5 && Pow(5, 1) * Pow(5, i) == Pow(5, i + 1) && Pow(5, 1) * -Pow(5, i) == -Pow(5, i + 1)
  {
    assert Pow(5, 1) == 5 * Pow(5, 0);
  }

  lemma SecretsOk(q: int, s: Poly, ts: seq<int>)
    requires q > 0 && |s| > 0
    ensures Elems(q, |s|, Secrets(q, s, ts))
  {
  }

  /** The images of K_g at 5^i (or at -5^i) hand slot i + 1 down to slot i. */
  lemma ImagesChain(S: Setting, kg: Key, s: Poly, eg: seq<Poly>, n: nat)
    requires S.Ok() && Elem(S.q, S.d, s) && Shaped(S.q, S.d, S.ell, kg) && |eg| == S.ell && Elems(S.q, S.d, eg)
    requires Switches(S.q, S.z, S.d, S.ell, kg, Tau(S.q, s, LeftExp(S.d, 1)), s, eg)
    ensures Chain(S, ImagesAt(S.q, S.d, S.ell, kg, LeftExps(S.d, n)), Secrets(S.q, s, LeftExps(S.d, n + 1)),
                  ErrorsAt(S.q, S.d, eg, LeftExps(S.d, n)))
    ensures Chain(S, ImagesAt(S.q, S.d, S.ell, kg, RightExps(S.d, n)), Secrets(S.q, s, RightExps(S.d, n + 1)),
                  ErrorsAt(S.q, S.d, eg, RightExps(S.d, n)))
  {
    forall i | 0 <= i < n
      ensures Switches(S.q, S.z, S.d, S.ell, ImagesAt(S.q, S.d, S.ell, kg, LeftExps(S.d, n))[i],
                       Secrets(S.q, s, LeftExps(S.d, n + 1))[i + 1], Secrets(S.q, s, LeftExps(S.d, n + 1))[i],
                       ErrorsAt(S.q, S.d, eg, LeftExps(S.d, n))[i])
      ensures Switches(S.q, S.z, S.d, S.ell, ImagesAt(S.q, S.d, S.ell, kg, RightExps(S.d, n))[i],
                       Secrets(S.q, s, RightExps(S.d, n + 1))[i + 1], Secrets(S.q, s, RightExps(S.d, n + 1))[i],
                       ErrorsAt(S.q, S.d, eg, RightExps(S.d, n))[i])
    {
      hide *;
      SettingSizes(S);
      ElemSize(S.q, S.d, s);
      ExponentsOdd(S.d, i);
      NextExponent(S.q, s, i);
      ImageSwitches(S.q, S.z, S.d, S.ell, kg, Tau(S.q, s, LeftExp(S.d, 1)), s, eg, LeftExp(S.d, i));
      ImageSwitches(S.q, S.z, S.d, S.ell, kg, Tau(S.q, s, LeftExp(S.d, 1)), s, eg, RightExp(S.d, i));
    }
  }

  lemma ElemSize(q: int, d: nat, p: Poly)
    requires Elem(q, d, p)
    ensures |p| == d && Canon(q, p)
  {
  }

  // ----- preprocessing and online packing -----

  predicate RowsShape(d: nat, rows: seq<seq<int>>) {
    forall k :: 0 <= k < |rows| ==> |rows[k]| == d
  }

  lemma RowSizes(d: nat, rows: seq<seq<int>>)
    requires RowsShape(d, rows)
    ensures forall k :: 0 <= k < |rows| ==> |rows[k]| == d
  {
  }

  /** tau_t of every embedded CRS row. */
  function RowImages(q: int, d: nat, rows: seq<seq<int>>, t: int): (r: seq<Poly>)
    requires q > 0 && d > 0 && RowsShape(d, rows)
    ensures |r| == |rows|
    ensures forall k :: 0 <= k < |rows| ==> r[k] == Tau(q, ATilde(q, rows[k]), t) && |r[k]| == d && Canon(q, r[k])
  {
    seq(|rows|, k requires 0 <= k < |rows| => Tau(q, ATilde(q, rows[k]), t))
  }

  /** One slot of the direct aggregate: d^-1 times the sum of X^k * tau_t(row k). */
  function AggSlot(q: int, d: nat, dInv: int, rows: seq<seq<int>>, t: int): (r: Poly)
    requires q > 0 && d > 0 && RowsShape(d, rows)
    ensures |r| == d && Canon(q, r)
  {
    Scale(q, dInv, ShiftSum(q, d, RowImages(q, d, rows, t), |rows|))
  }

  function AAgg(q: int, d: nat, dInv: int, rows: seq<seq<int>>): (r: seq<Poly>)
    requires q > 0 && d > 0 && RowsShape(d, rows)
    ensures |r| == 2 * (d / 2)
    ensures forall j :: 0 <= j < |r| ==>
              r[j] == AggSlot(q, d, dInv, rows, SlotExps(d)[j]) && |r[j]| == d && Canon(q, r[j])
  {
    seq(2 * (d / 2), j requires 0 <= j < 2 * (d / 2) => AggSlot(q, d, dInv, rows, SlotExps(d)[j]))
  }

  /** The body polynomial with coefficients b_k mod q. */
  function BTilde(q: int, bs: seq<int>): (r: Poly)
    requires q > 0
    ensures |r| == |bs| && Canon(q, r) && forall k :: 0 <= k < |bs| ==> r[k] == bs[k] % q
  {
    seq(|bs|, k requires 0 <= k < |bs| => bs[k] % q)
  }

  function LwesOf(rows: seq<seq<int>>, bs: seq<int>): (r: seq<Lwe>)
    requires |rows| == |bs|
    ensures |r| == |rows| && forall k :: 0 <= k < |rows| ==> r[k] == Lwe(rows[k], bs[k])
  {
    seq(|rows|, k requires 0 <= k < |rows| => Lwe(rows[k], bs[k]))
  }

  lemma AggSlotIs(q: int, d: nat, dInv: int, rows: seq<seq<int>>, t: int)
    requires q > 0 && d > 0 && RowsShape(d, rows)
    ensures AggSlot(q, d, dInv, rows, t) == Scale(q, dInv, ShiftSum(q, d, RowImages(q, d, rows, t), |rows|))
  {
  }

  /** The direct aggregate is `aggregate` of `transform` on the same rows, whatever the b scalars. */
  lemma DirectAggregate(q: int, d: nat, dInv: int, rows: seq<seq<int>>, bs: seq<int>)
    requires q > 0 && d > 0 && RowsShape(d, rows) && |rows| == |bs| == d
    ensures Aggregate(q, d, 2 * (d / 2), Transforms(q, d, dInv, LwesOf(rows, bs)))
            == IrCtx(AAgg(q, d, dInv, rows), BTilde(q, bs))
  {
    hide *;
    RowSizes(d, rows);
    var m, ctxs := 2 * (d / 2), Transforms(q, d, dInv, LwesOf(rows, bs));
    var agg := Aggregate(q, d, m, ctxs);
    forall j | 0 <= j < m
      ensures agg.aHat[j] == AAgg(q, d, dInv, rows)[j]
    {
      var t := SlotExps(d)[j];
      forall k | 0 <= k < d
        ensures SlotColumn(q, d, m, ctxs, j)[k] == Scale(q, dInv, RowImages(q, d, rows, t)[k])
      {
        TransformParts(q, dInv, Lwe(rows[k], bs[k]));
      }
      ShiftSumScale(q, d, dInv, RowImages(q, d, rows, t), SlotColumn(q, d, m, ctxs, j), d);
      AggSlotIs(q, d, dInv, rows, t);
    }
    forall k | 0 <= k < d
      ensures Bodies(q, d, m, ctxs)[k] == Constant(q, d, BTilde(q, bs)[k])
    {
      TransformParts(q, dInv, Lwe(rows[k], bs[k]));
      ConstantMod(q, d, bs[k]);
    }
    ShiftedConstants(q, BTilde(q, bs), Bodies(q, d, m, ctxs), d);
    Decompose(q, BTilde(q, bs));
    assert agg.aHat == AAgg(q, d, dInv, rows);
  }

  predicate PackOk(S: Setting, kg: Key, kh: Key, a: seq<Poly>) {
    && S.Ok() && S.d >= 2 && PowerOfTwo(S.d) && |a| == S.d && Elems(S.q, S.d, a)
    && Shaped(S.q, S.d, S.ell, kg) && Shaped(S.q, S.d, S.ell, kh)
  }

  function LeftImages(S: Setting, kg: Key): (r: seq<Key>)
    requires S.Ok() && S.d >= 2 && Shaped(S.q, S.d, S.ell, kg)
    ensures |r| == S.d / 2 - 1
  {
    ImagesAt(S.q, S.d, S.ell, kg, LeftExps(S.d, S.d / 2 - 1))
  }

  function RightImages(S: Setting, kg: Key): (r: seq<Key>)
    requires S.Ok() && S.d >= 2 && Shaped(S.q, S.d, S.ell, kg)
    ensures |r| == S.d / 2 - 1
  {
    ImagesAt(S.q, S.d, S.ell, kg, RightExps(S.d, S.d / 2 - 1))
  }

  lemma PackOkCollapse(S: Setting, kg: Key, kh: Key, a: seq<Poly>, b: Poly)
    requires PackOk(S, kg, kh, a) && Elem(S.q, S.d, b)
    ensures S.Ok() && S.d >= 2 && Shaped(S.q, S.d, S.ell, kg)
    ensures CollapseOk(S, IrCtx(a, b), LeftImages(S, kg), RightImages(S, kg), kh)
  {
  }

  /** The whole collapse of the slots a and body b under the images of K_g and under K_h. */
  function FullCollapse(S: Setting, kg: Key, kh: Key, a: seq<Poly>, b: Poly): (r: Pair)
    requires PackOk(S, kg, kh, a) && Elem(S.q, S.d, b)
    ensures |r.a| == S.d && |r.b| == S.d && Canon(S.q, r.a) && Canon(S.q, r.b)
  {
    PackOkCollapse(S, kg, kh, a, b);
    CollapseAll(S, IrCtx(a, b), LeftImages(S, kg), RightImages(S, kg), kh)
  }

  /** The affine cache of bind_keys: the collapse of the slots with a zero body. */
  function BindKeys(S: Setting, kg: Key, kh: Key, a: seq<Poly>): (r: Pair)
    requires PackOk(S, kg, kh, a)
    ensures |r.a| == S.d && |r.b| == S.d && Canon(S.q, r.a) && Canon(S.q, r.b)
  {
    ZeroCanon(S.q, S.d);
    FullCollapse(S, kg, kh, a, Zero(S.d))
  }

  lemma FullCollapseIs(S: Setting, kg: Key, kh: Key, a: seq<Poly>, b: Poly)
    requires PackOk(S, kg, kh, a) && Elem(S.q, S.d, b)
    ensures S.Ok() && S.d >= 2 && Shaped(S.q, S.d, S.ell, kg)
    ensures CollapseOk(S, IrCtx(a, b), LeftImages(S, kg), RightImages(S, kg), kh)
    ensures FullCollapse(S, kg, kh, a, b) == CollapseAll(S, IrCtx(a, b), LeftImages(S, kg), RightImages(S, kg), kh)
  {
    PackOkCollapse(S, kg, kh, a, b);
  }

  lemma BodyChainAffine(S: Setting, b: Poly, left: seq<seq<Poly>>, right: seq<seq<Poly>>, last: seq<Poly>, blocks: seq<seq<Poly>>)
    requires S.Ok() && Elem(S.q, S.d, b) && RowsOk(S, left) && RowsOk(S, right) && RowOk(S, last)
    requires |blocks| == |left| + |right| + 1 && BlocksOk(S, blocks)
    ensures S.q > 0 && |b| == S.d
    ensures BodyChain(S, b, left, right, last, blocks)
            == Add(S.q, b, BodyChain(S, Zero(S.d), left, right, last, blocks))
  {
    hide *;
    SettingSizes(S);
    ElemSize(S.q, S.d, b);
    var q, zero := S.q, Zero(S.d);
    BodyChainIs(S, b, left, right, last, blocks);
    BodyChainIs(S, zero, left, right, last, blocks);
    var m, n := |left|, |left| + |right|;
    var x, y, p := BodySum(S, left, blocks[..m]), BodySum(S, right, blocks[m..n]), Product(S, last, blocks[n]);
    AddZero(q, x);
    AddAssoc(q, b, x, y);
    AddAssoc(q, b, Add(q, x, y), p);
  }

  /** Affine form: a collapse only adds its body to the cached zero-body collapse. */
  lemma CollapseAffine(S: Setting, kg: Key, kh: Key, a: seq<Poly>, b: Poly)
    requires PackOk(S, kg, kh, a) && Elem(S.q, S.d, b)
    ensures S.q > 0 && |b| == S.d
    ensures FullCollapse(S, kg, kh, a, b)
            == Pair(BindKeys(S, kg, kh, a).a, Add(S.q, b, BindKeys(S, kg, kh, a).b))
  {
    hide *;
    BindKeysIs(S, kg, kh, a);
    ZeroElem(S, kg, kh, a);
    ElemSize(S.q, S.d, b);
    FullCollapseIs(S, kg, kh, a, b);
    FullCollapseIs(S, kg, kh, a, Zero(S.d));
    var left, right := LeftImages(S, kg), RightImages(S, kg);
    CollapseSplits(S, IrCtx(a, b), left, right, kh);
    CollapseSplits(S, IrCtx(a, Zero(S.d)), left, right, kh);
    var t := PublicTrace(S, a, MasksOf(left), MasksOf(right), kh.w);
    BodyChainAffine(S, b, BodiesOf(left), BodiesOf(right), kh.y, t.blocks);
  }

  lemma BindKeysIs(S: Setting, kg: Key, kh: Key, a: seq<Poly>)
    requires PackOk(S, kg, kh, a)
    ensures Elem(S.q, S.d, Zero(S.d)) && BindKeys(S, kg, kh, a) == FullCollapse(S, kg, kh, a, Zero(S.d))
  {
  }

  lemma ZeroElem(S: Setting, kg: Key, kh: Key, a: seq<Poly>)
    requires PackOk(S, kg, kh, a)
    ensures S.q > 0 && S.d > 0 && |Zero(S.d)| == S.d
  {
  }

  // ----- the main theorem -----

  /** The errors of all d - 1 switches: K_g errors rotated by the stored exponents, then K_h errors. */
  function PackError(S: Setting, kg: Key, kh: Key, a: seq<Poly>, b: Poly, eg: seq<Poly>, eh: seq<Poly>): (r: Poly)
    requires PackOk(S, kg, kh, a) && Elem(S.q, S.d, b) && RowOk(S, eg) && RowOk(S, eh)
    ensures |r| == S.d && Canon(S.q, r)
  {
    PackOkCollapse(S, kg, kh, a, b);
    var n := S.d / 2 - 1;
    CollapseError(S, IrCtx(a, b), LeftImages(S, kg), RightImages(S, kg), kh,
                  ErrorsAt(S.q, S.d, eg, LeftExps(S.d, n)), ErrorsAt(S.q, S.d, eg, RightExps(S.d, n)), eh)
  }

  lemma BaseSecrets(q: int, s: Poly, n: nat)
    requires q > 0 && |s| >= 1 && Canon(q, s)
    ensures Secrets(q, s, LeftExps(|s|, n + 1))[0] == s
    ensures Secrets(q, s, RightExps(|s|, n + 1))[0] == Tau(q, s, 2 * |s| - 1)
  {
    ModSmall(1, 2 * |s|);
    ModSmall(2 * |s| - 1, 2 * |s|);
    TauOne(q, s);
    assert LeftExp(|s|, 0) == 1 && RightExp(|s|, 0) == 2 * |s| - 1;
  }

  lemma SecretsSplit(q: int, s: Poly)
    requires q > 0 && |s| > 0
    ensures Secrets(q, s, SlotExps(|s|))
            == Secrets(q, s, LeftExps(|s|, |s| / 2)) + Secrets(q, s, RightExps(|s|, |s| / 2))
  {
    hide Tau, LeftExp, RightExp;
  }

  /** Collapsing under keys for tau_g(s) and tau_h(s) keeps the wide phase, up to the switch errors. */
  lemma FullCollapsePhase(S: Setting, kg: Key, kh: Key, a: seq<Poly>, b: Poly, s: Poly, eg: seq<Poly>, eh: seq<Poly>)
    requires PackOk(S, kg, kh, a) && Elem(S.q, S.d, b) && Elem(S.q, S.d, s) && RowOk(S, eg) && RowOk(S, eh)
    requires Switches(S.q, S.z, S.d, S.ell, kg, Tau(S.q, s, LeftExp(S.d, 1)), s, eg)
    requires Switches(S.q, S.z, S.d, S.ell, kh, Tau(S.q, s, 2 * S.d - 1), s, eh)
    ensures |SlotExps(S.d)| == S.d
    ensures Phase(S.q, FullCollapse(S, kg, kh, a, b), s)
            == Add(S.q, WidePhase(S.q, S.d, a, Secrets(S.q, s, SlotExps(S.d)), b), PackError(S, kg, kh, a, b, eg, eh))
  {
    hide *;
    PackErrorIs(S, kg, kh, a, b, eg, eh);
    PackSizes(S, kg, kh, a);
    RowSize(S, eg);
    RowSize(S, eh);
    ElemSize(S.q, S.d, s);
    ElemSize(S.q, S.d, b);
    FullCollapseIs(S, kg, kh, a, b);
    SlotCount(S.d);
    var n := S.d / 2 - 1;
    var sl, sr := Secrets(S.q, s, LeftExps(S.d, n + 1)), Secrets(S.q, s, RightExps(S.d, n + 1));
    ImagesChain(S, kg, s, eg, n);
    ImagesAre(S, kg);
    SecretsOk(S.q, s, LeftExps(S.d, n + 1));
    SecretsOk(S.q, s, RightExps(S.d, n + 1));
    BaseSecrets(S.q, s, n);
    SecretsSplit(S.q, s);
    CollapsePhase(S, IrCtx(a, b), LeftImages(S, kg), RightImages(S, kg), kh, sl, sr,
                  ErrorsAt(S.q, S.d, eg, LeftExps(S.d, n)), ErrorsAt(S.q, S.d, eg, RightExps(S.d, n)), eh);
  }

  lemma ImagesAre(S: Setting, kg: Key)
    requires S.Ok() && S.d >= 2 && Shaped(S.q, S.d, S.ell, kg)
    ensures LeftImages(S, kg) == ImagesAt(S.q, S.d, S.ell, kg, LeftExps(S.d, S.d / 2 - 1))
    ensures RightImages(S, kg) == ImagesAt(S.q, S.d, S.ell, kg, RightExps(S.d, S.d / 2 - 1))
  {
  }

  lemma RowSize(S: Setting, row: seq<Poly>)
    requires RowOk(S, row)
    ensures |row| == S.ell && Elems(S.q, S.d, row)
  {
  }

  lemma PackSizes(S: Setting, kg: Key, kh: Key, a: seq<Poly>)
    requires PackOk(S, kg, kh, a)
    ensures S.Ok() && S.q > 0 && S.d >= 2 && PowerOfTwo(S.d) && S.ell > 0 && S.z >= 2
    ensures |a| == S.d && forall j :: 0 <= j < S.d ==> |a[j]| == S.d
    ensures Shaped(S.q, S.d, S.ell, kg) && Shaped(S.q, S.d, S.ell, kh)
  {
  }

  lemma PackErrorIs(S: Setting, kg: Key, kh: Key, a: seq<Poly>, b: Poly, eg: seq<Poly>, eh: seq<Poly>)
    requires PackOk(S, kg, kh, a) && Elem(S.q, S.d, b) && RowOk(S, eg) && RowOk(S, eh)
    ensures var n := S.d / 2 - 1;
            && CollapseOk(S, IrCtx(a, b), LeftImages(S, kg), RightImages(S, kg), kh)
            && PackError(S, kg, kh, a, b, eg, eh)
            == CollapseError(S, IrCtx(a, b), LeftImages(S, kg), RightImages(S, kg), kh,
                  ErrorsAt(S.q, S.d, eg, LeftExps(S.d, n)), ErrorsAt(S.q, S.d, eg, RightExps(S.d, n)), eh)
  {
    PackOkCollapse(S, kg, kh, a, b);
  }

  /** Packing a batch: public preprocessing of the rows, key binding, then the b scalars. */
  function PackBatch(S: Setting, dInv: int, kg: Key, kh: Key, rows: seq<seq<int>>, bs: seq<int>): (r: Pair)
    requires S.Ok() && S.d >= 2 && PowerOfTwo(S.d) && |rows| == |bs| == S.d && RowsShape(S.d, rows)
    requires Shaped(S.q, S.d, S.ell, kg) && Shaped(S.q, S.d, S.ell, kh)
    ensures |r.a| == S.d && |r.b| == S.d && Canon(S.q, r.a) && Canon(S.q, r.b)
  {
    var pre := BindKeys(S, kg, kh, AAgg(S.q, S.d, dInv, rows));
    Pair(pre.a, Add(S.q, BTilde(S.q, bs), pre.b))
  }

  lemma PackBatchIs(S: Setting, dInv: int, kg: Key, kh: Key, rows: seq<seq<int>>, bs: seq<int>)
    requires S.Ok() && S.d >= 2 && PowerOfTwo(S.d) && |rows| == |bs| == S.d && RowsShape(S.d, rows)
    requires Shaped(S.q, S.d, S.ell, kg) && Shaped(S.q, S.d, S.ell, kh)
    ensures PackOk(S, kg, kh, AAgg(S.q, S.d, dInv, rows)) && Elem(S.q, S.d, BTilde(S.q, bs))
    ensures var pre := BindKeys(S, kg, kh, AAgg(S.q, S.d, dInv, rows));
            PackBatch(S, dInv, kg, kh, rows, bs) == Pair(pre.a, Add(S.q, BTilde(S.q, bs), pre.b))
  {
  }

  /** K_g hides tau_g(s) and K_h hides tau_h(s), both under s, with column errors eg and eh. */
  ghost predicate KeysHide(S: Setting, kg: Key, kh: Key, s: Poly, eg: seq<Poly>, eh: seq<Poly>)
    requires S.Ok() && S.d >= 2
  {
    && Elem(S.q, S.d, s) && RowOk(S, eg) && RowOk(S, eh)
    && Shaped(S.q, S.d, S.ell, kg) && Shaped(S.q, S.d, S.ell, kh)
    && Switches(S.q, S.z, S.d, S.ell, kg, Tau(S.q, s, LeftExp(S.d, 1)), s, eg)
    && Switches(S.q, S.z, S.d, S.ell, kh, Tau(S.q, s, 2 * S.d - 1), s, eh)
  }

  lemma KeysHideParts(S: Setting, kg: Key, kh: Key, s: Poly, eg: seq<Poly>, eh: seq<Poly>)
    requires S.Ok() && S.d >= 2 && KeysHide(S, kg, kh, s, eg, eh)
    ensures Elem(S.q, S.d, s) && RowOk(S, eg) && RowOk(S, eh)
    ensures |s| == S.d && |eg| == S.ell == |eh| && Elems(S.q, S.d, eg) && Elems(S.q, S.d, eh)
    ensures Shaped(S.q, S.d, S.ell, kg) && Shaped(S.q, S.d, S.ell, kh)
    ensures Switches(S.q, S.z, S.d, S.ell, kg, Tau(S.q, s, LeftExp(S.d, 1)), s, eg)
    ensures Switches(S.q, S.z, S.d, S.ell, kh, Tau(S.q, s, 2 * S.d - 1), s, eh)
  {
  }

  /** Keys generated for tau_g(s) and tau_h(s), from any masks and errors, hide what packing needs. */
  lemma GeneratedKeysHide(S: Setting, s: Poly, ag: seq<Poly>, eg: seq<Poly>, ah: seq<Poly>, eh: seq<Poly>)
    requires S.Ok() && S.d >= 2 && Elem(S.q, S.d, s)
    requires RowOk(S, ag) && RowOk(S, eg) && RowOk(S, ah) && RowOk(S, eh)
    ensures S.q > 0 && |s| == S.d && |ag| == |eg| == |ah| == |eh| == S.ell
    ensures forall i :: 0 <= i < S.ell ==> |ag[i]| == |eg[i]| == |ah[i]| == |eh[i]| == S.d
    ensures KeysHide(S, KsSetup(S.q, S.z, Tau(S.q, s, LeftExp(S.d, 1)), s, ag, eg),
                     KsSetup(S.q, S.z, Tau(S.q, s, 2 * S.d - 1), s, ah, eh), s, eg, eh)
  {
    hide Tau, LeftExp, Mul, Add, Scale, Pow, Canon, KsSetup;
    SettingSizes(S);
    ElemSize(S.q, S.d, s);
    SetupSwitches(S.q, S.z, Tau(S.q, s, LeftExp(S.d, 1)), s, ag, eg);
    SetupSwitches(S.q, S.z, Tau(S.q, s, 2 * S.d - 1), s, ah, eh);
    SetupShaped(S, Tau(S.q, s, LeftExp(S.d, 1)), s, ag, eg);
    SetupShaped(S, Tau(S.q, s, 2 * S.d - 1), s, ah, eh);
  }

  /** Uploaded bodies under the top rows of the public masks: the key pair a server restores hides what packing needs. */
  lemma RestoredKeysHide(S: Setting, s: Poly, ag: seq<Poly>, eg: seq<Poly>, ah: seq<Poly>, eh: seq<Poly>)
    requires S.Ok() && S.d >= 2 && Elem(S.q, S.d, s)
    requires RowOk(S, ag) && RowOk(S, eg) && RowOk(S, ah) && RowOk(S, eh)
    ensures S.q > 0 && |s| == S.d && |ag| == |eg| == |ah| == |eh| == S.ell
    ensures forall i :: 0 <= i < S.ell ==> |ag[i]| == |eg[i]| == |ah[i]| == |eh[i]| == S.d
    ensures var kgBody := BodyRow(S.q, S.z, Tau(S.q, s, LeftExp(S.d, 1)), s, ag, eg);
            var khBody := BodyRow(S.q, S.z, Tau(S.q, s, 2 * S.d - 1), s, ah, eh);
            && RowOk(S, kgBody) && RowOk(S, khBody)
            && KeysHide(S, Key(MaskTop(S.q, ag), kgBody), Key(MaskTop(S.q, ah), khBody), s, eg, eh)
  {
    hide Tau, LeftExp, Mul, Add, Scale, Pow, Canon, BodyRow, MaskTop, Switches, Elem, Elems;
    GeneratedKeysHide(S, s, ag, eg, ah, eh);
  }

  /** Top rows of public masks fit a setting. */
  lemma TopRowOk(S: Setting, a: seq<Poly>)
    requires S.Ok() && RowOk(S, a)
    ensures S.q > 0 && RowOk(S, MaskTop(S.q, a))
  {
    hide Scale, Canon;
  }

  lemma SetupShaped(S: Setting, sFrom: Poly, sTo: Poly, a: seq<Poly>, e: seq<Poly>)
    requires S.Ok() && S.q > 0 && |sFrom| == |sTo| == S.d > 0 && |a| == |e| == S.ell
    requires forall i :: 0 <= i < |a| ==> |a[i]| == |sTo| && |e[i]| == |sTo|
    ensures Shaped(S.q, S.d, S.ell, KsSetup(S.q, S.z, sFrom, sTo, a, e))
  {
    hide Mul, Add, Scale, Pow, Canon;
  }

  /** Packing correctness: under s the packed pair reads coefficient k as <a_k, s> + b_k, plus exactly
      the rotated key errors of the d - 1 switches. */
  lemma PackingCorrect(S: Setting, dInv: int, kg: Key, kh: Key, rows: seq<seq<int>>, bs: seq<int>, s: Poly,
                       eg: seq<Poly>, eh: seq<Poly>)
    requires S.Ok() && S.d >= 2 && PowerOfTwo(S.d) && Inverses(S.q, S.d, dInv)
    requires |rows| == |bs| == S.d && RowsShape(S.d, rows) && KeysHide(S, kg, kh, s, eg, eh)
    ensures S.q > 0 && |s| == S.d && Shaped(S.q, S.d, S.ell, kg) && Shaped(S.q, S.d, S.ell, kh)
    ensures RowOk(S, eg) && RowOk(S, eh) && forall k :: 0 <= k < S.d ==> |LwesOf(rows, bs)[k].a| == |s|
    ensures PackOk(S, kg, kh, AAgg(S.q, S.d, dInv, rows)) && Elem(S.q, S.d, BTilde(S.q, bs))
    ensures Phase(S.q, PackBatch(S, dInv, kg, kh, rows, bs), s)
            == Add(S.q, Message(S.q, LwesOf(rows, bs), s),
                   PackError(S, kg, kh, AAgg(S.q, S.d, dInv, rows), BTilde(S.q, bs), eg, eh))
  {
    hide *;
    SettingSizes(S);
    KeysHideParts(S, kg, kh, s, eg, eh);
    PackBatchIs(S, dInv, kg, kh, rows, bs);
    var a, b := AAgg(S.q, S.d, dInv, rows), BTilde(S.q, bs);
    PackSizes(S, kg, kh, a);
    ElemSize(S.q, S.d, s);
    RowSizes(S.d, rows);
    CollapseAffine(S, kg, kh, a, b);
    FullCollapsePhase(S, kg, kh, a, b, s, eg, eh);
    DirectAggregate(S.q, S.d, dInv, rows, bs);
    PackedPhase(S.q, dInv, LwesOf(rows, bs), s);
  }
}
