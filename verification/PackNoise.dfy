/** The error of a packed ciphertext, in closed form: it is the body chain of the upload, run on the
    key errors instead of the key bodies. */
module PackNoise {
  import opened Ring
  import opened Galois
  import opened KeySwitch
  import opened Intermediate
  import opened Collapse
  import opened MaskCascade
  import opened Packing
  import opened Preprocess
  import Modular

  lemma ErrorRows(S: Setting, errs: seq<seq<Poly>>)
    requires ErrsOk(S, errs)
    ensures RowsOk(S, errs)
  {
  }

  lemma ErrorAt(S: Setting, errs: seq<seq<Poly>>, i: nat)
    requires ErrsOk(S, errs) && i < |errs|
    ensures |errs[i]| == S.ell && Elems(S.q, S.d, errs[i])
  {
  }

  lemma HalfErrorUnfold(S: Setting, st: Wide, images: seq<Key>, errs: seq<seq<Poly>>, k: Key, es: seq<Poly>, c: Poly)
    requires WideOk(S, st) && KeysOk(S, images) && 2 <= |st.a| <= |images| + 1 && |errs| == |images|
    requires ErrsOk(S, errs) && S.q > 0 && S.d > 0 && S.z >= 2 && S.ell > 0
    requires k == images[|st.a| - 2] && es == errs[|st.a| - 2] && c == st.a[|st.a| - 1]
    requires Shaped(S.q, S.d, S.ell, k) && |c| == S.d && |es| == S.ell && forall i :: 0 <= i < S.ell ==> |es[i]| == S.d
    ensures HalfError(S, st, images, errs)
            == Add(S.q, SwitchError(S.q, S.z, S.ell, S.d, es, c), HalfError(S, StepOne(S, st, k), images, errs))
  {
    hide StepOne, StepDigits, SwitchWithDigits, SwitchError, DigitsOf, GadgetDigits, Add, WideOk, KeysOk, ErrsOk, Elems,
         Canon, Shaped, GadgetFits;
  }

  lemma HalfErrorEnd(S: Setting, st: Wide, images: seq<Key>, errs: seq<seq<Poly>>)
    requires WideOk(S, st) && KeysOk(S, images) && |st.a| == 1 && |errs| == |images|
    requires ErrsOk(S, errs)
    ensures HalfError(S, st, images, errs) == Zero(S.d)
  {
  }

  /** The errors of a half are the body sum of the error rows over the digits of the mask cascade. */
  lemma {:induction false} HalfErrorSum(S: Setting, st: Wide, images: seq<Key>, errs: seq<seq<Poly>>)
    requires WideOk(S, st) && KeysOk(S, images) && |st.a| <= |images| + 1 && |errs| == |images|
    requires ErrsOk(S, errs)
    ensures S.Ok() && SlotsOk(S, st.a) && RowsOk(S, MasksOf(images)) && RowsOk(S, errs)
    ensures BlocksOk(S, MaskDigits(S, st.a, MasksOf(images)))
    ensures HalfError(S, st, images, errs) == BodySum(S, errs, MaskDigits(S, st.a, MasksOf(images)))
    decreases |st.a|
  {
    hide *;
    var n, masks := |st.a|, MasksOf(images);
    SettingOf(S, st);
    SlotsFromWide(S, st);
    SlotSizes(S, st.a);
    KeyRowsOk(S, images);
    ErrorRows(S, errs);
    MaskDigitsOk(S, st.a, masks);
    if n == 1 {
      HalfErrorEnd(S, st, images, errs);
      MaskEnd(S, st.a, masks);
      BodySumEnd(S, errs, MaskDigits(S, st.a, masks));
    } else {
      KeyAt(S, images, n - 2);
      ErrorAt(S, errs, n - 2);
      SettingSizes(S);
      ElemsSizes(S.q, S.d, errs[n - 2]);
      HalfErrorUnfold(S, st, images, errs, images[n - 2], errs[n - 2], st.a[n - 1]);
      FinalError(S, errs[n - 2], st.a[n - 1]);
      MaskUnfold(S, st.a, masks);
      StepSplits(S, st, images[n - 2]);
      var next := StepOne(S, st, images[n - 2]);
      HalfErrorSum(S, next, images, errs);
      BodySumUnfold(S, errs, DigitsOf(S, st.a[n - 1]), MaskDigits(S, next.a, masks));
    }
  }

  lemma FinalError(S: Setting, eh: seq<Poly>, c: Poly)
    requires S.Ok() && |eh| == S.ell && Elems(S.q, S.d, eh) && |c| == S.d
    ensures RowOk(S, eh) && S.q > 0 && S.d > 0 && S.z >= 2 && S.ell > 0
    ensures SwitchError(S.q, S.z, S.ell, S.d, eh, c) == Product(S, eh, DigitsOf(S, c))
  {
  }

  /** The errors of a whole collapse, as the body chain over the d - 1 recorded digit blocks. */
  lemma CollapseErrorSum(S: Setting, agg: IrCtx, left: seq<Key>, right: seq<Key>, kh: Key,
                         leftErrs: seq<seq<Poly>>, rightErrs: seq<seq<Poly>>, eh: seq<Poly>)
    requires CollapseOk(S, agg, left, right, kh)
    requires |leftErrs| == |left| && |rightErrs| == |right| && ErrsOk(S, leftErrs) && ErrsOk(S, rightErrs)
    requires |eh| == S.ell && Elems(S.q, S.d, eh)
    ensures MasksOk(S, agg.aHat, MasksOf(left), MasksOf(right), kh.w)
    ensures S.Ok() && RowsOk(S, leftErrs) && RowsOk(S, rightErrs) && RowOk(S, eh)
    ensures |left| == |right| && |agg.aHat| == |left| + |right| + 2
    ensures CollapseError(S, agg, left, right, kh, leftErrs, rightErrs, eh)
            == BodyChain(S, Zero(S.d), leftErrs, rightErrs, eh,
                         PublicTrace(S, agg.aHat, MasksOf(left), MasksOf(right), kh.w).blocks)
  {
    hide *;
    KeysMasksOk(S, agg, left, right, kh);
    CollapseParts(S, agg, left, right, kh);
    CollapseErrorIs(S, agg, left, right, kh, leftErrs, rightErrs, eh);
    ErrorRows(S, leftErrs);
    ErrorRows(S, rightErrs);
    SettingSizes(S);
    var n, a := |left| + 1, agg.aHat;
    var t := PublicTrace(S, a, MasksOf(left), MasksOf(right), kh.w);
    TraceParts(S, a, MasksOf(left), MasksOf(right), kh.w);
    var lb := LeftHalf(S, agg, left, right, kh).b;
    HalfErrorSum(S, Wide(a[..n], agg.bTilde), left, leftErrs);
    HalfErrorSum(S, Wide(a[n..], lb), right, rightErrs);
    HalfSplits(S, Wide(a[n..], lb), right);
    var j := Joined(S, agg, left, right, kh);
    WideSizes(S, j);
    FinalError(S, eh, j.a[1]);
    BodyChainIs(S, Zero(S.d), leftErrs, rightErrs, eh, t.blocks);
    AddZero(S.q, BodySum(S, leftErrs, t.blocks[..n - 1]));
  }

  lemma ErrorsAreRows(S: Setting, eg: seq<Poly>)
    requires S.Ok() && S.d >= 2 && RowOk(S, eg)
    ensures Elems(S.q, S.d, eg)
    ensures ErrorsAt(S.q, S.d, eg, LeftExps(S.d, S.d / 2 - 1)) == LeftRows(S, eg)
    ensures ErrorsAt(S.q, S.d, eg, RightExps(S.d, S.d / 2 - 1)) == RightRows(S, eg)
    ensures ErrsOk(S, LeftRows(S, eg)) && ErrsOk(S, RightRows(S, eg))
  {
  }

  /** The packing error depends on the masks and the key errors only, never on the bodies or the batch's b. */
  lemma PackErrorSum(S: Setting, kg: Key, kh: Key, a: seq<Poly>, b: Poly, eg: seq<Poly>, eh: seq<Poly>)
    requires PackOk(S, kg, kh, a) && Elem(S.q, S.d, b) && RowOk(S, eg) && RowOk(S, eh)
    ensures S.Ok() && S.d >= 2 && S.d % 2 == 0 && |a| == S.d && Elems(S.q, S.d, a) && RowOk(S, kg.w) && RowOk(S, kh.w)
    ensures |BlockTrace(S, a, kg.w, kh.w).blocks| == S.d - 1
    ensures PackError(S, kg, kh, a, b, eg, eh)
            == BodyChain(S, Zero(S.d), LeftRows(S, eg), RightRows(S, eg), eh, BlockTrace(S, a, kg.w, kh.w).blocks)
  {
    hide *;
    PackSizes(S, kg, kh, a);
    PackElems(S, kg, kh, a);
    SlotCount(S.d);
    PackErrorIs(S, kg, kh, a, b, eg, eh);
    ErrorsAreRows(S, eg);
    RowSize(S, eh);
    ImageRows(S, kg);
    ImageRows(S, kh);
    CollapseErrorSum(S, IrCtx(a, b), LeftImages(S, kg), RightImages(S, kg), kh, LeftRows(S, eg), RightRows(S, eg), eh);
    BlockTraceIs(S, a, kg.w, kh.w);
  }

  /** A stored trace and uploaded bodies decrypt to the packed batch plus the same chain over the key errors. */
  lemma UploadedCorrect(S: Setting, dInv: int, kg: Key, kh: Key, rows: seq<seq<int>>, bs: seq<int>, s: Poly,
                        eg: seq<Poly>, eh: seq<Poly>)
    requires S.Ok() && S.d >= 2 && S.d % 2 == 0 && PowerOfTwo(S.d) && Modular.Inverses(S.q, S.d, dInv)
    requires |rows| == |bs| == S.d && RowsShape(S.d, rows) && KeysHide(S, kg, kh, s, eg, eh)
    ensures S.q > 0 && |s| == S.d && RowOk(S, eg) && RowOk(S, eh)
    ensures RowOk(S, kg.w) && RowOk(S, kh.w) && RowOk(S, kg.y) && RowOk(S, kh.y)
    ensures Elems(S.q, S.d, AAgg(S.q, S.d, dInv, rows)) && forall k :: 0 <= k < S.d ==> |LwesOf(rows, bs)[k].a| == |s|
    ensures var t := BlockTrace(S, AAgg(S.q, S.d, dInv, rows), kg.w, kh.w);
            Phase(S.q, UploadedPack(S, t, kg.y, kh.y, BTilde(S.q, bs)), s)
            == Add(S.q, Message(S.q, LwesOf(rows, bs), s),
                   BodyChain(S, Zero(S.d), LeftRows(S, eg), RightRows(S, eg), eh, t.blocks))
  {
    hide *;
    SettingSizes(S);
    KeysHideParts(S, kg, kh, s, eg, eh);
    PackBatchIs(S, dInv, kg, kh, rows, bs);
    var a, b := AAgg(S.q, S.d, dInv, rows), BTilde(S.q, bs);
    PackingCorrect(S, dInv, kg, kh, rows, bs, s, eg, eh);
    PackErrorSum(S, kg, kh, a, b, eg, eh);
    UploadedMatchesBound(S, a, kg, kh, b);
  }
}
