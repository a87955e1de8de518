/** The collapse split into its public mask side and its additive body side
    (inspiring/src/collapse.rs, inspiring/src/preprocess.rs, inspiring/src/preprocess_reuse.rs). */
module MaskCascade {
  import opened Ring
  import opened RingLaws
  import opened KeySwitch
  import opened Collapse

  predicate RowOk(S: Setting, row: seq<Poly>) {
    |row| == S.ell && Elems(S.q, S.d, row)
  }

  predicate RowsOk(S: Setting, rows: seq<seq<Poly>>) {
    forall i :: 0 <= i < |rows| ==> RowOk(S, rows[i])
  }

  predicate SlotsOk(S: Setting, a: seq<Poly>) {
    S.Ok() && |a| > 0 && Elems(S.q, S.d, a)
  }

  /** row * digits. */
  function Product(S: Setting, row: seq<Poly>, digits: seq<Poly>): (r: Poly)
    requires S.Ok() && RowOk(S, row) && |digits| == S.ell && forall i :: 0 <= i < S.ell ==> |digits[i]| == S.d
    ensures |r| == S.d && Canon(S.q, r)
  {
    Dot(S.q, S.d, row, digits, S.ell)
  }

  /** One step on the mask side: it reads no body row and no running body. */
  function MaskStep(S: Setting, a: seq<Poly>, mask: seq<Poly>): (r: seq<Poly>)
    requires SlotsOk(S, a) && |a| >= 2 && RowOk(S, mask)
    ensures SlotsOk(S, r) && |r| == |a| - 1
  {
    var n := |a|;
    a[..n - 1][n - 2 := Add(S.q, a[n - 2], Product(S, mask, DigitsOf(S, a[n - 1])))]
  }

  function MaskHalf(S: Setting, a: seq<Poly>, masks: seq<seq<Poly>>): (r: Poly)
    requires SlotsOk(S, a) && RowsOk(S, masks) && |a| <= |masks| + 1
    ensures |r| == S.d && Canon(S.q, r)
    decreases |a|
  {
    if |a| == 1 then a[0] else MaskHalf(S, MaskStep(S, a, masks[|a| - 2]), masks)
  }

  /** The digit blocks a half consumes, in execution order. */
  function MaskDigits(S: Setting, a: seq<Poly>, masks: seq<seq<Poly>>): (r: seq<seq<Poly>>)
    requires SlotsOk(S, a) && RowsOk(S, masks) && |a| <= |masks| + 1
    ensures |r| == |a| - 1
    ensures forall t :: 0 <= t < |r| ==> |r[t]| == S.ell && forall i :: 0 <= i < S.ell ==> |r[t][i]| == S.d
    decreases |a|
  {
    if |a| == 1 then []
    else [DigitsOf(S, a[|a| - 1])] + MaskDigits(S, MaskStep(S, a, masks[|a| - 2]), masks)
  }

  predicate BlocksOk(S: Setting, blocks: seq<seq<Poly>>) {
    forall t :: 0 <= t < |blocks| ==> |blocks[t]| == S.ell && forall i :: 0 <= i < S.ell ==> |blocks[t][i]| == S.d
  }

  /** Sum of body row times digit block; the first block meets the highest body row. */
  function BodySum(S: Setting, rows: seq<seq<Poly>>, blocks: seq<seq<Poly>>): (r: Poly)
    requires S.Ok() && RowsOk(S, rows) && BlocksOk(S, blocks) && |blocks| <= |rows|
    ensures |r| == S.d && Canon(S.q, r)
    decreases |blocks|
  {
    if blocks == [] then Zero(S.d)
    else Add(S.q, Product(S, rows[|blocks| - 1], blocks[0]), BodySum(S, rows, blocks[1..]))
  }

  function MasksOf(ks: seq<Key>): (r: seq<seq<Poly>>)
    ensures |r| == |ks| && forall i :: 0 <= i < |ks| ==> r[i] == ks[i].w
  {
    seq(|ks|, i requires 0 <= i < |ks| => ks[i].w)
  }

  function BodiesOf(ks: seq<Key>): (r: seq<seq<Poly>>)
    ensures |r| == |ks| && forall i :: 0 <= i < |ks| ==> r[i] == ks[i].y
  {
    seq(|ks|, i requires 0 <= i < |ks| => ks[i].y)
  }

  lemma StepSplits(S: Setting, st: Wide, k: Key)
    requires WideOk(S, st) && |st.a| >= 2 && Shaped(S.q, S.d, S.ell, k)
    ensures SlotsOk(S, st.a) && RowOk(S, k.w) && RowOk(S, k.y)
    ensures StepOne(S, st, k)
            == Wide(MaskStep(S, st.a, k.w), Add(S.q, Product(S, k.y, DigitsOf(S, st.a[|st.a| - 1])), st.b))
  {
  }

  lemma KeyRowsOk(S: Setting, ks: seq<Key>)
    requires KeysOk(S, ks)
    ensures RowsOk(S, MasksOf(ks)) && RowsOk(S, BodiesOf(ks))
  {
  }

  lemma MaskUnfold(S: Setting, a: seq<Poly>, masks: seq<seq<Poly>>)
    requires SlotsOk(S, a) && RowsOk(S, masks) && 2 <= |a| <= |masks| + 1
    ensures RowOk(S, masks[|a| - 2])
    ensures MaskHalf(S, a, masks) == MaskHalf(S, MaskStep(S, a, masks[|a| - 2]), masks)
    ensures MaskDigits(S, a, masks)
            == [DigitsOf(S, a[|a| - 1])] + MaskDigits(S, MaskStep(S, a, masks[|a| - 2]), masks)
  {
  }

  lemma HalfUnfold(S: Setting, st: Wide, images: seq<Key>)
    requires WideOk(S, st) && KeysOk(S, images) && 2 <= |st.a| <= |images| + 1
    ensures Shaped(S.q, S.d, S.ell, images[|st.a| - 2])
    ensures Half(S, st, images) == Half(S, StepOne(S, st, images[|st.a| - 2]), images)
  {
    hide StepOne, Shaped, WideOk, KeysOk, Setting.Ok;
    HalfShape(S, st, images);
  }

  lemma HalfShape(S: Setting, st: Wide, images: seq<Key>)
    requires WideOk(S, st) && KeysOk(S, images) && 2 <= |st.a| <= |images| + 1
    ensures S.Ok() && Shaped(S.q, S.d, S.ell, images[|st.a| - 2])
  {
    hide Elem, Elems, GadgetFits;
  }

  lemma BodySumUnfold(S: Setting, rows: seq<seq<Poly>>, block: seq<Poly>, rest: seq<seq<Poly>>)
    requires S.Ok() && RowsOk(S, rows) && |rest| < |rows| && BlocksOk(S, [block] + rest)
    ensures BlocksOk(S, rest) && RowOk(S, rows[|rest|])
    ensures |block| == S.ell && forall i :: 0 <= i < S.ell ==> |block[i]| == S.d
    ensures BodySum(S, rows, [block] + rest) == Add(S.q, Product(S, rows[|rest|], block), BodySum(S, rows, rest))
  {
    var blocks := [block] + rest;
    assert blocks[0] == block && blocks[1..] == rest;
    forall t | 0 <= t < |rest|
      ensures |rest[t]| == S.ell && forall i :: 0 <= i < S.ell ==> |rest[t][i]| == S.d
    {
      assert rest[t] == blocks[t + 1];
    }
  }

  lemma MaskDigitsOk(S: Setting, a: seq<Poly>, masks: seq<seq<Poly>>)
    requires SlotsOk(S, a) && RowsOk(S, masks) && |a| <= |masks| + 1
    ensures BlocksOk(S, MaskDigits(S, a, masks))
  {
  }

  lemma SettingSizes(S: Setting)
    requires S.Ok()
    ensures S.q > 0 && S.d > 0 && S.ell > 0 && S.z >= 2
  {
  }

  /** A half cascade is a mask cascade that never looks at bodies, plus one sum over the bodies. */
  lemma {:induction false} HalfSplits(S: Setting, st: Wide, images: seq<Key>)
    requires WideOk(S, st) && KeysOk(S, images) && |st.a| <= |images| + 1
    ensures SlotsOk(S, st.a) && RowsOk(S, MasksOf(images)) && RowsOk(S, BodiesOf(images))
    ensures BlocksOk(S, MaskDigits(S, st.a, MasksOf(images)))
    ensures Half(S, st, images)
            == Wide([MaskHalf(S, st.a, MasksOf(images))],
                    Add(S.q, st.b, BodySum(S, BodiesOf(images), MaskDigits(S, st.a, MasksOf(images)))))
    decreases |st.a|
  {
    var masks, rows := MasksOf(images), BodiesOf(images);
    KeyRowsOk(S, images);
    MaskDigitsOk(S, st.a, masks);
    if |st.a| == 1 {
      AddZero(S.q, st.b);
    } else {
      HalfSplitsStep(S, st, images);
    }
  }

  lemma {:induction false} HalfSplitsStep(S: Setting, st: Wide, images: seq<Key>)
    requires WideOk(S, st) && KeysOk(S, images) && 2 <= |st.a| <= |images| + 1
    requires SlotsOk(S, st.a) && RowsOk(S, MasksOf(images)) && RowsOk(S, BodiesOf(images))
    requires BlocksOk(S, MaskDigits(S, st.a, MasksOf(images)))
    ensures Half(S, st, images)
            == Wide([MaskHalf(S, st.a, MasksOf(images))],
                    Add(S.q, st.b, BodySum(S, BodiesOf(images), MaskDigits(S, st.a, MasksOf(images)))))
    decreases |st.a|, 0
  {
    hide *;
    var n, masks, rows := |st.a|, MasksOf(images), BodiesOf(images);
    var k := images[n - 2];
    SettingOf(S, st);
    SettingSizes(S);
    WideSizes(S, st);
    HalfUnfold(S, st, images);
    MaskUnfold(S, st.a, masks);
    StepSplits(S, st, k);
    var next, block := StepOne(S, st, k), DigitsOf(S, st.a[n - 1]);
    HalfSplits(S, next, images);
    var rest := MaskDigits(S, next.a, masks);
    BodySumUnfold(S, rows, block, rest);
    var p := Product(S, k.y, block);
    AddComm(S.q, p, st.b);
    AddAssoc(S.q, st.b, p, BodySum(S, rows, rest));
  }

  lemma SettingOf(S: Setting, st: Wide)
    requires WideOk(S, st)
    ensures S.Ok()
  {
  }
}
