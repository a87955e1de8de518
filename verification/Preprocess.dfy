/** The program's preprocessing and packing routines, and the equality of their two request paths
    (inspiring/src/preprocess.rs, inspiring/src/preprocess_reuse.rs, inspiring/src/pack.rs). */
module Preprocess {
  import opened Wrappers
  import opened Ring
  import opened Galois
  import opened KeySwitch
  import opened Intermediate
  import opened Collapse
  import opened MaskCascade
  import opened Packing

  /** The images of one key row under the exponents ts. */
  function RowsAt(S: Setting, row: seq<Poly>, ts: seq<int>): (r: seq<seq<Poly>>)
    requires S.Ok() && RowOk(S, row)
    ensures |r| == |ts| && RowsOk(S, r)
    ensures forall j :: 0 <= j < |row| ==> |row[j]| > 0
    ensures forall i :: 0 <= i < |ts| ==> r[i] == MapTau(S.q, row, ts[i])
  {
    seq(|ts|, i requires 0 <= i < |ts| => MapTau(S.q, row, ts[i]))
  }

  function LeftRows(S: Setting, row: seq<Poly>): (r: seq<seq<Poly>>)
    requires S.Ok() && S.d >= 2 && RowOk(S, row)
    ensures |r| == S.d / 2 - 1 && RowsOk(S, r)
  {
    RowsAt(S, row, LeftExps(S.d, S.d / 2 - 1))
  }

  function RightRows(S: Setting, row: seq<Poly>): (r: seq<seq<Poly>>)
    requires S.Ok() && S.d >= 2 && RowOk(S, row)
    ensures |r| == S.d / 2 - 1 && RowsOk(S, r)
  {
    RowsAt(S, row, RightExps(S.d, S.d / 2 - 1))
  }

  /** Rows of the images are images of the rows. */
  lemma ImageRows(S: Setting, k: Key)
    requires S.Ok() && S.d >= 2 && Shaped(S.q, S.d, S.ell, k)
    ensures RowOk(S, k.w) && RowOk(S, k.y)
    ensures MasksOf(LeftImages(S, k)) == LeftRows(S, k.w) && BodiesOf(LeftImages(S, k)) == LeftRows(S, k.y)
    ensures MasksOf(RightImages(S, k)) == RightRows(S, k.w) && BodiesOf(RightImages(S, k)) == RightRows(S, k.y)
  {
    hide Tau, LeftExp, RightExp, Pow, GadgetFits;
  }

  /** The trace the server stores for a CRS block under the fixed public mask rows. */
  function BlockTrace(S: Setting, a: seq<Poly>, kgTop: seq<Poly>, khTop: seq<Poly>): (t: Trace)
    requires S.Ok() && S.d >= 2 && S.d % 2 == 0 && |a| == S.d && Elems(S.q, S.d, a) && RowOk(S, kgTop) && RowOk(S, khTop)
    ensures |t.c1| == S.d && Canon(S.q, t.c1) && |t.blocks| == S.d - 1 && BlocksOk(S, t.blocks)
  {
    PublicTrace(S, a, LeftRows(S, kgTop), RightRows(S, kgTop), khTop)
  }

  /** A request: uploaded body rows and body polynomial against a stored trace. */
  function UploadedPack(S: Setting, t: Trace, kgBody: seq<Poly>, khBody: seq<Poly>, b: Poly): (r: Pair)
    requires S.Ok() && S.d >= 2 && S.d % 2 == 0 && RowOk(S, kgBody) && RowOk(S, khBody) && |b| == S.d
    requires |t.blocks| == S.d - 1 && BlocksOk(S, t.blocks)
    ensures |r.b| == S.d && Canon(S.q, r.b)
  {
    Pair(t.c1, BodyChain(S, b, LeftRows(S, kgBody), RightRows(S, kgBody), khBody, t.blocks))
  }

  /** The stored trace and the uploaded bodies give the ciphertext that binding the full key pair gives. */
  lemma UploadedMatchesBound(S: Setting, a: seq<Poly>, kg: Key, kh: Key, b: Poly)
    requires PackOk(S, kg, kh, a) && Elem(S.q, S.d, b)
    ensures S.d % 2 == 0 && RowOk(S, kg.w) && RowOk(S, kg.y) && RowOk(S, kh.w) && RowOk(S, kh.y)
    ensures S.Ok() && S.d >= 2 && |a| == S.d && Elems(S.q, S.d, a) && |b| == S.d
    ensures UploadedPack(S, BlockTrace(S, a, kg.w, kh.w), kg.y, kh.y, b) == FullCollapse(S, kg, kh, a, b)
    ensures UploadedPack(S, BlockTrace(S, a, kg.w, kh.w), kg.y, kh.y, b)
            == Pair(BindKeys(S, kg, kh, a).a, Add(S.q, b, BindKeys(S, kg, kh, a).b))
  {
    hide *;
    PackSizes(S, kg, kh, a);
    PackElems(S, kg, kh, a);
    ElemSize(S.q, S.d, b);
    SlotCount(S.d);
    FullCollapseIs(S, kg, kh, a, b);
    ImageRows(S, kg);
    ImageRows(S, kh);
    CollapseSplits(S, IrCtx(a, b), LeftImages(S, kg), RightImages(S, kg), kh);
    BlockTraceIs(S, a, kg.w, kh.w);
    UploadedPackIs(S, BlockTrace(S, a, kg.w, kh.w), kg.y, kh.y, b);
    CollapseAffine(S, kg, kh, a, b);
  }

  lemma PackElems(S: Setting, kg: Key, kh: Key, a: seq<Poly>)
    requires PackOk(S, kg, kh, a)
    ensures Elems(S.q, S.d, a)
  {
  }

  lemma BlockTraceIs(S: Setting, a: seq<Poly>, kgTop: seq<Poly>, khTop: seq<Poly>)
    requires S.Ok() && S.d >= 2 && S.d % 2 == 0 && |a| == S.d && Elems(S.q, S.d, a) && RowOk(S, kgTop) && RowOk(S, khTop)
    ensures MasksOk(S, a, LeftRows(S, kgTop), RightRows(S, kgTop), khTop)
    ensures BlockTrace(S, a, kgTop, khTop) == PublicTrace(S, a, LeftRows(S, kgTop), RightRows(S, kgTop), khTop)
  {
  }

  lemma UploadedPackIs(S: Setting, t: Trace, kgBody: seq<Poly>, khBody: seq<Poly>, b: Poly)
    requires S.Ok() && S.d >= 2 && S.d % 2 == 0 && RowOk(S, kgBody) && RowOk(S, khBody) && |b| == S.d
    requires |t.blocks| == S.d - 1 && BlocksOk(S, t.blocks)
    ensures UploadedPack(S, t, kgBody, khBody, b)
            == Pair(t.c1, BodyChain(S, b, LeftRows(S, kgBody), RightRows(S, kgBody), khBody, t.blocks))
  {
  }

  // ----- preprocessing loops -----

  /** collect_half_digits: runs the cascade on full keys and records each digit block. */
  method CollectHalfDigits(S: Setting, state: CollapseState, images: seq<Key>) returns (digits: seq<seq<Poly>>)
    requires WideOk(S, state.Value()) && KeysOk(S, images) && |state.a| == |images| + 1
    requires SlotsOk(S, state.a) && RowsOk(S, MasksOf(images))
    modifies state
    ensures WideOk(S, state.Value()) && state.a == [MaskHalf(S, old(state.a), MasksOf(images))]
    ensures digits == MaskDigits(S, old(state.a), MasksOf(images))
  {
    hide *;
    digits := [];
    ghost var masks := MasksOf(images);
    while |state.a| > 1
      invariant WideOk(S, state.Value()) && SlotsOk(S, state.a) && 0 < |state.a| <= |images| + 1
      invariant MaskHalf(S, state.a, masks) == MaskHalf(S, old(state.a), masks)
      invariant digits + MaskDigits(S, state.a, masks) == MaskDigits(S, old(state.a), masks)
      decreases |state.a|
    {
      var i := |state.a| - 2;
      ValueOf(state);
      SettingOf(S, state.Value());
      WideSizes(S, state.Value());
      KeyAt(S, images, i);
      var block := DigitsOf(S, state.a[i + 1]);
      MaskUnfold(S, state.a, masks);
      StepSplits(S, state.Value(), images[i]);
      StepOneIs(S, state.Value(), images[i]);
      state.CollapseOneWithDigits(S, images[i], block);
      ValueOf(state);
      SlotsFromWide(S, state.Value());
      digits := digits + [block];
    }
    MaskEnd(S, state.a, masks);
  }

  lemma ValueOf(state: CollapseState)
    ensures state.Value() == Wide(state.a, state.b)
  {
  }

  lemma KeyAt(S: Setting, ks: seq<Key>, i: nat)
    requires KeysOk(S, ks) && i < |ks|
    ensures Shaped(S.q, S.d, S.ell, ks[i])
  {
  }

  lemma StepOneIs(S: Setting, st: Wide, k: Key)
    requires WideOk(S, st) && |st.a| >= 2 && Shaped(S.q, S.d, S.ell, k)
    ensures StepOne(S, st, k) == StepDigits(S, st, k, DigitsOf(S, st.a[|st.a| - 1]))
  {
  }

  lemma SlotsFromWide(S: Setting, st: Wide)
    requires WideOk(S, st)
    ensures SlotsOk(S, st.a)
  {
  }

  lemma MaskEnd(S: Setting, a: seq<Poly>, masks: seq<seq<Poly>>)
    requires SlotsOk(S, a) && RowsOk(S, masks) && |a| == 1
    ensures MaskHalf(S, a, masks) == a[0] && MaskDigits(S, a, masks) == []
  {
  }

  /** The same half on mask rows alone, as the mask-reuse builder runs it. */
  method ReuseHalf(S: Setting, slots0: seq<Poly>, masks: seq<seq<Poly>>) returns (survivor: Poly, digits: seq<seq<Poly>>)
    requires SlotsOk(S, slots0) && RowsOk(S, masks) && |slots0| == |masks| + 1
    ensures survivor == MaskHalf(S, slots0, masks) && digits == MaskDigits(S, slots0, masks)
  {
    hide *;
    var slots := slots0;
    digits := [];
    while |slots| > 1
      invariant SlotsOk(S, slots) && 0 < |slots| <= |masks| + 1
      invariant MaskHalf(S, slots, masks) == MaskHalf(S, slots0, masks)
      invariant digits + MaskDigits(S, slots, masks) == MaskDigits(S, slots0, masks)
      decreases |slots|
    {
      var index := |slots| - 2;
      MaskUnfold(S, slots, masks);
      SlotSizes(S, slots);
      MaskStepIs(S, slots, masks[index]);
      var next := DigitsOf(S, slots[index + 1]);
      slots := slots[index := Add(S.q, slots[index], Product(S, masks[index], next))];
      slots := slots[..index + 1];
      digits := digits + [next];
    }
    MaskEnd(S, slots, masks);
    survivor := slots[0];
  }

  lemma SlotSizes(S: Setting, a: seq<Poly>)
    requires SlotsOk(S, a)
    ensures S.Ok() && S.q > 0 && |a| > 0 && forall i :: 0 <= i < |a| ==> |a[i]| == S.d && Elem(S.q, S.d, a[i])
  {
  }

  lemma MaskStepIs(S: Setting, a: seq<Poly>, mask: seq<Poly>)
    requires SlotsOk(S, a) && |a| >= 2 && RowOk(S, mask)
    ensures S.q > 0 && |a[|a| - 2]| == |a[|a| - 1]| == S.d
    ensures var n := |a|;
            MaskStep(S, a, mask)
            == a[n - 2 := Add(S.q, a[n - 2], Product(S, mask, DigitsOf(S, a[n - 1])))][..n - 1]
  {
  }

  /** preprocess_reuse::build: both halves independently, then the final product. */
  method BuildWithTop(S: Setting, a: seq<Poly>, leftTops: seq<seq<Poly>>, rightTops: seq<seq<Poly>>, khTop: seq<Poly>)
    returns (t: Trace)
    requires MasksOk(S, a, leftTops, rightTops, khTop)
    ensures t == PublicTrace(S, a, leftTops, rightTops, khTop)
  {
    hide *;
    TraceParts(S, a, leftTops, rightTops, khTop);
    MasksParts(S, a, leftTops, rightTops, khTop);
    var n := |leftTops| + 1;
    var left, digits := ReuseHalf(S, a[..n], leftTops);
    var right, rightDigits := ReuseHalf(S, a[n..], rightTops);
    SettingSizes(S);
    digits := digits + rightDigits;
    var last := DigitsOf(S, right);
    var c1 := Add(S.q, left, Product(S, khTop, last));
    t := Trace(c1, digits + [last]);
    ghost var want := PublicTrace(S, a, leftTops, rightTops, khTop);
    assert want.blocks == want.blocks[..n - 1] + want.blocks[n - 1..2 * n - 2] + [want.blocks[2 * n - 2]];
  }

  lemma MasksParts(S: Setting, a: seq<Poly>, left: seq<seq<Poly>>, right: seq<seq<Poly>>, last: seq<Poly>)
    requires MasksOk(S, a, left, right, last)
    ensures S.Ok() && |left| == |right| && |a| == 2 * (|left| + 1) && RowsOk(S, left) && RowsOk(S, right) && RowOk(S, last)
    ensures Elems(S.q, S.d, a)
  {
  }

  /** A public mask row over a zero body, as fixed_reference_key builds it. */
  function ReferenceKey(S: Setting, top: seq<Poly>): (k: Key)
    requires S.Ok() && RowOk(S, top)
    ensures Shaped(S.q, S.d, S.ell, k) && k.w == top
  {
    Key(top, seq(S.ell, _ => Zero(S.d)))
  }

  /** precompute_reference_trace: the general cascade on zero-body keys gives the public trace. */
  method PrecomputeReferenceTrace(S: Setting, a: seq<Poly>, kgTop: seq<Poly>, khTop: seq<Poly>) returns (t: Trace)
    requires S.Ok() && S.d >= 2 && S.d % 2 == 0 && |a| == S.d && Elems(S.q, S.d, a) && RowOk(S, kgTop) && RowOk(S, khTop)
    ensures t == BlockTrace(S, a, kgTop, khTop)
  {
    hide *;
    SettingSizes(S);
    var kg, kh := ReferenceKey(S, kgTop), ReferenceKey(S, khTop);
    var leftImages, rightImages := LeftImages(S, kg), RightImages(S, kg);
    ImageRows(S, kg);
    ImageRows(S, kh);
    BlockTraceIs(S, a, kgTop, khTop);
    TraceParts(S, a, LeftRows(S, kgTop), RightRows(S, kgTop), khTop);
    ImagesOk(S, kg);
    KeyRowsOk(S, leftImages);
    KeyRowsOk(S, rightImages);
    var n := S.d / 2;
    ZeroCanon(S.q, S.d);
    var ls := new CollapseState(a[..n], Zero(S.d), 0);
    WideFromSlots(S, a[..n], Zero(S.d));
    ValueOf(ls);
    var digits := CollectHalfDigits(S, ls, leftImages);
    ValueOf(ls);
    WideSizes(S, ls.Value());
    ElemSize(S.q, S.d, ls.b);
    var rs := new CollapseState(a[n..], ls.b, ls.switches);
    WideFromSlots(S, a[n..], ls.b);
    ValueOf(rs);
    var rightDigits := CollectHalfDigits(S, rs, rightImages);
    ValueOf(rs);
    WideSizes(S, rs.Value());
    ElemSize(S.q, S.d, rs.b);
    var fs := new CollapseState([ls.a[0], rs.a[0]], rs.b, rs.switches);
    PairWide(S, ls.a[0], rs.a[0], rs.b);
    ValueOf(fs);
    var last := DigitsOf(S, fs.a[1]);
    StepSplits(S, fs.Value(), kh);
    StepOneIs(S, fs.Value(), kh);
    MaskStepPair(S, fs.a, khTop);
    fs.CollapseOneWithDigits(S, kh, last);
    ValueOf(fs);
    t := Trace(fs.a[0], digits + rightDigits + [last]);
    ghost var want := BlockTrace(S, a, kgTop, khTop);
    assert want.blocks == want.blocks[..n - 1] + want.blocks[n - 1..2 * n - 2] + [want.blocks[2 * n - 2]];
  }

  lemma ImagesOk(S: Setting, k: Key)
    requires S.Ok() && S.d >= 2 && Shaped(S.q, S.d, S.ell, k)
    ensures KeysOk(S, LeftImages(S, k)) && KeysOk(S, RightImages(S, k))
  {
  }

  lemma WideFromSlots(S: Setting, a: seq<Poly>, b: Poly)
    requires SlotsOk(S, a) && |b| == S.d && Canon(S.q, b)
    ensures WideOk(S, Wide(a, b))
  {
  }

  lemma PairWide(S: Setting, x: Poly, y: Poly, b: Poly)
    requires S.Ok() && Elem(S.q, S.d, x) && Elem(S.q, S.d, y) && Elem(S.q, S.d, b)
    ensures WideOk(S, Wide([x, y], b)) && SlotsOk(S, [x, y])
  {
  }

  // ----- online packing -----

  /** The b_k % q buffer. */
  method FillBody(q: int, bs: seq<int>) returns (body: array<int>)
    requires q > 0
    ensures fresh(body) && body[..] == BTilde(q, bs)
  {
    body := new int[|bs|](_ => 0);
    for i := 0 to |bs|
      invariant forall k :: 0 <= k < i ==> body[k] == bs[k] % q
    {
      body[i] := bs[i] % q;
    }
  }

  /** pack: rejects a batch of the wrong shape; otherwise one addition onto the affine cache. */
  method Pack(S: Setting, dInv: int, kg: Key, kh: Key, rows: seq<seq<int>>, batch: seq<Lwe>) returns (r: Result<Pair>)
    requires S.Ok() && S.d >= 2 && PowerOfTwo(S.d) && |rows| == S.d && RowsShape(S.d, rows)
    requires Shaped(S.q, S.d, S.ell, kg) && Shaped(S.q, S.d, S.ell, kh)
    ensures r.Ok? <==> |batch| == S.d && forall k :: 0 <= k < |batch| ==> |batch[k].a| == S.d
    ensures r.Ok? ==> r.value == PackBatch(S, dInv, kg, kh, rows, BsOf(batch))
  {
    hide *;
    if |batch| != S.d {
      return Err(LweShape);
    }
    for i := 0 to |batch|
      invariant forall k :: 0 <= k < i ==> |batch[k].a| == S.d
    {
      if |batch[i].a| != S.d {
        return Err(LweShape);
      }
    }
    var bs := BsOf(batch);
    SettingSizes(S);
    var body := FillBody(S.q, bs);
    PackBatchIs(S, dInv, kg, kh, rows, bs);
    var pre := BindKeys(S, kg, kh, AAgg(S.q, S.d, dInv, rows));
    r := Ok(Pair(pre.a, Add(S.q, body[..], pre.b)));
  }

  function BsOf(batch: seq<Lwe>): (r: seq<int>)
    ensures |r| == |batch| && forall k :: 0 <= k < |batch| ==> r[k] == batch[k].b
  {
    seq(|batch|, k requires 0 <= k < |batch| => batch[k].b)
  }

  /** One half of the stepwise cascade over uploaded bodies, highest row first. */
  method UploadedHalf(S: Setting, b0: Poly, rows: seq<seq<Poly>>, blocks: seq<seq<Poly>>) returns (b: Poly)
    requires S.Ok() && RowsOk(S, rows) && BlocksOk(S, blocks) && |blocks| == |rows| && Elem(S.q, S.d, b0)
    ensures |b0| == S.d && S.q > 0
    ensures b == Add(S.q, b0, BodySum(S, rows, blocks))
  {
    hide *;
    SettingSizes(S);
    ElemSize(S.q, S.d, b0);
    b := b0;
    var image, t := |rows|, 0;
    assert blocks[0..] == blocks;
    while image > 0
      invariant 0 <= image && 0 <= t && image + t == |rows| && |b| == S.d && Canon(S.q, b)
      invariant BlocksOk(S, blocks[t..])
      invariant Add(S.q, b, BodySum(S, rows, blocks[t..])) == Add(S.q, b0, BodySum(S, rows, blocks))
      decreases image
    {
      image := image - 1;
      assert blocks[t..] == [blocks[t]] + blocks[t + 1..];
      BodySumUnfold(S, rows, blocks[t], blocks[t + 1..]);
      var p, rest := Product(S, rows[image], blocks[t]), BodySum(S, rows, blocks[t + 1..]);
      AddAssoc(S.q, b, p, rest);
      AddComm(S.q, b, p);
      b := Add(S.q, p, b);
      t := t + 1;
    }
    BodySumEnd(S, rows, blocks[t..]);
    AddZero(S.q, b);
  }

  lemma BodySumEnd(S: Setting, rows: seq<seq<Poly>>, blocks: seq<seq<Poly>>)
    requires S.Ok() && RowsOk(S, rows) && BlocksOk(S, blocks) && blocks == []
    ensures BodySum(S, rows, blocks) == Zero(S.d)
  {
  }

  /** collapse_uploaded_body_b_stepwise. */
  method UploadedStepwise(S: Setting, t: Trace, kgBody: seq<Poly>, khBody: seq<Poly>, b0: Poly) returns (r: Pair)
    requires S.Ok() && S.d >= 2 && S.d % 2 == 0 && RowOk(S, kgBody) && RowOk(S, khBody) && Elem(S.q, S.d, b0)
    requires |t.blocks| == S.d - 1 && BlocksOk(S, t.blocks)
    ensures |b0| == S.d && r == UploadedPack(S, t, kgBody, khBody, b0)
  {
    hide *;
    SettingSizes(S);
    ElemSize(S.q, S.d, b0);
    var left, right := LeftRows(S, kgBody), RightRows(S, kgBody);
    var m, n := |left|, |left| + |right|;
    BodyChainIs(S, b0, left, right, khBody, t.blocks);
    UploadedPackIs(S, t, kgBody, khBody, b0);
    var b := UploadedHalf(S, b0, left, t.blocks[..m]);
    ElemFrom(S.q, S.d, b);
    b := UploadedHalf(S, b, right, t.blocks[m..n]);
    var last := Product(S, khBody, t.blocks[n]);
    AddComm(S.q, last, b);
    r := Pair(t.c1, Add(S.q, last, b));
  }

  lemma ElemFrom(q: int, d: nat, p: Poly)
    requires |p| == d && Canon(q, p)
    ensures Elem(q, d, p)
  {
  }
}
