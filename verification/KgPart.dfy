/** The compiled matrices applied to an uploaded K_g body are the K_g part of the collapse
    (reinspiring/src/compile.rs, inspiring/src/preprocess.rs). */
module KgPart {
  import opened Ring
  import opened RingLaws
  import opened Galois
  import opened KeySwitch
  import opened Collapse
  import opened MaskCascade
  import opened Packing
  import opened Preprocess
  import opened RingFft
  import C = Compile

  function Backwards(ts: seq<int>): (r: seq<int>)
    ensures |r| == |ts| && forall i :: 0 <= i < |ts| ==> r[i] == ts[|ts| - 1 - i]
  {
    seq(|ts|, i requires 0 <= i < |ts| => ts[|ts| - 1 - i])
  }

  /** collapse_kg_exponents: left half in execution order, then right half. */
  function KgExponents(d: nat): (r: seq<int>)
    requires d >= 2
    ensures |r| == 2 * (d / 2 - 1)
  {
    Backwards(LeftExps(d, d / 2 - 1)) + Backwards(RightExps(d, d / 2 - 1))
  }

  /** Every digit block holds ell reduced polynomials. */
  predicate Reduced(S: Setting, blocks: seq<seq<Poly>>) {
    forall t :: 0 <= t < |blocks| ==> RowOk(S, blocks[t])
  }

  /** Digit column i of every block, in recorded order. */
  function DigitColumn(S: Setting, blocks: seq<seq<Poly>>, i: nat): (r: seq<Poly>)
    requires Reduced(S, blocks) && i < S.ell
    ensures |r| == |blocks| && Sized(S.d, r)
    ensures forall t :: 0 <= t < |r| ==> r[t] == blocks[t][i] && |r[t]| == S.d && Canon(S.q, r[t])
  {
    seq(|blocks|, t requires 0 <= t < |blocks| => blocks[t][i])
  }

  /** sum over the first m gadget columns of sum over n steps of digit * tau(body). */
  function ColumnSum(S: Setting, gs: seq<int>, body: seq<Poly>, blocks: seq<seq<Poly>>, m: nat, n: nat): (r: Poly)
    requires S.Ok() && RowOk(S, body) && Reduced(S, blocks) && |gs| == |blocks| && m <= S.ell && n <= |blocks|
    ensures |r| == S.d && Canon(S.q, r)
  {
    if m == 0 then Zero(S.d)
    else Add(S.q, ColumnSum(S, gs, body, blocks, m - 1, n),
             C.ImageProducts(S.q, S.d, DigitColumn(S, blocks, m - 1), gs, body[m - 1], n))
  }

  /** sum over the compiled matrices of matrix times body coefficients. */
  function MatrixSum(S: Setting, gs: seq<int>, body: seq<Poly>, blocks: seq<seq<Poly>>, m: nat): (r: Poly)
    requires S.Ok() && RowOk(S, body) && Reduced(S, blocks) && |gs| == |blocks| && m <= S.ell
    ensures |r| == S.d && Canon(S.q, r)
  {
    if m == 0 then Zero(S.d)
    else Add(S.q, MatrixSum(S, gs, body, blocks, m - 1),
             Comb(S.q, S.d, body[m - 1], C.Columns(S.q, S.d, DigitColumn(S, blocks, m - 1), gs, |blocks|), S.d))
  }

  lemma {:induction false} MatrixSumMeaning(S: Setting, gs: seq<int>, body: seq<Poly>, blocks: seq<seq<Poly>>, m: nat)
    requires S.Ok() && RowOk(S, body) && Reduced(S, blocks) && |gs| == |blocks| && m <= S.ell
    ensures MatrixSum(S, gs, body, blocks, m) == ColumnSum(S, gs, body, blocks, m, |blocks|)
  {
    hide C.Columns, C.ImageProducts, Comb, Add;
    if m > 0 {
      MatrixSumMeaning(S, gs, body, blocks, m - 1);
      C.MatrixMeaning(S.q, S.d, DigitColumn(S, blocks, m - 1), gs, body[m - 1], |blocks|);
    }
  }

  /** The same sum step by step, as the cascade runs. */
  function StepSum(S: Setting, gs: seq<int>, body: seq<Poly>, blocks: seq<seq<Poly>>, n: nat): (r: Poly)
    requires S.Ok() && RowOk(S, body) && Reduced(S, blocks) && |gs| == |blocks| && n <= |blocks|
    ensures |r| == S.d && Canon(S.q, r)
  {
    if n == 0 then Zero(S.d)
    else Add(S.q, StepSum(S, gs, body, blocks, n - 1), StepProduct(S, gs[n - 1], body, blocks[n - 1]))
  }

  function StepProduct(S: Setting, g: int, body: seq<Poly>, block: seq<Poly>): (r: Poly)
    requires S.Ok() && RowOk(S, body) && RowOk(S, block)
    ensures |r| == S.d && Canon(S.q, r)
  {
    Product(S, MapTau(S.q, body, g), block)
  }

  lemma StepSumStep(S: Setting, gs: seq<int>, body: seq<Poly>, blocks: seq<seq<Poly>>, n: nat)
    requires S.Ok() && RowOk(S, body) && Reduced(S, blocks) && |gs| == |blocks| && n < |blocks|
    ensures RowOk(S, blocks[n])
    ensures StepSum(S, gs, body, blocks, 0) == Zero(S.d)
    ensures StepSum(S, gs, body, blocks, n + 1)
            == Add(S.q, StepSum(S, gs, body, blocks, n), StepProduct(S, gs[n], body, blocks[n]))
  {
  }

  lemma ColumnSumStep(S: Setting, gs: seq<int>, body: seq<Poly>, blocks: seq<seq<Poly>>, m: nat, n: nat)
    requires S.Ok() && RowOk(S, body) && Reduced(S, blocks) && |gs| == |blocks| && m < S.ell && n <= |blocks|
    ensures |body[m]| == S.d && Canon(S.q, body[m])
    ensures ColumnSum(S, gs, body, blocks, 0, n) == Zero(S.d)
    ensures ColumnSum(S, gs, body, blocks, m + 1, n)
            == Add(S.q, ColumnSum(S, gs, body, blocks, m, n),
                   C.ImageProducts(S.q, S.d, DigitColumn(S, blocks, m), gs, body[m], n))
  {
  }

  /** The first m terms of one step's product. */
  function PartProduct(S: Setting, g: int, body: seq<Poly>, block: seq<Poly>, m: nat): (r: Poly)
    requires S.Ok() && RowOk(S, body) && RowOk(S, block) && m <= S.ell
    ensures |r| == S.d && Canon(S.q, r)
  {
    Dot(S.q, S.d, MapTau(S.q, body, g), block, m)
  }

  lemma PartProductStep(S: Setting, g: int, body: seq<Poly>, block: seq<Poly>, m: nat)
    requires S.Ok() && RowOk(S, body) && RowOk(S, block) && m < S.ell
    ensures |body[m]| == |block[m]| == S.d
    ensures PartProduct(S, g, body, block, 0) == Zero(S.d)
    ensures PartProduct(S, g, body, block, m + 1)
            == Add(S.q, PartProduct(S, g, body, block, m), Mul(S.q, block[m], Tau(S.q, body[m], g)))
    ensures PartProduct(S, g, body, block, S.ell) == StepProduct(S, g, body, block)
  {
    hide Mul, Tau;
    MulComm(S.q, block[m], Tau(S.q, body[m], g));
  }

  lemma DigitAt(S: Setting, blocks: seq<seq<Poly>>, i: nat, t: nat)
    requires Reduced(S, blocks) && i < S.ell && t < |blocks|
    ensures RowOk(S, blocks[t]) && |blocks[t]| == S.ell
    ensures DigitColumn(S, blocks, i)[t] == blocks[t][i]
  {
  }

  lemma RowLength(S: Setting, row: seq<Poly>)
    requires RowOk(S, row)
    ensures |row| == S.ell
  {
  }

  /** One more step adds its product to the column sums. */
  lemma {:induction false} ColumnSumGrows(S: Setting, gs: seq<int>, body: seq<Poly>, blocks: seq<seq<Poly>>, m: nat, n: nat)
    requires S.Ok() && RowOk(S, body) && Reduced(S, blocks) && |gs| == |blocks| && m <= S.ell && n < |blocks|
    requires RowOk(S, blocks[n])
    ensures ColumnSum(S, gs, body, blocks, m, n + 1)
            == Add(S.q, ColumnSum(S, gs, body, blocks, m, n), PartProduct(S, gs[n], body, blocks[n], m))
  {
    hide *;
    SettingSizes(S);
    if m == 0 {
      ColumnSumStep(S, gs, body, blocks, 0, n);
      ColumnSumStep(S, gs, body, blocks, 0, n + 1);
      PartProductStep(S, gs[n], body, blocks[n], 0);
      ZeroCanon(S.q, S.d);
      AddZero(S.q, Zero(S.d));
    } else {
      var k := m - 1;
      ColumnSumGrows(S, gs, body, blocks, k, n);
      ColumnSumStep(S, gs, body, blocks, k, n);
      ColumnSumStep(S, gs, body, blocks, k, n + 1);
      PartProductStep(S, gs[n], body, blocks[n], k);
      DigitAt(S, blocks, k, n);
      RowLength(S, body);
      var ts := DigitColumn(S, blocks, k);
      C.ImageProductsStep(S.q, S.d, ts, gs, body[k], n + 1);
      AddSwap(S.q, ColumnSum(S, gs, body, blocks, k, n), PartProduct(S, gs[n], body, blocks[n], k),
              C.ImageProducts(S.q, S.d, ts, gs, body[k], n), Mul(S.q, blocks[n][k], Tau(S.q, body[k], gs[n])));
    }
  }

  lemma {:induction false} ColumnSumEmpty(S: Setting, gs: seq<int>, body: seq<Poly>, blocks: seq<seq<Poly>>, m: nat)
    requires S.Ok() && RowOk(S, body) && Reduced(S, blocks) && |gs| == |blocks| && m <= S.ell
    ensures ColumnSum(S, gs, body, blocks, m, 0) == Zero(S.d)
  {
    hide *;
    SettingSizes(S);
    if m == 0 {
      ColumnSumStep(S, gs, body, blocks, 0, 0);
    } else {
      ColumnSumEmpty(S, gs, body, blocks, m - 1);
      ColumnSumStep(S, gs, body, blocks, m - 1, 0);
      RowLength(S, body);
      C.ImageProductsStep(S.q, S.d, DigitColumn(S, blocks, m - 1), gs, body[m - 1], 0);
      ZeroCanon(S.q, S.d);
      AddZero(S.q, Zero(S.d));
    }
  }

  /** Summing by gadget column or by cascade step is the same. */
  lemma {:induction false} ColumnsAreSteps(S: Setting, gs: seq<int>, body: seq<Poly>, blocks: seq<seq<Poly>>, n: nat)
    requires S.Ok() && RowOk(S, body) && Reduced(S, blocks) && |gs| == |blocks| && n <= |blocks|
    ensures ColumnSum(S, gs, body, blocks, S.ell, n) == StepSum(S, gs, body, blocks, n)
  {
    hide *;
    SettingSizes(S);
    if n == 0 {
      ColumnSumEmpty(S, gs, body, blocks, S.ell);
      StepSumEmpty(S, gs, body, blocks);
    } else {
      ColumnsAreSteps(S, gs, body, blocks, n - 1);
      StepSumStep(S, gs, body, blocks, n - 1);
      ColumnSumGrows(S, gs, body, blocks, S.ell, n - 1);
      PartProductStep(S, gs[n - 1], body, blocks[n - 1], 0);
    }
  }

  lemma StepSumEmpty(S: Setting, gs: seq<int>, body: seq<Poly>, blocks: seq<seq<Poly>>)
    requires S.Ok() && RowOk(S, body) && Reduced(S, blocks) && |gs| == |blocks|
    ensures StepSum(S, gs, body, blocks, 0) == Zero(S.d)
  {
  }

  // ----- the two halves -----

  lemma ReducedSlice(S: Setting, blocks: seq<seq<Poly>>, m: nat, n: nat)
    requires Reduced(S, blocks) && m <= n <= |blocks|
    ensures Reduced(S, blocks[m..n]) && BlocksOk(S, blocks[m..n]) && BlocksOk(S, blocks)
  {
  }

  /** rows[..n] are the images the next n steps use, the last one first. */
  predicate RowsFollow(S: Setting, rows: seq<seq<Poly>>, gs: seq<int>, body: seq<Poly>, m: nat, n: nat)
    requires S.Ok() && RowOk(S, body)
  {
    && n <= |rows| && m + n <= |gs|
    && forall j :: 0 <= j < n ==> rows[j] == MapTau(S.q, body, gs[m + n - 1 - j])
  }

  lemma RowsFollowHead(S: Setting, rows: seq<seq<Poly>>, gs: seq<int>, body: seq<Poly>, m: nat, n: nat)
    requires S.Ok() && RowOk(S, body) && n > 0 && RowsFollow(S, rows, gs, body, m, n)
    ensures rows[n - 1] == MapTau(S.q, body, gs[m]) && RowsFollow(S, rows, gs, body, m + 1, n - 1)
  {
  }

  /** A half cascade's body sum is the next n steps of the running sum. */
  lemma {:induction false} HalfIsSteps(S: Setting, rows: seq<seq<Poly>>, gs: seq<int>, body: seq<Poly>,
                                       blocks: seq<seq<Poly>>, m: nat, n: nat)
    requires S.Ok() && RowOk(S, body) && RowsOk(S, rows) && Reduced(S, blocks) && |gs| == |blocks| && m + n <= |blocks|
    requires n <= |rows| && RowsFollow(S, rows, gs, body, m, n) && BlocksOk(S, blocks[m..m + n])
    ensures Add(S.q, StepSum(S, gs, body, blocks, m), BodySum(S, rows, blocks[m..m + n]))
            == StepSum(S, gs, body, blocks, m + n)
    decreases n
  {
    hide *;
    SettingSizes(S);
    if n == 0 {
      BodySumEnd(S, rows, blocks[m..m]);
      AddZero(S.q, StepSum(S, gs, body, blocks, m));
    } else {
      var rest := blocks[m + 1..m + n];
      assert blocks[m..m + n] == [blocks[m]] + rest;
      assert rest == blocks[m + 1..(m + 1) + (n - 1)];
      ReducedSlice(S, blocks, m + 1, m + n);
      RowsFollowHead(S, rows, gs, body, m, n);
      BodySumUnfold(S, rows, blocks[m], rest);
      StepSumStep(S, gs, body, blocks, m);
      HalfIsSteps(S, rows, gs, body, blocks, m + 1, n - 1);
      StepProductIs(S, gs[m], body, blocks[m], rows[n - 1]);
      AddAssoc(S.q, StepSum(S, gs, body, blocks, m), StepProduct(S, gs[m], body, blocks[m]), BodySum(S, rows, rest));
    }
  }

  lemma StepProductIs(S: Setting, g: int, body: seq<Poly>, block: seq<Poly>, row: seq<Poly>)
    requires S.Ok() && RowOk(S, body) && RowOk(S, block) && row == MapTauOf(S, body, g) && RowOk(S, row)
    ensures |block| == S.ell && forall i :: 0 <= i < S.ell ==> |block[i]| == S.d
    ensures Product(S, row, block) == StepProduct(S, g, body, block)
  {
  }

  function MapTauOf(S: Setting, body: seq<Poly>, g: int): (r: seq<Poly>)
    requires S.Ok() && RowOk(S, body)
    ensures r == MapTau(S.q, body, g)
  {
    MapTau(S.q, body, g)
  }

  lemma KgExponentAt(d: nat, j: nat)
    requires d >= 2 && j < d / 2 - 1
    ensures KgExponents(d)[d / 2 - 2 - j] == LeftExps(d, d / 2 - 1)[j]
    ensures KgExponents(d)[2 * (d / 2 - 1) - 1 - j] == RightExps(d, d / 2 - 1)[j]
  {
    hide LeftExps, RightExps;
  }

  lemma RowsAtIs(S: Setting, body: seq<Poly>, j: nat)
    requires S.Ok() && S.d >= 2 && RowOk(S, body) && j < S.d / 2 - 1
    ensures LeftRows(S, body)[j] == MapTauOf(S, body, LeftExps(S.d, S.d / 2 - 1)[j])
    ensures RightRows(S, body)[j] == MapTauOf(S, body, RightExps(S.d, S.d / 2 - 1)[j])
  {
    hide LeftExps, RightExps;
  }

  lemma RowsFollowFrom(S: Setting, rows: seq<seq<Poly>>, gs: seq<int>, body: seq<Poly>, m: nat, n: nat)
    requires S.Ok() && RowOk(S, body) && n <= |rows| && m + n <= |gs|
    requires forall j :: 0 <= j < n ==> rows[j] == MapTauOf(S, body, gs[m + n - 1 - j])
    ensures RowsFollow(S, rows, gs, body, m, n)
  {
    hide MapTau;
  }

  lemma HalvesFollow(S: Setting, body: seq<Poly>)
    requires S.Ok() && S.d >= 2 && RowOk(S, body)
    ensures var m := S.d / 2 - 1;
            && RowsFollow(S, LeftRows(S, body), KgExponents(S.d), body, 0, m)
            && RowsFollow(S, RightRows(S, body), KgExponents(S.d), body, m, m)
  {
    hide *;
    var m, gs := S.d / 2 - 1, KgExponents(S.d);
    forall j | 0 <= j < m
      ensures LeftRows(S, body)[j] == MapTauOf(S, body, gs[0 + m - 1 - j])
      ensures RightRows(S, body)[j] == MapTauOf(S, body, gs[m + m - 1 - j])
    {
      KgExponentAt(S.d, j);
      RowsAtIs(S, body, j);
    }
    RowsFollowFrom(S, LeftRows(S, body), gs, body, 0, m);
    RowsFollowFrom(S, RightRows(S, body), gs, body, m, m);
  }

  /** The body chain runs the recorded steps in order, then the final switch. */
  lemma ChainIsSteps(S: Setting, body: seq<Poly>, last: seq<Poly>, b: Poly, blocks: seq<seq<Poly>>, final: seq<Poly>)
    requires S.Ok() && S.d >= 2 && S.d % 2 == 0 && RowOk(S, body) && RowOk(S, last) && |b| == S.d
    requires Reduced(S, blocks) && |blocks| == S.d - 2 && RowOk(S, final) && BlocksOk(S, blocks + [final])
    ensures |final| == S.ell && forall i :: 0 <= i < S.ell ==> |final[i]| == S.d
    ensures BodyChain(S, b, LeftRows(S, body), RightRows(S, body), last, blocks + [final])
            == Add(S.q, Add(S.q, b, StepSum(S, KgExponents(S.d), body, blocks, |blocks|)), Product(S, last, final))
  {
    hide *;
    SettingSizes(S);
    var m, gs := S.d / 2 - 1, KgExponents(S.d);
    var left, right := LeftRows(S, body), RightRows(S, body);
    var all := blocks + [final];
    BodyChainIs(S, b, left, right, last, all);
    assert all[..m] == blocks[0..0 + m] && all[m..m + m] == blocks[m..m + m];
    HalvesFollow(S, body);
    StepSumEmpty(S, gs, body, blocks);
    HalfIsSteps(S, left, gs, body, blocks, 0, m);
    HalfIsSteps(S, right, gs, body, blocks, m, m);
    var x, y := BodySum(S, left, blocks[0..0 + m]), BodySum(S, right, blocks[m..m + m]);
    AddZero(S.q, x);
    AddAssoc(S.q, b, x, y);
  }

  /** With the recorded digits and exponents, the compiled matrices applied to the body row of K_g give
      the K_g part of the collapse: both halves of the body chain. */
  lemma CompiledKgPart(S: Setting, body: seq<Poly>, last: seq<Poly>, b: Poly, blocks: seq<seq<Poly>>, final: seq<Poly>)
    requires S.Ok() && S.d >= 2 && S.d % 2 == 0 && RowOk(S, body) && RowOk(S, last) && |b| == S.d
    requires Reduced(S, blocks) && |blocks| == S.d - 2 && RowOk(S, final) && BlocksOk(S, blocks + [final])
    ensures |final| == S.ell && forall i :: 0 <= i < S.ell ==> |final[i]| == S.d
    ensures BodyChain(S, b, LeftRows(S, body), RightRows(S, body), last, blocks + [final])
            == Add(S.q, Add(S.q, b, MatrixSum(S, KgExponents(S.d), body, blocks, S.ell)), Product(S, last, final))
  {
    hide *;
    ChainIsSteps(S, body, last, b, blocks, final);
    MatrixSumMeaning(S, KgExponents(S.d), body, blocks, S.ell);
    ColumnsAreSteps(S, KgExponents(S.d), body, blocks, |blocks|);
  }

  // ----- recorded digits -----

  lemma DigitsReduced(S: Setting, x: Poly)
    requires S.Ok() && Elem(S.q, S.d, x)
    ensures RowOk(S, DigitsOf(S, x))
  {
    GadgetDigitsCanon(S.q, S.z, S.ell, x);
  }

  lemma {:induction false} MaskDigitsReduced(S: Setting, a: seq<Poly>, masks: seq<seq<Poly>>)
    requires SlotsOk(S, a) && RowsOk(S, masks) && |a| <= |masks| + 1
    ensures Reduced(S, MaskDigits(S, a, masks))
    decreases |a|
  {
    hide MaskStep, DigitsOf;
    if |a| > 1 {
      MaskDigitsReduced(S, MaskStep(S, a, masks[|a| - 2]), masks);
      DigitsReduced(S, a[|a| - 1]);
    }
  }

  lemma ReducedConcat(S: Setting, xs: seq<seq<Poly>>, ys: seq<seq<Poly>>)
    requires Reduced(S, xs) && Reduced(S, ys)
    ensures Reduced(S, xs + ys)
  {
  }

  /** The blocks a stored trace holds are reduced digit rows. */
  lemma TraceReduced(S: Setting, a: seq<Poly>, left: seq<seq<Poly>>, right: seq<seq<Poly>>, last: seq<Poly>)
    requires MasksOk(S, a, left, right, last)
    ensures Reduced(S, PublicTrace(S, a, left, right, last).blocks)
  {
    hide *;
    MasksParts(S, a, left, right, last);
    TraceParts(S, a, left, right, last);
    var n, m, bs := |left| + 1, |left| + |right|, PublicTrace(S, a, left, right, last).blocks;
    MaskDigitsReduced(S, a[..n], left);
    MaskDigitsReduced(S, a[n..], right);
    ElemFrom(S.q, S.d, MaskHalf(S, a[n..], right));
    DigitsReduced(S, MaskHalf(S, a[n..], right));
    ReducedConcat(S, bs[..n - 1], bs[n - 1..m]);
    ReducedOne(S, bs[m]);
    ReducedConcat(S, bs[..n - 1] + bs[n - 1..m], [bs[m]]);
    assert bs == bs[..n - 1] + bs[n - 1..m] + [bs[m]];
  }

  lemma ReducedOne(S: Setting, row: seq<Poly>)
    requires RowOk(S, row)
    ensures Reduced(S, [row])
  {
  }

  /** A whole request: the body of the packed ciphertext is b, plus the compiled matrices applied to the
      uploaded K_g body, plus the single K_h product. */
  lemma CompiledUpload(S: Setting, a: seq<Poly>, kgTop: seq<Poly>, khTop: seq<Poly>, kgBody: seq<Poly>, khBody: seq<Poly>, b: Poly)
    requires S.Ok() && S.d >= 2 && S.d % 2 == 0 && |a| == S.d && Elems(S.q, S.d, a) && |b| == S.d
    requires RowOk(S, kgTop) && RowOk(S, khTop) && RowOk(S, kgBody) && RowOk(S, khBody)
    ensures var t := BlockTrace(S, a, kgTop, khTop);
            var kg, kh := t.blocks[..S.d - 2], t.blocks[S.d - 2];
            && Reduced(S, kg) && |kg| == |KgExponents(S.d)| && |kh| == S.ell && (forall i :: 0 <= i < S.ell ==> |kh[i]| == S.d)
            && UploadedPack(S, t, kgBody, khBody, b)
               == Pair(t.c1, Add(S.q, Add(S.q, b, MatrixSum(S, KgExponents(S.d), kgBody, kg, S.ell)), Product(S, khBody, kh)))
  {
    hide *;
    SettingSizes(S);
    var t := BlockTrace(S, a, kgTop, khTop);
    BlockTraceIs(S, a, kgTop, khTop);
    TraceReduced(S, a, LeftRows(S, kgTop), RightRows(S, kgTop), khTop);
    var kg, kh := t.blocks[..S.d - 2], t.blocks[S.d - 2];
    assert t.blocks == kg + [kh];
    ReducedSlice(S, t.blocks, 0, S.d - 2);
    assert t.blocks[0..S.d - 2] == kg;
    ReducedAt(S, t.blocks, S.d - 2);
    UploadedPackIs(S, t, kgBody, khBody, b);
    CompiledKgPart(S, kgBody, khBody, b, kg, kh);
  }

  lemma ReducedAt(S: Setting, blocks: seq<seq<Poly>>, i: nat)
    requires Reduced(S, blocks) && i < |blocks|
    ensures RowOk(S, blocks[i])
  {
  }
}
