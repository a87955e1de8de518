/** How large the packing error can be: every centred coefficient is bounded by the gadget and by the key errors. */
module NoiseBound {
  import opened Modular
  import opened Ring
  import opened RingLaws
  import opened Galois
  import opened KeySwitch
  import opened Collapse
  import opened MaskCascade
  import opened Packing
  import opened Preprocess
  import opened PackNoise
  import A = Automorph
  import C = Compile
  import L = Lift

  // ----- magnitude of a residue -----

  /** The magnitude of x modulo q: the least absolute value of its representatives. */
  function Mag(q: int, x: int): (r: nat)
    requires q > 0
  {
    L.Abs(L.Centered(x % q, q))
  }

  lemma MagLeast(q: int, x: int, z: int)
    requires q > 0 && Same(q, x, z)
    ensures Mag(q, x) <= L.Abs(z)
  {
    SameIs(q, x, z);
    DivMod(z, q);
    MulStrict(z / q, q);
    MulStrict(z / q + 1, q);
    Distribute(z / q, 1, q);
  }

  lemma MagAttained(q: int, x: int)
    requires q > 0
    ensures Same(q, x, L.Centered(x % q, q)) && L.Abs(L.Centered(x % q, q)) == Mag(q, x)
  {
    DivMod(x, q);
    L.CenteredAgrees(x % q, q);
    ReduceTwice(x, q);
    SameIs(q, x, L.Centered(x % q, q));
  }

  lemma MagMod(q: int, x: int)
    requires q > 0
    ensures Mag(q, x % q) == Mag(q, x)
  {
    ReduceTwice(x, q);
  }

  lemma MagSum(q: int, x: int, y: int)
    requires q > 0
    ensures Mag(q, x + y) <= Mag(q, x) + Mag(q, y)
  {
    hide Mag;
    var u, v := L.Centered(x % q, q), L.Centered(y % q, q);
    MagAttained(q, x);
    MagAttained(q, y);
    SameSum(q, x, u, y, v);
    MagLeast(q, x + y, u + v);
    L.AbsSum(u, v);
  }

  lemma MagZero(q: int)
    requires q > 0
    ensures Mag(q, 0) == 0
  {
    ModSmall(0, q);
  }

  lemma MagSigned(q: int, x: int, sign: int)
    requires q > 0 && (sign == 1 || sign == -1)
    ensures Mag(q, x * sign) <= Mag(q, x)
  {
    hide Mag;
    var u := L.Centered(x % q, q);
    MagAttained(q, x);
    SameSign(q, x, u, sign);
    MagLeast(q, x * sign, u * sign);
    assert L.Abs(u * sign) == L.Abs(u);
  }

  lemma SameSign(q: int, x: int, y: int, sign: int)
    requires Same(q, x, y) && (sign == 1 || sign == -1)
    ensures Same(q, x * sign, y * sign)
  {
    SameIs(q, x, y);
    ModMul(x, sign, q);
    ModMul(y, sign, q);
    SameIs(q, x * sign, y * sign);
  }

  // ----- magnitude of a polynomial -----

  /** Every coefficient has magnitude at most B. */
  predicate Within(q: int, p: Poly, B: int)
    requires q > 0
  {
    forall i :: 0 <= i < |p| ==> Mag(q, p[i]) <= B
  }

  predicate AllWithin(q: int, ps: seq<Poly>, B: int)
    requires q > 0
  {
    forall i :: 0 <= i < |ps| ==> Within(q, ps[i], B)
  }

  lemma WithinAt(q: int, p: Poly, B: int, i: nat)
    requires q > 0 && Within(q, p, B) && i < |p|
    ensures Mag(q, p[i]) <= B
  {
  }

  lemma WithinZero(q: int, d: nat)
    requires q > 0
    ensures Within(q, Zero(d), 0)
  {
    MagZero(q);
  }

  lemma WithinAdd(q: int, a: Poly, b: Poly, A: int, B: int)
    requires q > 0 && |a| == |b| && Within(q, a, A) && Within(q, b, B)
    ensures Within(q, Add(q, a, b), A + B)
  {
    hide Mag, Add;
    forall i | 0 <= i < |a|
      ensures Mag(q, Add(q, a, b)[i]) <= A + B
    {
      AddEntry(q, a, b, i);
      MagMod(q, a[i] + b[i]);
      MagSum(q, a[i], b[i]);
    }
  }

  /** The centred coefficients of p. */
  function Reps(q: int, p: Poly): (r: Poly)
    requires q > 0
    ensures |r| == |p| && forall i :: 0 <= i < |p| ==> r[i] == L.Centered(p[i] % q, q)
  {
    seq(|p|, i requires 0 <= i < |p| => L.Centered(p[i] % q, q))
  }

  lemma RepsAgree(q: int, p: Poly, B: int)
    requires q > 0 && Within(q, p, B)
    ensures L.Agree(q, Reps(q, p), p) && L.Bounded(Reps(q, p), B)
  {
    forall i | 0 <= i < |p|
      ensures Reps(q, p)[i] % q == p[i] % q && L.Abs(Reps(q, p)[i]) <= B
    {
      WithinAt(q, p, B, i);
      MagAttained(q, p[i]);
      SameIs(q, p[i], Reps(q, p)[i]);
    }
  }

  /** A product of d-term polynomials is at most d times the product of the bounds. */
  lemma WithinMul(q: int, a: Poly, b: Poly, A: int, B: int)
    requires q > 0 && |a| == |b| > 0 && Within(q, a, A) && Within(q, b, B)
    ensures Within(q, Mul(q, a, b), |a| * (A * B))
  {
    hide Mag, Mul;
    var x, y := Reps(q, a), Reps(q, b);
    RepsAgree(q, a, A);
    RepsAgree(q, b, B);
    forall k | 0 <= k < |a|
      ensures Mag(q, Mul(q, a, b)[k]) <= |a| * (A * B)
    {
      L.MulIsConv(q, x, y, a, b, k);
      L.ConvBound(x, y, A, B, k, |a|);
      var v := L.Conv(x, y, k, |a|);
      MagMod(q, v);
      SameIs(q, v, v);
      MagLeast(q, v, v);
    }
  }

  // ----- automorphisms keep magnitudes -----

  lemma SlotIsRemainder(d: nat, e: int)
    requires d > 0
    ensures SlotOf(d, e) == e % d
  {
    var m := e % (2 * d);
    DivMod(e, 2 * d);
    var k := e / (2 * d);
    assert e == (2 * k) * d + m;
    if m < d {
      RemainderUnique(e, 2 * k, m, d);
    } else {
      Distribute(2 * k, 1, d);
      RemainderUnique(e, 2 * k + 1, m - d, d);
    }
  }

  /** Odd powers send different basis elements to different slots. */
  lemma SlotsDiffer(d: nat, t: int, i: nat, j: nat)
    requires PowerOfTwo(d) && t % 2 == 1 && i < d && j < d && i != j
    ensures d > 0 && SlotOf(d, i * t) != SlotOf(d, j * t)
  {
    hide SlotOf, PowerOfTwo;
    PositivePower(d);
    SlotIsRemainder(d, i * t);
    SlotIsRemainder(d, j * t);
    if (i * t) % d == (j * t) % d {
      A.DifferenceDivides(i * t, j * t, d);
      Distribute(i, j, t);
      Commute(i - j, t);
      A.OddCancels(t, i - j, d);
      A.SmallMultiple(i - j, d);
    }
  }

  lemma PositivePower(d: int)
    requires PowerOfTwo(d)
    ensures d > 0
  {
  }

  /** After n terms of tau_t(p) every entry is within B, and slots not yet hit are zero. */
  lemma {:induction false} PartialTau(q: int, p: Poly, t: int, B: int, n: nat, k: nat)
    requires q > 0 && PowerOfTwo(|p|) && t % 2 == 1 && Within(q, p, B) && B >= 0 && n <= |p| && k < |p|
    ensures var x := Comb(q, |p|, p, Powers(q, |p|, t), n);
            Mag(q, x[k]) <= B && ((forall i :: 0 <= i < n ==> SlotOf(|p|, i * t) != k) ==> x[k] == 0)
  {
    hide Mag, Comb, Powers, SlotOf, PowerOfTwo;
    var d, ps := |p|, Powers(q, |p|, t);
    if n == 0 {
      CombNil(q, d, p, ps);
      ZeroEntry(d, k);
      MagZero(q);
    } else {
      PartialTau(q, p, t, B, n - 1, k);
      C.TauCoeffsStep(q, p, t, n - 1);
      var x, e := Comb(q, d, p, ps, n - 1), SlotOf(d, (n - 1) * t);
      if e == k {
        forall i | 0 <= i < n - 1
          ensures SlotOf(d, i * t) != k
        {
          SlotsDiffer(d, t, i, n - 1);
        }
        SignIs(d, (n - 1) * t);
        WithinAt(q, p, B, n - 1);
        MagSigned(q, p[n - 1], SignOf(d, (n - 1) * t));
        MagMod(q, p[n - 1] * SignOf(d, (n - 1) * t));
        assert SlotOf(d, (n - 1) * t) == k;
      }
    }
  }

  lemma SignIs(d: nat, e: int)
    requires d > 0
    ensures SignOf(d, e) == 1 || SignOf(d, e) == -1
  {
  }

  lemma WithinTau(q: int, p: Poly, t: int, B: int)
    requires q > 0 && PowerOfTwo(|p|) && t % 2 == 1 && Within(q, p, B) && B >= 0
    ensures |p| > 0 && Within(q, Tau(q, p, t), B)
  {
    hide Mag, Tau, Comb, Powers, SlotOf, PowerOfTwo;
    PositivePower(|p|);
    TauIs(q, p, t);
    forall k | 0 <= k < |p|
      ensures Mag(q, Tau(q, p, t)[k]) <= B
    {
      PartialTau(q, p, t, B, |p|, k);
    }
  }

  // ----- gadget digits -----

  /** Low digits are at most z/2 in magnitude, the top digit at most z. */
  function DigitBound(S: Setting, j: int): (r: int) {
    if j < S.ell - 1 then S.z / 2 else S.z
  }

  /** The digit bounds of the first n columns, added up. */
  function DigitMass(S: Setting, n: nat): (r: int) {
    if n == 0 then 0 else DigitMass(S, n - 1) + DigitBound(S, n - 1)
  }

  /** All ell columns together weigh (ell + 1) z / 2. */
  lemma {:induction false} DigitMassIs(S: Setting, n: nat)
    requires S.z % 2 == 0 && n <= S.ell
    ensures DigitMass(S, n) == if n == S.ell > 0 then (n + 1) * (S.z / 2) else n * (S.z / 2)
  {
    if n > 0 {
      DigitMassIs(S, n - 1);
      Distribute(n - 1, 1, S.z / 2);
      Distribute(n, 1, S.z / 2);
    }
  }

  /** One digit polynomial per column, each within its column's bound. */
  predicate SmallDigits(S: Setting, block: seq<Poly>)
    requires S.q > 0
  {
    |block| == S.ell && forall j :: 0 <= j < S.ell ==> |block[j]| == S.d && Within(S.q, block[j], DigitBound(S, j))
  }

  ghost predicate SmallBlocks(S: Setting, blocks: seq<seq<Poly>>)
    requires S.q > 0
  {
    forall t :: 0 <= t < |blocks| ==> SmallDigits(S, blocks[t])
  }

  lemma DigitMagnitude(S: Setting, x: int, j: nat)
    requires S.Ok() && 0 <= x < S.q && j < S.ell
    ensures S.q > 0 && S.z >= 2 && S.ell > 0 && Mag(S.q, Digits(S.q, S.z, S.ell, x)[j]) <= DigitBound(S, j)
    ensures Mag(S.q, Digits(S.q, S.z, S.ell, x)[j]) <= if j < S.ell - 1 then S.z / 2 else S.z
  {
    hide Mag, Digits;
    DigitsBounded(S.q, S.z, S.ell, x);
    var g := Digits(S.q, S.z, S.ell, x)[j];
    if j < S.ell - 1 {
      if g < S.z / 2 {
        SameIs(S.q, g, g);
        MagLeast(S.q, g, g);
      } else {
        ModMultiple(g, -1, S.q);
        SameIs(S.q, g, g - S.q);
        MagLeast(S.q, g, g - S.q);
      }
    } else {
      var top: int :| 0 <= top <= S.z && g == top % S.q;
      MagMod(S.q, top);
      SameIs(S.q, top, top);
      MagLeast(S.q, top, top);
    }
  }

  lemma DigitsSmall(S: Setting, c: Poly)
    requires S.Ok() && Elem(S.q, S.d, c)
    ensures S.q > 0 && SmallDigits(S, DigitsOf(S, c))
  {
    hide Mag, Digits, GadgetFits;
    SettingSizes(S);
    forall j | 0 <= j < S.ell
      ensures Within(S.q, DigitsOf(S, c)[j], DigitBound(S, j))
    {
      forall i | 0 <= i < S.d
        ensures Mag(S.q, DigitsOf(S, c)[j][i]) <= DigitBound(S, j)
      {
        CanonAt(S.q, c, i);
        ModSmall(c[i], S.q);
        DigitMagnitude(S, c[i], j);
        assert DigitsOf(S, c)[j] == Column(S.q, S.z, S.ell, c, j);
      }
    }
  }

  lemma {:induction false} MaskDigitsSmall(S: Setting, a: seq<Poly>, masks: seq<seq<Poly>>)
    requires SlotsOk(S, a) && RowsOk(S, masks) && |a| <= |masks| + 1 && S.q > 0
    ensures SmallBlocks(S, MaskDigits(S, a, masks))
    decreases |a|
  {
    hide SmallDigits, DigitsOf, MaskStep, MaskDigits, SlotsOk, RowsOk;
    SlotSizes(S, a);
    if |a| == 1 {
      MaskEnd(S, a, masks);
    } else {
      MaskUnfold(S, a, masks);
      DigitsSmall(S, a[|a| - 1]);
      MaskDigitsSmall(S, MaskStep(S, a, masks[|a| - 2]), masks);
    }
  }

  lemma SmallConcat(S: Setting, xs: seq<seq<Poly>>, ys: seq<seq<Poly>>)
    requires S.q > 0 && SmallBlocks(S, xs) && SmallBlocks(S, ys)
    ensures SmallBlocks(S, xs + ys)
  {
    hide SmallDigits;
  }

  lemma SmallOne(S: Setting, block: seq<Poly>)
    requires S.q > 0 && SmallDigits(S, block)
    ensures SmallBlocks(S, [block])
  {
    hide SmallDigits;
  }

  lemma SmallSlice(S: Setting, blocks: seq<seq<Poly>>, m: nat, n: nat)
    requires S.q > 0 && SmallBlocks(S, blocks) && m <= n <= |blocks|
    ensures SmallBlocks(S, blocks[m..n])
  {
    hide SmallDigits;
  }

  lemma SmallAt(S: Setting, blocks: seq<seq<Poly>>, i: nat)
    requires S.q > 0 && SmallBlocks(S, blocks) && i < |blocks|
    ensures SmallDigits(S, blocks[i])
  {
  }

  /** Every digit block of a stored trace is small. */
  lemma TraceSmall(S: Setting, a: seq<Poly>, left: seq<seq<Poly>>, right: seq<seq<Poly>>, last: seq<Poly>)
    requires MasksOk(S, a, left, right, last)
    ensures S.q > 0 && SmallBlocks(S, PublicTrace(S, a, left, right, last).blocks)
  {
    hide *;
    MasksParts(S, a, left, right, last);
    SettingSizes(S);
    TraceParts(S, a, left, right, last);
    var n, m, bs := |left| + 1, |left| + |right|, PublicTrace(S, a, left, right, last).blocks;
    MaskDigitsSmall(S, a[..n], left);
    MaskDigitsSmall(S, a[n..], right);
    ElemFrom(S.q, S.d, MaskHalf(S, a[n..], right));
    DigitsSmall(S, MaskHalf(S, a[n..], right));
    SmallConcat(S, bs[..n - 1], bs[n - 1..m]);
    SmallOne(S, bs[m]);
    SmallConcat(S, bs[..n - 1] + bs[n - 1..m], [bs[m]]);
    assert bs == bs[..n - 1] + bs[n - 1..m] + [bs[m]];
  }

  // ----- switches -----

  /** The most one key switch can add to a coefficient: d B (ell + 1) z / 2. */
  function SwitchBound(S: Setting, B: int): (r: int) {
    S.d * (B * ((S.ell + 1) * (S.z / 2)))
  }

  lemma {:induction false} WithinDot(S: Setting, row: seq<Poly>, block: seq<Poly>, B: int, n: nat)
    requires S.q > 0 && S.d > 0 && |row| == S.ell && SmallDigits(S, block) && n <= S.ell
    requires forall j :: 0 <= j < S.ell ==> |row[j]| == S.d && Within(S.q, row[j], B)
    ensures |block| == S.ell && forall j :: 0 <= j < S.ell ==> |block[j]| == S.d
    ensures Within(S.q, Dot(S.q, S.d, row, block, n), S.d * (B * DigitMass(S, n)))
  {
    hide Mag, Dot, Mul, Add, DigitBound;
    if n == 0 {
      DotNil(S.q, S.d, row, block);
      WithinZero(S.q, S.d);
      assert S.d * (B * 0) == 0;
    } else {
      WithinDot(S, row, block, B, n - 1);
      DotStep(S.q, S.d, row, block, n - 1);
      WithinMul(S.q, row[n - 1], block[n - 1], B, DigitBound(S, n - 1));
      WithinAdd(S.q, Dot(S.q, S.d, row, block, n - 1), Mul(S.q, row[n - 1], block[n - 1]),
                S.d * (B * DigitMass(S, n - 1)), S.d * (B * DigitBound(S, n - 1)));
      MassStep(S.d, B, DigitMass(S, n - 1), DigitBound(S, n - 1));
    }
  }

  lemma MassStep(d: int, B: int, x: int, y: int)
    ensures d * (B * (x + y)) == d * (B * x) + d * (B * y)
  {
    assert B * (x + y) == B * x + B * y;
  }

  lemma ProductWithin(S: Setting, row: seq<Poly>, block: seq<Poly>, B: int)
    requires S.Ok() && S.q > 0 && RowOk(S, row) && AllWithin(S.q, row, B) && SmallDigits(S, block)
    ensures |block| == S.ell && forall j :: 0 <= j < S.ell ==> |block[j]| == S.d
    ensures Within(S.q, Product(S, row, block), SwitchBound(S, B))
  {
    hide Mag, Dot, DigitMass, DigitBound, GadgetFits, Within;
    SettingSizes(S);
    RowSize(S, row);
    ElemsSizes(S.q, S.d, row);
    WithinDot(S, row, block, B, S.ell);
    EvenBase(S);
    DigitMassIs(S, S.ell);
  }

  lemma EvenBase(S: Setting)
    requires S.Ok()
    ensures S.z % 2 == 0 && S.ell > 0
  {
  }

  lemma {:induction false} BodySumWithin(S: Setting, rows: seq<seq<Poly>>, blocks: seq<seq<Poly>>, B: int)
    requires S.Ok() && S.q > 0 && RowsOk(S, rows) && BlocksOk(S, blocks) && |blocks| <= |rows| && SmallBlocks(S, blocks)
    requires forall i :: 0 <= i < |rows| ==> AllWithin(S.q, rows[i], B)
    ensures Within(S.q, BodySum(S, rows, blocks), |blocks| * SwitchBound(S, B))
    decreases |blocks|
  {
    hide Within, AllWithin, SmallDigits, BodySum, Product, SwitchBound, RowsOk, BlocksOk, Setting.Ok;
    if blocks == [] {
      BodySumEnd(S, rows, blocks);
      WithinZero(S.q, S.d);
      assert 0 * SwitchBound(S, B) == 0;
    } else {
      var rest := blocks[1..];
      assert blocks == [blocks[0]] + rest;
      BodySumUnfold(S, rows, blocks[0], rest);
      SmallSlice(S, blocks, 1, |blocks|);
      assert blocks[1..|blocks|] == rest;
      BodySumWithin(S, rows, rest, B);
      ProductWithin(S, rows[|rest|], blocks[0], B);
      WithinAdd(S.q, Product(S, rows[|rest|], blocks[0]), BodySum(S, rows, rest), SwitchBound(S, B), |rest| * SwitchBound(S, B));
      Distribute(1, |rest|, SwitchBound(S, B));
    }
  }

  lemma RowsWithin(S: Setting, row: seq<Poly>, B: int)
    requires S.Ok() && S.d >= 2 && PowerOfTwo(S.d) && S.q > 0 && RowOk(S, row) && AllWithin(S.q, row, B) && B >= 0
    ensures forall i :: 0 <= i < |LeftRows(S, row)| ==> AllWithin(S.q, LeftRows(S, row)[i], B)
    ensures forall i :: 0 <= i < |RightRows(S, row)| ==> AllWithin(S.q, RightRows(S, row)[i], B)
  {
    hide Within, Tau, GadgetFits, LeftExp, RightExp, PowerOfTwo;
    RowSize(S, row);
    ElemsSizes(S.q, S.d, row);
    forall i | 0 <= i < S.d / 2 - 1
      ensures AllWithin(S.q, LeftRows(S, row)[i], B) && AllWithin(S.q, RightRows(S, row)[i], B)
    {
      ExponentsOdd(S.d, i);
      forall j | 0 <= j < |row|
        ensures Within(S.q, LeftRows(S, row)[i][j], B) && Within(S.q, RightRows(S, row)[i][j], B)
      {
        WithinTau(S.q, row[j], LeftExp(S.d, i), B);
        WithinTau(S.q, row[j], RightExp(S.d, i), B);
      }
    }
  }

  /** The most all d - 1 switches can add to a coefficient. */
  function PackBound(S: Setting, B: int): (r: int) {
    (S.d - 1) * SwitchBound(S, B)
  }

  lemma ChainWithin(S: Setting, left: seq<seq<Poly>>, right: seq<seq<Poly>>, last: seq<Poly>, blocks: seq<seq<Poly>>, B: int)
    requires S.Ok() && S.q > 0 && RowsOk(S, left) && RowsOk(S, right) && RowOk(S, last) && |blocks| == |left| + |right| + 1 == S.d - 1
    requires BlocksOk(S, blocks) && SmallBlocks(S, blocks) && AllWithin(S.q, last, B)
    requires forall i :: 0 <= i < |left| ==> AllWithin(S.q, left[i], B)
    requires forall i :: 0 <= i < |right| ==> AllWithin(S.q, right[i], B)
    ensures Within(S.q, BodyChain(S, Zero(S.d), left, right, last, blocks), PackBound(S, B))
  {
    hide *;
    var m, n, w := |left|, |left| + |right|, SwitchBound(S, B);
    BodyChainIs(S, Zero(S.d), left, right, last, blocks);
    SmallSlice(S, blocks, 0, m);
    assert blocks[0..m] == blocks[..m];
    SmallSlice(S, blocks, m, n);
    SmallAt(S, blocks, n);
    var x, y, z := BodySum(S, left, blocks[..m]), BodySum(S, right, blocks[m..n]), Product(S, last, blocks[n]);
    BodySumWithin(S, left, blocks[..m], B);
    BodySumWithin(S, right, blocks[m..n], B);
    ProductWithin(S, last, blocks[n], B);
    AddZero(S.q, x);
    WithinAdd(S.q, x, y, m * w, (n - m) * w);
    WithinAdd(S.q, Add(S.q, x, y), z, m * w + (n - m) * w, w);
    Distribute(m, n - m, w);
    Distribute(n, 1, w);
    PackBoundIs(S, B);
  }

  lemma PackBoundIs(S: Setting, B: int)
    ensures PackBound(S, B) == (S.d - 1) * SwitchBound(S, B) == (S.d - 1) * (S.d * (B * ((S.ell + 1) * (S.z / 2))))
  {
  }

  /** From a bound B on the key errors: every centred coefficient of the packing error is at most
      (d - 1) d B (ell + 1) z / 2, whatever the masks, the bodies and the batch. */
  lemma PackErrorBound(S: Setting, kg: Key, kh: Key, a: seq<Poly>, b: Poly, eg: seq<Poly>, eh: seq<Poly>, B: int)
    requires PackOk(S, kg, kh, a) && Elem(S.q, S.d, b) && RowOk(S, eg) && RowOk(S, eh) && S.q > 0 && B >= 0
    requires AllWithin(S.q, eg, B) && AllWithin(S.q, eh, B)
    ensures Within(S.q, PackError(S, kg, kh, a, b, eg, eh), (S.d - 1) * (S.d * (B * ((S.ell + 1) * (S.z / 2)))))
  {
    hide *;
    PackSizes(S, kg, kh, a);
    PackErrorSum(S, kg, kh, a, b, eg, eh);
    BlockTraceIs(S, a, kg.w, kh.w);
    TraceSmall(S, a, LeftRows(S, kg.w), RightRows(S, kg.w), kh.w);
    RowsWithin(S, eg, B);
    PackBoundIs(S, B);
    ChainWithin(S, LeftRows(S, eg), RightRows(S, eg), eh, BlockTrace(S, a, kg.w, kh.w).blocks, B);
  }
}
