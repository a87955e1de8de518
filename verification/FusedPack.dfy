/** The fused collapse computes, slot by slot, the transform of the packed ciphertext's body
    (inspiring/src/preprocess.rs). */
module FusedPack {
  import opened Wrappers
  import opened Modular
  import opened MachineWords
  import opened Ring
  import opened RingLaws
  import opened Galois
  import opened Collapse
  import opened MaskCascade
  import opened Packing
  import opened Preprocess
  import opened KgPart
  import opened Ntt
  import opened Automorph
  import F = Fused
  import R = FusedRun

  /** Pointwise products are negacyclic products. */
  lemma AtMul(N: Slots, a: Poly, b: Poly, e: int)
    requires N.Ok() && |a| == |b| == N.d && Canon(N.q, b) && e % 2 == 1
    ensures N.q > 0 && N.d > 0 && At(N, Mul(N.q, a, b), e) == (At(N, a, e) * At(N, b, e)) % N.q
  {
    hide *;
    SlotsSizes(N);
    var c := At(N, b, e);
    forall i | 0 <= i < N.d
      ensures At(N, Shifts(N.q, b)[i], e) == (c * Root(N, i * e)) % N.q
    {
      ShiftsAt(N.q, b, i);
      AtShift(N, b, i, e);
      Commute(c, Root(N, i * e));
    }
    AtCombination(N, a, Shifts(N.q, b), e, c, e, N.d);
    MulIs(N.q, a, b);
    AtIs(N, a, e);
    MulRight(c, EvalSum(N, a, e, N.d), N.q);
    Commute(c, At(N, a, e));
  }

  /** The transform matches the ring of the packing setting. */
  predicate Matches(N: Slots, S: Setting) {
    N.Ok() && S.Ok() && N.q == S.q && N.d == S.d && S.d >= 2
  }

  lemma MatchSizes(N: Slots, S: Setting)
    requires Matches(N, S)
    ensures N.Ok() && S.Ok() && N.q == S.q > 0 && N.d == S.d >= 2 && S.ell > 0 && S.d % 2 == 0 && PowerOfTwo(S.d)
  {
  }

  function ForwardRow(N: Slots, row: seq<Poly>): (r: F.Rows)
    requires N.Ok() && forall i :: 0 <= i < |row| ==> |row[i]| == N.d
    ensures |r| == |row| && forall i :: 0 <= i < |row| ==> r[i] == Forward(N, row[i]) && |r[i]| == N.d
    ensures forall i :: 0 <= i < |row| ==> Canon(N.q, r[i])
  {
    seq(|row|, i requires 0 <= i < |row| => Forward(N, row[i]))
  }

  lemma RowPolys(S: Setting, row: seq<Poly>)
    requires RowOk(S, row)
    ensures |row| == S.ell && forall i :: 0 <= i < |row| ==> |row[i]| == S.d && Canon(S.q, row[i])
  {
  }

  lemma ForwardRowOk(N: Slots, S: Setting, row: seq<Poly>)
    requires Matches(N, S) && RowOk(S, row)
    ensures N.Ok() && forall i :: 0 <= i < |row| ==> |row[i]| == N.d
    ensures F.RowsOk(S.q, S.d, S.ell, ForwardRow(N, row))
  {
    RowPolys(S, row);
  }

  /** One step of the schedule and the ring product it stands for. */
  predicate StandsFor(N: Slots, S: Setting, t: F.Step, g: int, block: seq<Poly>)
    requires Matches(N, S) && RowOk(S, block)
  {
    && (forall i :: 0 <= i < |block| ==> |block[i]| == N.d) && t.digits == ForwardRow(N, block)
    && (if t.table.Some? then Realises(N, Table(g, t.table.value)) else g == 1)
  }

  lemma StandsForOk(N: Slots, S: Setting, t: F.Step, g: int, block: seq<Poly>)
    requires Matches(N, S) && RowOk(S, block) && StandsFor(N, S, t, g, block)
    ensures F.StepOk(S.q, S.d, S.ell, t)
  {
    ForwardRowOk(N, S, block);
    if t.table.Some? {
      RealisesBijection(N, Table(g, t.table.value));
    }
  }

  /** The slot a step reads holds the automorphic image. */
  lemma StepReads(N: Slots, S: Setting, t: F.Step, g: int, block: seq<Poly>, p: Poly, s: nat)
    requires Matches(N, S) && RowOk(S, block) && StandsFor(N, S, t, g, block) && |p| == S.d && Canon(S.q, p) && s < S.d
    ensures N.Ok() && N.q == S.q > 0 && N.d == S.d > 0
    ensures (t.table.Some? ==> s < |t.table.value|) && F.Source(t, s) < N.d
    ensures Forward(N, p)[F.Source(t, s)] == Forward(N, Tau(S.q, p, g))[s]
  {
    MatchSizes(N, S);
    if t.table.Some? {
      TableApplies(N, Table(g, t.table.value), p, s);
    } else {
      TauOne(S.q, p);
    }
  }

  lemma StandsForDigits(N: Slots, S: Setting, t: F.Step, g: int, block: seq<Poly>, i: nat)
    requires Matches(N, S) && RowOk(S, block) && StandsFor(N, S, t, g, block) && i < S.ell
    ensures N.Ok() && |block| == S.ell && |block[i]| == N.d && Canon(S.q, block[i])
    ensures |t.digits| == S.ell && t.digits[i] == Forward(N, block[i])
  {
  }

  /** The unreduced slot sum is the ring product's value at that slot. */
  lemma {:induction false} SlotIsProduct(N: Slots, S: Setting, t: F.Step, g: int, body: seq<Poly>, block: seq<Poly>, s: nat, n: nat)
    requires Matches(N, S) && RowOk(S, body) && RowOk(S, block) && StandsFor(N, S, t, g, block) && s < S.d && n <= S.ell
    requires forall i :: 0 <= i < |body| ==> |body[i]| == N.d
    requires F.RowsOk(S.q, S.d, S.ell, ForwardRow(N, body)) && F.StepOk(S.q, S.d, S.ell, t)
    ensures N.Ok() && |N.es| == S.d && S.q > 0 && N.q > 0 && N.d > 0
    ensures F.SlotSum(S.q, S.d, S.ell, ForwardRow(N, body), t, s, n) % S.q
            == At(N, PartProduct(S, g, body, block, n), N.es[s])
  {
    hide *;
    MatchSizes(N, S);
    SlotsSizes(N);
    SlotOdd(N, s);
    RowPolys(S, body);
    var e := N.es[s];
    if n == 0 {
      F.SlotSumNil(S.q, S.d, S.ell, ForwardRow(N, body), t, s);
      PartProductStep(S, g, body, block, 0);
      AtZero(N, S.d, e);
      ModSmall(0, S.q);
    } else {
      var k := n - 1;
      SlotIsProduct(N, S, t, g, body, block, s, k);
      F.SourceInside(S.q, S.d, S.ell, t, s);
      F.SlotSumStep(S.q, S.d, S.ell, ForwardRow(N, body), t, s, k);
      StandsForDigits(N, S, t, g, block, k);
      StepReads(N, S, t, g, block, body[k], s);
      PartProductStep(S, g, body, block, k);
      var image := Tau(S.q, body[k], g);
      AtMul(N, block[k], image, e);
      AtAdd(N, PartProduct(S, g, body, block, k), Mul(S.q, block[k], image), e);
      ProductStep(F.SlotSum(S.q, S.d, S.ell, ForwardRow(N, body), t, s, k), At(N, image, e), At(N, block[k], e), S.q);
    }
  }

  lemma ProductStep(sum: int, x: int, y: int, q: int)
    requires q > 0
    ensures (sum + x * y) % q == (sum % q + (y * x) % q) % q
  {
    var p := x * y;
    assert y * x == p;
    ModAdd(sum, p, q);
  }

  // ----- the schedule -----

  predicate TablesRealise(N: Slots, left: seq<Table>, right: seq<Table>)
    requires N.Ok() && N.d >= 2
  {
    && |left| == |right| == N.d / 2 - 1
    && forall i :: 0 <= i < N.d / 2 - 1 ==>
         left[i].exponent == LeftExp(N.d, i) && right[i].exponent == RightExp(N.d, i)
         && Realises(N, left[i]) && Realises(N, right[i])
  }

  lemma TablesAt(N: Slots, left: seq<Table>, right: seq<Table>, i: nat)
    requires N.Ok() && N.d >= 2 && TablesRealise(N, left, right) && i < N.d / 2 - 1
    ensures |left| == |right| == N.d / 2 - 1
    ensures left[i].exponent == LeftExp(N.d, i) && right[i].exponent == RightExp(N.d, i)
    ensures Realises(N, left[i]) && Realises(N, right[i])
    ensures Realises(N, Table(left[i].exponent, left[i].indices)) && Realises(N, Table(right[i].exponent, right[i].indices))
  {
  }

  /** Every step of the schedule stands for its recorded exponent and digit block. */
  ghost predicate Scheduled(N: Slots, S: Setting, steps: seq<F.Step>, blocks: seq<seq<Poly>>, final: seq<Poly>)
    requires Matches(N, S) && Reduced(S, blocks) && |blocks| == S.d - 2 && RowOk(S, final)
  {
    && |steps| == S.d - 1
    && (forall t :: 0 <= t < S.d - 2 ==>
          RowOk(S, blocks[t]) && StandsFor(N, S, steps[t], KgExponents(S.d)[t], blocks[t]) && !steps[t].useKh)
    && StandsFor(N, S, steps[S.d - 2], 1, final) && steps[S.d - 2].useKh && steps[S.d - 2].table.None?
  }

  lemma ScheduledAt(N: Slots, S: Setting, steps: seq<F.Step>, blocks: seq<seq<Poly>>, final: seq<Poly>, t: nat)
    requires Matches(N, S) && Reduced(S, blocks) && |blocks| == S.d - 2 && RowOk(S, final)
    requires Scheduled(N, S, steps, blocks, final) && t < S.d - 2
    ensures |steps| == S.d - 1 && RowOk(S, blocks[t]) && |KgExponents(S.d)| == S.d - 2
    ensures StandsFor(N, S, steps[t], KgExponents(S.d)[t], blocks[t]) && !steps[t].useKh
  {
  }

  lemma ScheduledLast(N: Slots, S: Setting, steps: seq<F.Step>, blocks: seq<seq<Poly>>, final: seq<Poly>)
    requires Matches(N, S) && Reduced(S, blocks) && |blocks| == S.d - 2 && RowOk(S, final)
    requires Scheduled(N, S, steps, blocks, final)
    ensures |steps| == S.d - 1 && StandsFor(N, S, steps[S.d - 2], 1, final) && steps[S.d - 2].useKh
  {
  }

  /** The schedule both fused paths build: left tables from last to first, right tables likewise, then K_h. */
  method BuildSchedule(N: Slots, S: Setting, left: seq<Table>, right: seq<Table>, blocks: seq<seq<Poly>>, final: seq<Poly>)
    returns (steps: seq<F.Step>)
    requires Matches(N, S) && TablesRealise(N, left, right)
    requires Reduced(S, blocks) && |blocks| == S.d - 2 && RowOk(S, final)
    ensures Scheduled(N, S, steps, blocks, final)
  {
    hide *;
    MatchSizes(N, S);
    var m := S.d / 2 - 1;
    TablesSize(N, left, right);
    steps := [];
    for i := 0 to m
      invariant |steps| == i
      invariant forall t :: 0 <= t < i ==> StepGood(N, S, steps[t], blocks, t)
    {
      ReducedAt(S, blocks, i);
      RowPolys(S, blocks[i]);
      TablesAt(N, left, right, m - 1 - i);
      KgExponentAt(S.d, m - 1 - i);
      LeftAt(S.d, m - 1 - i);
      var t := F.Step(Some(left[m - 1 - i].indices), ForwardRow(N, blocks[i]), false);
      GoodFrom(N, S, t, blocks, i, left[m - 1 - i]);
      steps := steps + [t];
    }
    for i := 0 to m
      invariant |steps| == m + i
      invariant forall t :: 0 <= t < m + i ==> StepGood(N, S, steps[t], blocks, t)
    {
      ReducedAt(S, blocks, m + i);
      RowPolys(S, blocks[m + i]);
      TablesAt(N, left, right, m - 1 - i);
      KgExponentAt(S.d, m - 1 - i);
      LeftAt(S.d, m - 1 - i);
      var t := F.Step(Some(right[m - 1 - i].indices), ForwardRow(N, blocks[m + i]), false);
      GoodFrom(N, S, t, blocks, m + i, right[m - 1 - i]);
      steps := steps + [t];
    }
    RowPolys(S, final);
    steps := steps + [F.Step(None, ForwardRow(N, final), true)];
    ScheduledFrom(N, S, steps, blocks, final);
  }

  lemma LeftAt(d: nat, i: nat)
    requires d >= 2 && i < d / 2 - 1
    ensures LeftExps(d, d / 2 - 1)[i] == LeftExp(d, i) && RightExps(d, d / 2 - 1)[i] == RightExp(d, i)
  {
  }

  lemma TablesSize(N: Slots, left: seq<Table>, right: seq<Table>)
    requires N.Ok() && N.d >= 2 && TablesRealise(N, left, right)
    ensures |left| == |right| == N.d / 2 - 1
  {
  }

  ghost predicate StepGood(N: Slots, S: Setting, t: F.Step, blocks: seq<seq<Poly>>, i: nat)
    requires Matches(N, S) && Reduced(S, blocks) && |blocks| == S.d - 2 && i < S.d - 2
  {
    RowOk(S, blocks[i]) && |KgExponents(S.d)| == S.d - 2 && StandsFor(N, S, t, KgExponents(S.d)[i], blocks[i]) && !t.useKh
  }

  lemma GoodFrom(N: Slots, S: Setting, t: F.Step, blocks: seq<seq<Poly>>, i: nat, T: Table)
    requires Matches(N, S) && Reduced(S, blocks) && |blocks| == S.d - 2 && i < S.d - 2
    requires Realises(N, T) && |KgExponents(S.d)| == S.d - 2 && T.exponent == KgExponents(S.d)[i]
    requires RowOk(S, blocks[i]) && forall j :: 0 <= j < |blocks[i]| ==> |blocks[i][j]| == N.d
    requires t == F.Step(Some(T.indices), ForwardRow(N, blocks[i]), false)
    ensures StepGood(N, S, t, blocks, i)
  {
    hide Realises, KgExponents;
    assert T == Table(T.exponent, T.indices);
  }

  lemma ScheduledFrom(N: Slots, S: Setting, steps: seq<F.Step>, blocks: seq<seq<Poly>>, final: seq<Poly>)
    requires Matches(N, S) && Reduced(S, blocks) && |blocks| == S.d - 2 && RowOk(S, final)
    requires |steps| == S.d - 1 && forall t :: 0 <= t < S.d - 2 ==> StepGood(N, S, steps[t], blocks, t)
    requires forall i :: 0 <= i < |final| ==> |final[i]| == N.d
    requires steps[S.d - 2] == F.Step(None, ForwardRow(N, final), true)
    ensures Scheduled(N, S, steps, blocks, final)
  {
    hide Realises, KgExponents, ForwardRow;
  }

  lemma ScheduleOk(N: Slots, S: Setting, steps: seq<F.Step>, blocks: seq<seq<Poly>>, final: seq<Poly>)
    requires Matches(N, S) && Reduced(S, blocks) && |blocks| == S.d - 2 && RowOk(S, final)
    requires Scheduled(N, S, steps, blocks, final)
    ensures F.StepsOk(S.q, S.d, S.ell, steps)
  {
    hide *;
    MatchSizes(N, S);
    ScheduledLast(N, S, steps, blocks, final);
    forall t | 0 <= t < |steps|
      ensures F.StepOk(S.q, S.d, S.ell, steps[t])
    {
      if t < S.d - 2 {
        ScheduledAt(N, S, steps, blocks, final, t);
        StandsForOk(N, S, steps[t], KgExponents(S.d)[t], blocks[t]);
      } else {
        StandsForOk(N, S, steps[t], 1, final);
      }
    }
    StepsFrom(S.q, S.d, S.ell, steps);
  }

  lemma StepsFrom(q: int, d: nat, ell: nat, steps: seq<F.Step>)
    requires forall t :: 0 <= t < |steps| ==> F.StepOk(q, d, ell, steps[t])
    ensures F.StepsOk(q, d, ell, steps)
  {
  }

  lemma BodyPick(b: F.Bodies, t: F.Step)
    ensures F.BodyOf(b, t) == if t.useKh then b.kh else b.kg
  {
  }

  function ForwardBodies(N: Slots, S: Setting, kg: seq<Poly>, kh: seq<Poly>): (r: F.Bodies)
    requires Matches(N, S) && RowOk(S, kg) && RowOk(S, kh)
    ensures F.BodiesOk(S.q, S.d, S.ell, r)
    ensures (forall i :: 0 <= i < |kg| ==> |kg[i]| == N.d) && N.Ok() && r.kg == ForwardRow(N, kg)
    ensures (forall i :: 0 <= i < |kh| ==> |kh[i]| == N.d) && r.kh == ForwardRow(N, kh)
  {
    RowPolys(S, kg);
    RowPolys(S, kh);
    ForwardRowOk(N, S, kg);
    ForwardRowOk(N, S, kh);
    F.Bodies(ForwardRow(N, kg), ForwardRow(N, kh))
  }

  /** Summing n scheduled steps is the transform of the ring's running sum. */
  lemma {:induction false} RangeIsSteps(N: Slots, S: Setting, steps: seq<F.Step>, kg: seq<Poly>, kh: seq<Poly>,
                                        blocks: seq<seq<Poly>>, final: seq<Poly>, s: nat, n: nat)
    requires Matches(N, S) && Reduced(S, blocks) && |blocks| == S.d - 2 && RowOk(S, final)
    requires RowOk(S, kg) && RowOk(S, kh) && s < S.d && n <= S.d - 2
    requires Scheduled(N, S, steps, blocks, final) && F.StepsOk(S.q, S.d, S.ell, steps) && |steps| == S.d - 1
    ensures N.Ok() && |N.es| == S.d && S.q > 0 && N.q > 0 && N.d > 0 && |KgExponents(S.d)| == S.d - 2
    ensures F.RangeSum(S.q, S.d, S.ell, steps, ForwardBodies(N, S, kg, kh), s, 0, n) % S.q
            == At(N, StepSum(S, KgExponents(S.d), kg, blocks, n), N.es[s])
  {
    hide *;
    MatchSizes(N, S);
    SlotsSizes(N);
    var b, gs, e := ForwardBodies(N, S, kg, kh), KgExponents(S.d), N.es[s];
    if n == 0 {
      F.RangeSumNil(S.q, S.d, S.ell, steps, b, s, 0);
      StepSumEmpty(S, gs, kg, blocks);
      AtZero(N, S.d, e);
      ModSmall(0, S.q);
    } else {
      var k := n - 1;
      RangeIsSteps(N, S, steps, kg, kh, blocks, final, s, k);
      ScheduledAt(N, S, steps, blocks, final, k);
      F.RangeSumStep(S.q, S.d, S.ell, steps, b, s, 0, k);
      BodyPick(b, steps[k]);
      SlotIsProduct(N, S, steps[k], gs[k], kg, blocks[k], s, S.ell);
      PartProductStep(S, gs[k], kg, blocks[k], 0);
      StepSumStep(S, gs, kg, blocks, k);
      AtAdd(N, StepSum(S, gs, kg, blocks, k), StepProduct(S, gs[k], kg, blocks[k]), e);
      ModAdd(F.RangeSum(S.q, S.d, S.ell, steps, b, s, 0, k),
             F.SlotSum(S.q, S.d, S.ell, F.BodyOf(b, steps[k]), steps[k], s, S.ell), S.q);
    }
  }

  /** The final K_h step reads its body unpermuted. */
  lemma LastIsProduct(N: Slots, S: Setting, t: F.Step, kh: seq<Poly>, final: seq<Poly>, s: nat)
    requires Matches(N, S) && RowOk(S, kh) && RowOk(S, final) && StandsFor(N, S, t, 1, final) && s < S.d
    requires F.StepOk(S.q, S.d, S.ell, t)
    requires (forall i :: 0 <= i < |kh| ==> |kh[i]| == N.d) && F.RowsOk(S.q, S.d, S.ell, ForwardRow(N, kh))
    ensures N.Ok() && |N.es| == S.d && S.q > 0 && N.q > 0 && N.d > 0
    ensures |final| == S.ell && forall i :: 0 <= i < S.ell ==> |final[i]| == S.d
    ensures F.SlotSum(S.q, S.d, S.ell, ForwardRow(N, kh), t, s, S.ell) % S.q == At(N, Product(S, kh, final), N.es[s])
  {
    hide *;
    MatchSizes(N, S);
    RowPolys(S, final);
    RowPolys(S, kh);
    SlotIsProduct(N, S, t, 1, kh, final, s, S.ell);
    PartProductStep(S, 1, kh, final, 0);
    OneImage(S, kh);
    StepProductIs(S, 1, kh, final, kh);
  }

  lemma OneImage(S: Setting, row: seq<Poly>)
    requires S.Ok() && RowOk(S, row)
    ensures MapTauOf(S, row, 1) == row
  {
    hide Tau;
    forall i | 0 <= i < |row|
      ensures Tau(S.q, row[i], 1) == row[i]
    {
      TauOne(S.q, row[i]);
    }
  }

  /** The fused values are the transform of the packed body: what the ring cascade computes. */
  lemma CollapsedIsChain(N: Slots, S: Setting, steps: seq<F.Step>, kg: seq<Poly>, kh: seq<Poly>, b: Poly,
                         blocks: seq<seq<Poly>>, final: seq<Poly>, s: nat)
    requires Matches(N, S) && S.d % 2 == 0 && Reduced(S, blocks) && |blocks| == S.d - 2 && RowOk(S, final)
    requires RowOk(S, kg) && RowOk(S, kh) && |b| == S.d && s < S.d && BlocksOk(S, blocks + [final])
    requires Scheduled(N, S, steps, blocks, final) && F.StepsOk(S.q, S.d, S.ell, steps)
    ensures N.Ok() && N.q == S.q > 0 && N.d == S.d
    ensures R.Collapsed(S.q, S.d, S.ell, steps, ForwardBodies(N, S, kg, kh), Forward(N, b))[s]
            == Forward(N, BodyChain(S, b, LeftRows(S, kg), RightRows(S, kg), kh, blocks + [final]))[s]
  {
    hide *;
    MatchSizes(N, S);
    SlotsSizes(N);
    ScheduledLast(N, S, steps, blocks, final);
    var keys, gs, e, k := ForwardBodies(N, S, kg, kh), KgExponents(S.d), N.es[s], S.d - 2;
    RangeIsSteps(N, S, steps, kg, kh, blocks, final, s, k);
    F.RangeSumStep(S.q, S.d, S.ell, steps, keys, s, 0, k);
    BodyPick(keys, steps[k]);
    LastIsProduct(N, S, steps[k], kh, final, s);
    ChainIsSteps(S, kg, kh, b, blocks, final);
    var sum, last := StepSum(S, gs, kg, blocks, k), Product(S, kh, final);
    AtThree(N, b, sum, last, e, F.RangeSum(S.q, S.d, S.ell, steps, keys, s, 0, k),
            F.SlotSum(S.q, S.d, S.ell, F.BodyOf(keys, steps[k]), steps[k], s, S.ell));
  }

  lemma AtThree(N: Slots, b: Poly, sum: Poly, last: Poly, e: int, x: int, y: int)
    requires N.q > 0 && N.d > 0 && |b| == |sum| == |last| && x % N.q == At(N, sum, e) && y % N.q == At(N, last, e)
    ensures At(N, Add(N.q, Add(N.q, b, sum), last), e) == (At(N, b, e) + (x + y)) % N.q
  {
    hide *;
    AtAdd(N, Add(N.q, b, sum), last, e);
    AtAdd(N, b, sum, e);
    ThreeSums(At(N, b, e), x, y, N.q);
  }

  lemma ThreeSums(b: int, x: int, y: int, q: int)
    requires q > 0
    ensures (b + (x + y)) % q == ((b + x % q) % q + y % q) % q
  {
    ModAdd(b, x, q);
    var c := b + x;
    ModAdd(c, y, q);
    assert b + (x + y) == c + y;
  }

  /** collapse_uploaded_body_b for one query, against a stored trace: the slots of the packed body, for every modulus up
      to 2^63 and, with four terms or more, for every modulus. */
  method CollapseUploaded(N: Slots, S: Setting, left: seq<Table>, right: seq<Table>, t: Trace,
                          kgBody: seq<Poly>, khBody: seq<Poly>, b: Poly, plan: R.Plan) returns (out: seq<int>)
    requires Matches(N, S) && S.q < WORD && S.d % 2 == 0 && TablesRealise(N, left, right) && R.Span(plan) == S.d - 1
    requires RowOk(S, kgBody) && RowOk(S, khBody) && |b| == S.d
    requires |t.blocks| == S.d - 1 && BlocksOk(S, t.blocks) && Reduced(S, t.blocks)
    ensures N.Ok() && |b| == N.d && S.Ok() && S.d >= 2
    ensures |out| == S.d
    ensures S.q <= HALF || (S.d - 1) * S.ell >= 4 ==> out == Forward(N, UploadedPack(S, t, kgBody, khBody, b).b)
  {
    hide *;
    MatchSizes(N, S);
    var blocks, final := t.blocks[..S.d - 2], t.blocks[S.d - 2];
    assert t.blocks == blocks + [final];
    ReducedSlice(S, t.blocks, 0, S.d - 2);
    assert t.blocks[0..S.d - 2] == blocks;
    ReducedAt(S, t.blocks, S.d - 2);
    var steps := BuildSchedule(N, S, left, right, blocks, final);
    ScheduleOk(N, S, steps, blocks, final);
    ScheduledLast(N, S, steps, blocks, final);
    var keys := ForwardBodies(N, S, kgBody, khBody);
    OneBatch(S.q, S.d, S.ell, steps, keys);
    OneValue(S.q, S.d, Forward(N, b));
    var outs := R.CollapseBatched(S.q, S.d, S.ell, steps, [keys], [Forward(N, b)], plan);
    out := outs[0];
    ghost var want := UploadedPack(S, t, kgBody, khBody, b).b;
    UploadedPackIs(S, t, kgBody, khBody, b);
    if S.q <= HALF || (S.d - 1) * S.ell >= 4 {
      forall s | 0 <= s < S.d
        ensures out[s] == Forward(N, want)[s]
      {
        CollapsedIsChain(N, S, steps, kgBody, khBody, b, blocks, final, s);
      }
    }
  }

  lemma OneBatch(q: int, d: nat, ell: nat, steps: seq<F.Step>, keys: F.Bodies)
    requires q > 0 && d > 0 && F.StepsOk(q, d, ell, steps) && F.BodiesOk(q, d, ell, keys)
    ensures R.BatchOk(q, d, ell, steps, [keys])
  {
  }

  lemma OneValue(q: int, d: nat, b: seq<int>)
    requires |b| == d && Canon(q, b)
    ensures R.ValuesOk(q, d, b)
  {
  }
}
