/** The uploaded-body collapse as one unreduced sum per slot, for one query or a batch
    (inspiring/src/preprocess.rs). */
module Fused {
  import opened Wrappers
  import opened Modular
  import opened MachineWords
  import opened Automorph

  type Rows = seq<seq<int>>

  /** One collapse step in NTT form: which slots of the body it reads, its digits, and which body it uses. */
  datatype Step = Step(table: Option<seq<nat>>, digits: Rows, useKh: bool)

  /** One query's uploaded bodies. */
  datatype Bodies = Bodies(kg: Rows, kh: Rows)

  predicate RowsOk(q: int, d: nat, ell: nat, rows: Rows) {
    |rows| == ell && forall i :: 0 <= i < ell ==> |rows[i]| == d && forall s :: 0 <= s < d ==> 0 <= rows[i][s] < q
  }

  predicate StepOk(q: int, d: nat, ell: nat, t: Step) {
    && RowsOk(q, d, ell, t.digits)
    && (t.table.Some? ==> |t.table.value| == d && InRange(t.table.value, d))
  }

  predicate BodiesOk(q: int, d: nat, ell: nat, b: Bodies) {
    RowsOk(q, d, ell, b.kg) && RowsOk(q, d, ell, b.kh)
  }

  predicate StepsOk(q: int, d: nat, ell: nat, steps: seq<Step>) {
    forall t :: 0 <= t < |steps| ==> StepOk(q, d, ell, steps[t])
  }

  function BodyOf(b: Bodies, t: Step): (r: Rows) {
    if t.useKh then b.kh else b.kg
  }

  function Source(t: Step, dst: nat): (r: nat)
    requires t.table.Some? ==> dst < |t.table.value|
  {
    if t.table.Some? then t.table.value[dst] else dst
  }

  lemma SourceInside(q: int, d: nat, ell: nat, t: Step, dst: nat)
    requires StepOk(q, d, ell, t) && dst < d
    ensures t.table.Some? ==> |t.table.value| == d && Source(t, dst) == t.table.value[dst]
    ensures t.table.None? ==> Source(t, dst) == dst
    ensures Source(t, dst) < d && RowsOk(q, d, ell, t.digits)
  {
  }

  /** sum over the first n digits of body value times digit value, at one output slot. */
  function SlotSum(q: int, d: nat, ell: nat, body: Rows, t: Step, dst: nat, n: nat): (r: int)
    requires RowsOk(q, d, ell, body) && StepOk(q, d, ell, t) && dst < d && n <= ell
  {
    if n == 0 then 0 else SlotSum(q, d, ell, body, t, dst, n - 1) + body[n - 1][Source(t, dst)] * t.digits[n - 1][dst]
  }

  lemma SlotSumStep(q: int, d: nat, ell: nat, body: Rows, t: Step, dst: nat, n: nat)
    requires RowsOk(q, d, ell, body) && StepOk(q, d, ell, t) && dst < d && n < ell
    ensures |body| == ell && |t.digits| == ell && |body[n]| == d && |t.digits[n]| == d && Source(t, dst) < d
    ensures 0 <= body[n][Source(t, dst)] < q && 0 <= t.digits[n][dst] < q
    ensures SlotSum(q, d, ell, body, t, dst, 0) == 0
    ensures SlotSum(q, d, ell, body, t, dst, n + 1)
            == SlotSum(q, d, ell, body, t, dst, n) + body[n][Source(t, dst)] * t.digits[n][dst]
  {
  }

  lemma ProductBound(x: int, y: int, q: int)
    requires 0 <= x < q && 0 <= y < q
    ensures 0 <= x * y <= (q - 1) * (q - 1)
  {
    assert x * y <= (q - 1) * y;
    assert (q - 1) * y <= (q - 1) * (q - 1);
  }

  /** Partial sums only grow, and each digit adds at most (q-1)^2. */
  lemma {:induction false} SlotSumBound(q: int, d: nat, ell: nat, body: Rows, t: Step, dst: nat, m: nat, n: nat)
    requires RowsOk(q, d, ell, body) && StepOk(q, d, ell, t) && dst < d && m <= n <= ell
    ensures 0 <= SlotSum(q, d, ell, body, t, dst, m) <= SlotSum(q, d, ell, body, t, dst, n)
    ensures SlotSum(q, d, ell, body, t, dst, n) <= n * ((q - 1) * (q - 1))
    decreases n
  {
    hide *;
    if n == 0 {
      SlotSumNil(q, d, ell, body, t, dst);
    } else {
      var k := n - 1;
      SourceInside(q, d, ell, t, dst);
      SlotSumStep(q, d, ell, body, t, dst, k);
      ProductBound(body[k][Source(t, dst)], t.digits[k][dst], q);
      Distribute(k, 1, (q - 1) * (q - 1));
      SlotSumBound(q, d, ell, body, t, dst, if m < n then m else k, k);
    }
  }

  lemma SlotSumNil(q: int, d: nat, ell: nat, body: Rows, t: Step, dst: nat)
    requires RowsOk(q, d, ell, body) && StepOk(q, d, ell, t) && dst < d
    ensures SlotSum(q, d, ell, body, t, dst, 0) == 0
  {
  }

  // ----- one term, three loop orders -----

  /** acc[off..off+d) grows by the whole slot sum; nothing else changes. */
  ghost predicate Added(q: int, d: nat, ell: nat, body: Rows, t: Step, before: seq<int>, after: seq<int>, off: nat)
    requires RowsOk(q, d, ell, body) && StepOk(q, d, ell, t) && |before| == |after| && off + d <= |before|
  {
    && (forall i :: 0 <= i < off || off + d <= i < |before| ==> after[i] == before[i])
    && forall i :: off <= i < off + d ==> after[i] == before[i] + SlotSum(q, d, ell, body, t, i - off, ell)
  }

  /** Every sum that will be stored stays below 2^128. */
  ghost predicate Room(q: int, d: nat, ell: nat, body: Rows, t: Step, before: seq<int>, off: nat)
    requires RowsOk(q, d, ell, body) && StepOk(q, d, ell, t) && off + d <= |before|
  {
    forall i :: off <= i < off + d ==> 0 <= before[i] && before[i] + SlotSum(q, d, ell, body, t, i - off, ell) < U128
  }

  lemma RoomAt(q: int, d: nat, ell: nat, body: Rows, t: Step, before: seq<int>, off: nat, s: nat)
    requires RowsOk(q, d, ell, body) && StepOk(q, d, ell, t) && off + d <= |before| && s < d
    requires Room(q, d, ell, body, t, before, off)
    ensures 0 <= before[off + s] && before[off + s] + SlotSum(q, d, ell, body, t, s, ell) < U128
  {
  }

  /** Slots below n are done, the rest untouched. */
  ghost predicate PartlyAdded(q: int, d: nat, ell: nat, body: Rows, t: Step, before: seq<int>, after: seq<int>, off: nat, n: nat)
    requires RowsOk(q, d, ell, body) && StepOk(q, d, ell, t) && |before| == |after| && off + d <= |before|
  {
    && (forall i :: 0 <= i < off || off + n <= i < |before| ==> after[i] == before[i])
    && forall i :: off <= i < off + n && i < off + d ==> after[i] == before[i] + SlotSum(q, d, ell, body, t, i - off, ell)
  }

  lemma PartlyStart(q: int, d: nat, ell: nat, body: Rows, t: Step, before: seq<int>, off: nat)
    requires RowsOk(q, d, ell, body) && StepOk(q, d, ell, t) && off + d <= |before|
    ensures PartlyAdded(q, d, ell, body, t, before, before, off, 0)
  {
  }

  lemma PartlyStep(q: int, d: nat, ell: nat, body: Rows, t: Step, before: seq<int>, after: seq<int>, off: nat, n: nat, x: int)
    requires RowsOk(q, d, ell, body) && StepOk(q, d, ell, t) && |before| == |after| && off + d <= |before| && n < d
    requires PartlyAdded(q, d, ell, body, t, before, after, off, n)
    requires x == before[off + n] + SlotSum(q, d, ell, body, t, n, ell)
    ensures after[off + n] == before[off + n]
    ensures PartlyAdded(q, d, ell, body, t, before, after[off + n := x], off, n + 1)
  {
    hide SlotSum, RowsOk, StepOk;
  }

  lemma PartlyDone(q: int, d: nat, ell: nat, body: Rows, t: Step, before: seq<int>, after: seq<int>, off: nat)
    requires RowsOk(q, d, ell, body) && StepOk(q, d, ell, t) && |before| == |after| && off + d <= |before|
    requires PartlyAdded(q, d, ell, body, t, before, after, off, d)
    ensures Added(q, d, ell, body, t, before, after, off)
  {
    hide SlotSum, RowsOk, StepOk;
  }

  lemma PartlyAt(q: int, d: nat, ell: nat, body: Rows, t: Step, before: seq<int>, after: seq<int>, off: nat, n: nat)
    requires RowsOk(q, d, ell, body) && StepOk(q, d, ell, t) && |before| == |after| && off + d <= |before| && n < d
    requires PartlyAdded(q, d, ell, body, t, before, after, off, n)
    ensures after[off + n] == before[off + n]
  {
  }

  lemma ThreeTerms(q: int, d: nat, body: Rows, t: Step, s: nat)
    requires RowsOk(q, d, 3, body) && StepOk(q, d, 3, t) && s < d
    ensures |body| == 3 && |t.digits| == 3 && Source(t, s) < d
    ensures forall i :: 0 <= i < 3 ==> |body[i]| == d && |t.digits[i]| == d
    ensures SlotSum(q, d, 3, body, t, s, 3)
            == body[0][Source(t, s)] * t.digits[0][s] + body[1][Source(t, s)] * t.digits[1][s]
               + body[2][Source(t, s)] * t.digits[2][s]
  {
    SlotSumStep(q, d, 3, body, t, s, 0);
    SlotSumStep(q, d, 3, body, t, s, 1);
    SlotSumStep(q, d, 3, body, t, s, 2);
  }

  /** The three-digit path: one read-modify-write per slot, source index masked to d. */
  method AccumulateThree(acc: array<int>, off: nat, q: int, d: nat, body: Rows, t: Step)
    requires RowsOk(q, d, 3, body) && StepOk(q, d, 3, t) && off + d <= acc.Length && d > 0
    requires Room(q, d, 3, body, t, acc[..], off)
    modifies acc
    ensures Added(q, d, 3, body, t, old(acc[..]), acc[..], off)
  {
    hide *;
    ghost var before := acc[..];
    PartlyStart(q, d, 3, body, t, before, off);
    for dst := 0 to d
      invariant PartlyAdded(q, d, 3, body, t, before, acc[..], off, dst)
    {
      ghost var now := acc[..];
      SourceInside(q, d, 3, t, dst);
      ThreeTerms(q, d, body, t, dst);
      RoomAt(q, d, 3, body, t, before, off, dst);
      var src := if t.table.Some? then t.table.value[dst] % d else dst;
      ModSmall(Source(t, dst), d);
      var sum := body[0][src] * t.digits[0][dst] + body[1][src] * t.digits[1][dst] + body[2][src] * t.digits[2][dst];
      PartlyAt(q, d, 3, body, t, before, now, off, dst);
      assert acc[off + dst] + sum < U128;
      acc[off + dst] := acc[off + dst] + sum;
      PartlyStep(q, d, 3, body, t, before, now, off, dst, acc[off + dst]);
      assert acc[..] == now[off + dst := acc[off + dst]];
    }
    PartlyDone(q, d, 3, body, t, before, acc[..], off);
  }

  /** The inline path: slot outside, digits summed in a register. */
  method AccumulateInline(acc: array<int>, off: nat, q: int, d: nat, ell: nat, body: Rows, t: Step)
    requires RowsOk(q, d, ell, body) && StepOk(q, d, ell, t) && off + d <= acc.Length
    requires Room(q, d, ell, body, t, acc[..], off)
    modifies acc
    ensures Added(q, d, ell, body, t, old(acc[..]), acc[..], off)
  {
    hide *;
    ghost var before := acc[..];
    PartlyStart(q, d, ell, body, t, before, off);
    for dst := 0 to d
      invariant PartlyAdded(q, d, ell, body, t, before, acc[..], off, dst)
    {
      ghost var now := acc[..];
      SourceInside(q, d, ell, t, dst);
      RoomAt(q, d, ell, body, t, before, off, dst);
      var src := if t.table.Some? then t.table.value[dst] else dst;
      var sum := 0;
      SlotSumNil(q, d, ell, body, t, dst);
      for i := 0 to ell
        invariant acc[..] == now && sum == SlotSum(q, d, ell, body, t, dst, i)
      {
        SlotSumStep(q, d, ell, body, t, dst, i);
        SlotSumBound(q, d, ell, body, t, dst, i + 1, ell);
        sum := sum + body[i][src] * t.digits[i][dst];
        assert sum < U128;
      }
      PartlyAt(q, d, ell, body, t, before, now, off, dst);
      acc[off + dst] := acc[off + dst] + sum;
      PartlyStep(q, d, ell, body, t, before, now, off, dst, acc[off + dst]);
      assert acc[..] == now[off + dst := acc[off + dst]];
    }
    PartlyDone(q, d, ell, body, t, before, acc[..], off);
  }

  /** After n whole digits and the first m slots of the next one. */
  ghost predicate DigitsAdded(q: int, d: nat, ell: nat, body: Rows, t: Step, before: seq<int>, after: seq<int>, off: nat, n: nat, m: nat)
    requires RowsOk(q, d, ell, body) && StepOk(q, d, ell, t) && |before| == |after| && off + d <= |before|
    requires n <= ell && (m > 0 ==> n < ell)
  {
    && (forall i :: 0 <= i < off || off + d <= i < |before| ==> after[i] == before[i])
    && forall i :: off <= i < off + d ==>
         after[i] == before[i] + SlotSum(q, d, ell, body, t, i - off, if i < off + m then n + 1 else n)
  }

  lemma DigitsStart(q: int, d: nat, ell: nat, body: Rows, t: Step, before: seq<int>, off: nat)
    requires RowsOk(q, d, ell, body) && StepOk(q, d, ell, t) && off + d <= |before|
    ensures DigitsAdded(q, d, ell, body, t, before, before, off, 0, 0)
  {
    NoDigits(q, d, ell, body, t);
    hide SlotSum, RowsOk, StepOk;
  }

  lemma NoDigits(q: int, d: nat, ell: nat, body: Rows, t: Step)
    requires RowsOk(q, d, ell, body) && StepOk(q, d, ell, t)
    ensures forall s: nat :: s < d ==> SlotSum(q, d, ell, body, t, s, 0) == 0
  {
  }

  lemma DigitsStep(q: int, d: nat, ell: nat, body: Rows, t: Step, before: seq<int>, after: seq<int>, off: nat, n: nat, m: nat, x: int)
    requires RowsOk(q, d, ell, body) && StepOk(q, d, ell, t) && |before| == |after| && off + d <= |before|
    requires n < ell && m < d && DigitsAdded(q, d, ell, body, t, before, after, off, n, m)
    requires x == before[off + m] + SlotSum(q, d, ell, body, t, m, n + 1)
    ensures DigitsAdded(q, d, ell, body, t, before, after[off + m := x], off, n, m + 1)
  {
    hide SlotSum, RowsOk, StepOk;
  }

  lemma DigitsAt(q: int, d: nat, ell: nat, body: Rows, t: Step, before: seq<int>, after: seq<int>, off: nat, n: nat, m: nat)
    requires RowsOk(q, d, ell, body) && StepOk(q, d, ell, t) && |before| == |after| && off + d <= |before|
    requires n < ell && m < d && DigitsAdded(q, d, ell, body, t, before, after, off, n, m)
    ensures after[off + m] == before[off + m] + SlotSum(q, d, ell, body, t, m, n)
  {
    hide SlotSum, RowsOk, StepOk;
  }

  lemma DigitDone(q: int, d: nat, ell: nat, body: Rows, t: Step, before: seq<int>, after: seq<int>, off: nat, n: nat)
    requires RowsOk(q, d, ell, body) && StepOk(q, d, ell, t) && |before| == |after| && off + d <= |before|
    requires n < ell && DigitsAdded(q, d, ell, body, t, before, after, off, n, d)
    ensures DigitsAdded(q, d, ell, body, t, before, after, off, n + 1, 0)
  {
    hide SlotSum, RowsOk, StepOk;
  }

  lemma DigitsDone(q: int, d: nat, ell: nat, body: Rows, t: Step, before: seq<int>, after: seq<int>, off: nat)
    requires RowsOk(q, d, ell, body) && StepOk(q, d, ell, t) && |before| == |after| && off + d <= |before|
    requires DigitsAdded(q, d, ell, body, t, before, after, off, ell, 0)
    ensures Added(q, d, ell, body, t, before, after, off)
  {
    hide SlotSum, RowsOk, StepOk;
  }

  /** The digit-outer path: ell passes over the accumulator. */
  method AccumulateDigitOuter(acc: array<int>, off: nat, q: int, d: nat, ell: nat, body: Rows, t: Step)
    requires RowsOk(q, d, ell, body) && StepOk(q, d, ell, t) && off + d <= acc.Length
    requires Room(q, d, ell, body, t, acc[..], off)
    modifies acc
    ensures Added(q, d, ell, body, t, old(acc[..]), acc[..], off)
  {
    hide *;
    ghost var before := acc[..];
    DigitsStart(q, d, ell, body, t, before, off);
    for i := 0 to ell
      invariant DigitsAdded(q, d, ell, body, t, before, acc[..], off, i, 0)
    {
      for dst := 0 to d
        invariant DigitsAdded(q, d, ell, body, t, before, acc[..], off, i, dst)
      {
        ghost var now := acc[..];
        SourceInside(q, d, ell, t, dst);
        RoomAt(q, d, ell, body, t, before, off, dst);
        SlotSumStep(q, d, ell, body, t, dst, i);
        SlotSumBound(q, d, ell, body, t, dst, i + 1, ell);
        DigitsAt(q, d, ell, body, t, before, now, off, i, dst);
        var src := if t.table.Some? then t.table.value[dst] else dst;
        acc[off + dst] := acc[off + dst] + body[i][src] * t.digits[i][dst];
        assert acc[off + dst] < U128;
        DigitsStep(q, d, ell, body, t, before, now, off, i, dst, acc[off + dst]);
        assert acc[..] == now[off + dst := acc[off + dst]];
      }
      DigitDone(q, d, ell, body, t, before, acc[..], off, i);
    }
    DigitsDone(q, d, ell, body, t, before, acc[..], off);
  }

  /** accumulate_collapse_term: all three orders add the same slot sums. */
  method AccumulateTerm(acc: array<int>, off: nat, q: int, d: nat, ell: nat, body: Rows, t: Step)
    requires RowsOk(q, d, ell, body) && StepOk(q, d, ell, t) && off + d <= acc.Length && d > 0
    requires Room(q, d, ell, body, t, acc[..], off)
    modifies acc
    ensures Added(q, d, ell, body, t, old(acc[..]), acc[..], off)
  {
    hide *;
    if ell == 3 {
      AccumulateThree(acc, off, q, d, body, t);
    } else if ell > 8 {
      AccumulateDigitOuter(acc, off, q, d, ell, body, t);
    } else {
      AccumulateInline(acc, off, q, d, ell, body, t);
    }
  }

  // ----- a whole schedule -----

  /** Slot dst summed over steps lo .. lo + n. */
  function RangeSum(q: int, d: nat, ell: nat, steps: seq<Step>, b: Bodies, dst: nat, lo: nat, n: nat): (r: int)
    requires StepsOk(q, d, ell, steps) && BodiesOk(q, d, ell, b) && dst < d && lo + n <= |steps|
  {
    if n == 0 then 0
    else RangeSum(q, d, ell, steps, b, dst, lo, n - 1)
         + SlotSum(q, d, ell, BodyOf(b, steps[lo + n - 1]), steps[lo + n - 1], dst, ell)
  }

  lemma RangeSumNil(q: int, d: nat, ell: nat, steps: seq<Step>, b: Bodies, dst: nat, lo: nat)
    requires StepsOk(q, d, ell, steps) && BodiesOk(q, d, ell, b) && dst < d && lo <= |steps|
    ensures RangeSum(q, d, ell, steps, b, dst, lo, 0) == 0
  {
  }

  lemma StepAt(q: int, d: nat, ell: nat, steps: seq<Step>, b: Bodies, t: nat)
    requires StepsOk(q, d, ell, steps) && BodiesOk(q, d, ell, b) && t < |steps|
    ensures StepOk(q, d, ell, steps[t]) && RowsOk(q, d, ell, BodyOf(b, steps[t]))
  {
  }

  lemma RangeSumStep(q: int, d: nat, ell: nat, steps: seq<Step>, b: Bodies, dst: nat, lo: nat, n: nat)
    requires StepsOk(q, d, ell, steps) && BodiesOk(q, d, ell, b) && dst < d && lo + n < |steps|
    ensures StepOk(q, d, ell, steps[lo + n]) && RowsOk(q, d, ell, BodyOf(b, steps[lo + n]))
    ensures RangeSum(q, d, ell, steps, b, dst, lo, n + 1)
            == RangeSum(q, d, ell, steps, b, dst, lo, n)
               + SlotSum(q, d, ell, BodyOf(b, steps[lo + n]), steps[lo + n], dst, ell)
  {
  }

  /** Adjacent ranges add up: the order of reduction does not matter. */
  lemma {:induction false} RangeSumJoin(q: int, d: nat, ell: nat, steps: seq<Step>, b: Bodies, dst: nat, lo: nat, m: nat, n: nat)
    requires StepsOk(q, d, ell, steps) && BodiesOk(q, d, ell, b) && dst < d && lo + m + n <= |steps|
    ensures RangeSum(q, d, ell, steps, b, dst, lo, m + n)
            == RangeSum(q, d, ell, steps, b, dst, lo, m) + RangeSum(q, d, ell, steps, b, dst, lo + m, n)
  {
    hide *;
    if n == 0 {
      RangeSumNil(q, d, ell, steps, b, dst, lo + m);
    } else {
      RangeSumJoin(q, d, ell, steps, b, dst, lo, m, n - 1);
      RangeSumStep(q, d, ell, steps, b, dst, lo, m + n - 1);
      RangeSumStep(q, d, ell, steps, b, dst, lo + m, n - 1);
      assert lo + (m + n - 1) == lo + m + (n - 1);
    }
  }

  lemma {:induction false} RangeSumBound(q: int, d: nat, ell: nat, steps: seq<Step>, b: Bodies, dst: nat, lo: nat, n: nat)
    requires StepsOk(q, d, ell, steps) && BodiesOk(q, d, ell, b) && dst < d && lo + n <= |steps|
    ensures 0 <= RangeSum(q, d, ell, steps, b, dst, lo, n) <= n * (ell * ((q - 1) * (q - 1)))
  {
    hide *;
    if n == 0 {
      RangeSumNil(q, d, ell, steps, b, dst, lo);
    } else {
      var t := lo + n - 1;
      RangeSumBound(q, d, ell, steps, b, dst, lo, n - 1);
      RangeSumStep(q, d, ell, steps, b, dst, lo, n - 1);
      SlotSumBound(q, d, ell, BodyOf(b, steps[t]), steps[t], dst, 0, ell);
      SlotSumNil(q, d, ell, BodyOf(b, steps[t]), steps[t], dst);
      Distribute(n - 1, 1, ell * ((q - 1) * (q - 1)));
    }
  }

  /** fused_accumulator_fits: (d-1) ell products of at most (q-1)^2 stay below 2^128. */
  predicate FusedFits(q: int, d: nat, ell: nat) {
    d > 0 && (q - 1) * (q - 1) * ((d - 1) * ell) < U128
  }

  lemma FitsBound(q: int, d: nat, ell: nat, n: nat)
    requires FusedFits(q, d, ell) && n <= d - 1 && q > 0
    ensures n * (ell * ((q - 1) * (q - 1))) < U128
  {
    var p := (q - 1) * (q - 1);
    assert p >= 0;
    assert ell * p >= 0;
    assert n * (ell * p) <= (d - 1) * (ell * p);
    assert (d - 1) * (ell * p) == p * ((d - 1) * ell);
  }

  /** Whatever range of the d - 1 steps is summed, in whatever order, no sum reaches 2^128. */
  lemma NoOverflow(q: int, d: nat, ell: nat, steps: seq<Step>, b: Bodies, dst: nat, lo: nat, n: nat)
    requires StepsOk(q, d, ell, steps) && BodiesOk(q, d, ell, b) && dst < d && lo + n <= |steps| <= d - 1 && q > 0
    requires FusedFits(q, d, ell)
    ensures 0 <= RangeSum(q, d, ell, steps, b, dst, lo, n) < U128
  {
    hide *;
    RangeSumBound(q, d, ell, steps, b, dst, lo, n);
    FitsBound(q, d, ell, n);
  }

  // ----- full load: the check is exact -----

  function Full(q: int, d: nat, ell: nat): (r: Rows) {
    seq(ell, _ => seq(d, _ => q - 1))
  }

  function FullSteps(q: int, d: nat, ell: nat, n: nat): (r: seq<Step>)
    ensures |r| == n
  {
    seq(n, _ => Step(None, Full(q, d, ell), false))
  }

  lemma {:induction false} FullSlot(q: int, d: nat, ell: nat, t: Step, dst: nat, n: nat)
    requires q > 0 && dst < d && n <= ell && t == Step(None, Full(q, d, ell), false)
    ensures RowsOk(q, d, ell, Full(q, d, ell)) && StepOk(q, d, ell, t)
    ensures SlotSum(q, d, ell, Full(q, d, ell), t, dst, n) == n * ((q - 1) * (q - 1))
  {
    if n > 0 {
      FullSlot(q, d, ell, t, dst, n - 1);
      Distribute(n - 1, 1, (q - 1) * (q - 1));
    }
  }

  lemma {:induction false} FullLoad(q: int, d: nat, ell: nat, k: nat, dst: nat, n: nat)
    requires q > 0 && dst < d && n <= k
    ensures StepsOk(q, d, ell, FullSteps(q, d, ell, k)) && BodiesOk(q, d, ell, Bodies(Full(q, d, ell), Full(q, d, ell)))
    ensures RangeSum(q, d, ell, FullSteps(q, d, ell, k), Bodies(Full(q, d, ell), Full(q, d, ell)), dst, 0, n)
            == n * (ell * ((q - 1) * (q - 1)))
  {
    hide SlotSum;
    if n > 0 {
      FullLoad(q, d, ell, k, dst, n - 1);
      FullSlot(q, d, ell, FullSteps(q, d, ell, k)[n - 1], dst, ell);
      Distribute(n - 1, 1, ell * ((q - 1) * (q - 1)));
    }
  }

  /** With four terms or more the check leaves only moduli up to 2^63. */
  lemma GuardNarrows(q: int, d: nat, ell: nat)
    requires q > 0 && FusedFits(q, d, ell) && (d - 1) * ell >= 4
    ensures q <= HALF
  {
    if q > HALF {
      ProductOrder(HALF, q - 1, HALF);
      ProductOrder(HALF, q - 1, q - 1);
      Commute(q - 1, HALF);
      ProductOrder(4, (d - 1) * ell, (q - 1) * (q - 1));
      Commute((d - 1) * ell, (q - 1) * (q - 1));
    }
  }

  /** When the check fails, reduced operands exist whose fused sum does reach 2^128. */
  lemma FitsIsNeeded(q: int, d: nat, ell: nat)
    requires q > 0 && d > 0 && !FusedFits(q, d, ell)
    ensures var steps, b := FullSteps(q, d, ell, d - 1), Bodies(Full(q, d, ell), Full(q, d, ell));
            StepsOk(q, d, ell, steps) && BodiesOk(q, d, ell, b) && RangeSum(q, d, ell, steps, b, 0, 0, d - 1) >= U128
  {
    FullLoad(q, d, ell, d - 1, 0, d - 1);
    hide *;
    Regroup((q - 1) * (q - 1), d - 1, ell);
    NotFits(q, d, ell);
  }

  lemma Regroup(p: int, n: int, ell: int)
    ensures n * (ell * p) == p * (n * ell)
  {
    assert n * (ell * p) == (n * ell) * p;
  }

  lemma NotFits(q: int, d: nat, ell: nat)
    requires d > 0 && !FusedFits(q, d, ell)
    ensures (q - 1) * (q - 1) * ((d - 1) * ell) >= U128
  {
  }
}
