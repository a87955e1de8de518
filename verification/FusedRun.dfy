/** Running the fused collapse under any chunking, for a batch of queries, with the stepwise fallback
    (inspiring/src/preprocess.rs). */
module FusedRun {
  import opened Modular
  import opened MachineWords
  import opened Fused
  import opened Layout

  /** How a scheduler may split and join the steps: contiguous chunks, idle leaves, pairwise sums. */
  datatype Plan = Idle | Chunk(len: nat) | Join(left: Plan, right: Plan)

  function Span(p: Plan): (r: nat) {
    match p
    case Idle => 0
    case Chunk(n) => n
    case Join(l, r) => Span(l) + Span(r)
  }

  predicate BatchOk(q: int, d: nat, ell: nat, steps: seq<Step>, keys: seq<Bodies>) {
    && q > 0 && d > 0 && StepsOk(q, d, ell, steps)
    && forall i :: 0 <= i < |keys| ==> BodiesOk(q, d, ell, keys[i])
  }

  lemma BatchAt(q: int, d: nat, ell: nat, steps: seq<Step>, keys: seq<Bodies>, i: nat)
    requires BatchOk(q, d, ell, steps, keys) && i < |keys|
    ensures q > 0 && d > 0 && StepsOk(q, d, ell, steps) && BodiesOk(q, d, ell, keys[i])
  {
  }

  /** Query j's lanes hold n summed steps from lo, one more for the first m queries. */
  ghost predicate Holds(q: int, d: nat, ell: nat, steps: seq<Step>, keys: seq<Bodies>, acc: seq<int>, lo: nat, n: nat, m: nat)
    requires BatchOk(q, d, ell, steps, keys) && lo + n <= |steps| && (m > 0 ==> lo + n < |steps|)
  {
    && |acc| == |keys| * d
    && forall i, s :: 0 <= i < |keys| && 0 <= s < d ==>
         acc[Lane(|keys|, d, i, s)] == RangeSum(q, d, ell, steps, keys[i], s, lo, if i < m then n + 1 else n)
  }

  lemma HoldsAt(q: int, d: nat, ell: nat, steps: seq<Step>, keys: seq<Bodies>, acc: seq<int>, lo: nat, n: nat, m: nat, i: nat, s: nat)
    requires BatchOk(q, d, ell, steps, keys) && lo + n <= |steps| && (m > 0 ==> lo + n < |steps|)
    requires Holds(q, d, ell, steps, keys, acc, lo, n, m) && i < |keys| && s < d
    ensures |acc| == |keys| * d && BodiesOk(q, d, ell, keys[i])
    ensures acc[Lane(|keys|, d, i, s)] == RangeSum(q, d, ell, steps, keys[i], s, lo, if i < m then n + 1 else n)
  {
  }

  lemma HoldsFrom(q: int, d: nat, ell: nat, steps: seq<Step>, keys: seq<Bodies>, acc: seq<int>, lo: nat, n: nat, m: nat)
    requires BatchOk(q, d, ell, steps, keys) && lo + n <= |steps| && (m > 0 ==> lo + n < |steps|)
    requires |acc| == |keys| * d
    requires forall i, s :: 0 <= i < |keys| && 0 <= s < d ==>
               acc[Lane(|keys|, d, i, s)] == RangeSum(q, d, ell, steps, keys[i], s, lo, if i < m then n + 1 else n)
    ensures Holds(q, d, ell, steps, keys, acc, lo, n, m)
  {
  }

  lemma HoldsWhole(q: int, d: nat, ell: nat, steps: seq<Step>, keys: seq<Bodies>, acc: seq<int>, lo: nat, n: nat)
    requires BatchOk(q, d, ell, steps, keys) && lo + n <= |steps| && |acc| == |keys| * d
    requires forall i, s :: 0 <= i < |keys| && 0 <= s < d ==>
               acc[Lane(|keys|, d, i, s)] == RangeSum(q, d, ell, steps, keys[i], s, lo, n)
    ensures Holds(q, d, ell, steps, keys, acc, lo, n, 0)
  {
    hide RangeSum, StepsOk, BodiesOk;
  }

  lemma HoldsZero(q: int, d: nat, ell: nat, steps: seq<Step>, keys: seq<Bodies>, acc: seq<int>, lo: nat)
    requires BatchOk(q, d, ell, steps, keys) && lo <= |steps| && |acc| == |keys| * d
    requires forall x :: 0 <= x < |acc| ==> acc[x] == 0
    ensures Holds(q, d, ell, steps, keys, acc, lo, 0, 0)
  {
    hide *;
    BatchSizes(q, d, ell, steps, keys);
    forall i, s | 0 <= i < |keys| && 0 <= s < d
      ensures acc[Lane(|keys|, d, i, s)] == RangeSum(q, d, ell, steps, keys[i], s, lo, 0)
    {
      RangeSumNil(q, d, ell, steps, keys[i], s, lo);
    }
    HoldsWhole(q, d, ell, steps, keys, acc, lo, 0);
  }

  lemma HoldsNext(q: int, d: nat, ell: nat, steps: seq<Step>, keys: seq<Bodies>, acc: seq<int>, lo: nat, n: nat)
    requires BatchOk(q, d, ell, steps, keys) && lo + n < |steps| && Holds(q, d, ell, steps, keys, acc, lo, n, |keys|)
    ensures Holds(q, d, ell, steps, keys, acc, lo, n + 1, 0)
  {
    hide *;
    HoldsSize(q, d, ell, steps, keys, acc, lo, n, |keys|);
    forall i, s | 0 <= i < |keys| && 0 <= s < d
      ensures acc[Lane(|keys|, d, i, s)] == RangeSum(q, d, ell, steps, keys[i], s, lo, n + 1)
    {
      HoldsAt(q, d, ell, steps, keys, acc, lo, n, |keys|, i, s);
    }
    HoldsWhole(q, d, ell, steps, keys, acc, lo, n + 1);
  }

  lemma HoldsSize(q: int, d: nat, ell: nat, steps: seq<Step>, keys: seq<Bodies>, acc: seq<int>, lo: nat, n: nat, m: nat)
    requires BatchOk(q, d, ell, steps, keys) && lo + n <= |steps| && (m > 0 ==> lo + n < |steps|)
    requires Holds(q, d, ell, steps, keys, acc, lo, n, m)
    ensures |acc| == |keys| * d && q > 0 && d > 0 && StepsOk(q, d, ell, steps)
    ensures forall i :: 0 <= i < |keys| ==> BodiesOk(q, d, ell, keys[i])
  {
  }

  /** There is room for query i's next term. */
  lemma RoomForTerm(q: int, d: nat, ell: nat, steps: seq<Step>, keys: seq<Bodies>, acc: seq<int>, lo: nat, n: nat, i: nat)
    requires BatchOk(q, d, ell, steps, keys) && lo + n < |steps| <= d - 1 && FusedFits(q, d, ell)
    requires Holds(q, d, ell, steps, keys, acc, lo, n, i) && i < |keys|
    ensures StepOk(q, d, ell, steps[lo + n]) && RowsOk(q, d, ell, BodyOf(keys[i], steps[lo + n]))
    ensures Lane(|keys|, d, i, 0) + d <= |acc|
    ensures Room(q, d, ell, BodyOf(keys[i], steps[lo + n]), steps[lo + n], acc, Lane(|keys|, d, i, 0))
  {
    hide *;
    BatchAt(q, d, ell, steps, keys, i);
    StepAt(q, d, ell, steps, keys[i], lo + n);
    HoldsSize(q, d, ell, steps, keys, acc, lo, n, i);
    var off, body, t := Lane(|keys|, d, i, 0), BodyOf(keys[i], steps[lo + n]), steps[lo + n];
    LaneApart(|keys|, d, i, i, 0);
    forall x | off <= x < off + d
      ensures 0 <= acc[x] && acc[x] + SlotSum(q, d, ell, body, t, x - off, ell) < U128
    {
      var s := x - off;
      LaneApart(|keys|, d, i, i, s);
      HoldsAt(q, d, ell, steps, keys, acc, lo, n, i, i, s);
      RangeSumStep(q, d, ell, steps, keys[i], s, lo, n);
      NoOverflow(q, d, ell, steps, keys[i], s, lo, n);
      NoOverflow(q, d, ell, steps, keys[i], s, lo, n + 1);
    }
    RoomFrom(q, d, ell, body, t, acc, off);
  }

  lemma RoomFrom(q: int, d: nat, ell: nat, body: Rows, t: Step, acc: seq<int>, off: nat)
    requires RowsOk(q, d, ell, body) && StepOk(q, d, ell, t) && off + d <= |acc|
    requires forall x :: off <= x < off + d ==> 0 <= acc[x] && acc[x] + SlotSum(q, d, ell, body, t, x - off, ell) < U128
    ensures Room(q, d, ell, body, t, acc, off)
  {
    hide SlotSum, RowsOk, StepOk;
  }

  lemma AddedAt(q: int, d: nat, ell: nat, body: Rows, t: Step, before: seq<int>, after: seq<int>, off: nat, x: nat)
    requires RowsOk(q, d, ell, body) && StepOk(q, d, ell, t) && |before| == |after| && off + d <= |before| && x < |before|
    requires Added(q, d, ell, body, t, before, after, off)
    ensures after[x] == before[x] + if off <= x < off + d then SlotSum(q, d, ell, body, t, x - off, ell) else 0
  {
    hide SlotSum, RowsOk, StepOk;
  }

  /** Adding query i's term moves query i forward and no other query. */
  lemma TermAdded(q: int, d: nat, ell: nat, steps: seq<Step>, keys: seq<Bodies>, before: seq<int>, after: seq<int>, lo: nat, n: nat, i: nat)
    requires BatchOk(q, d, ell, steps, keys) && lo + n < |steps| && i < |keys|
    requires Holds(q, d, ell, steps, keys, before, lo, n, i) && |after| == |before|
    requires StepOk(q, d, ell, steps[lo + n]) && RowsOk(q, d, ell, BodyOf(keys[i], steps[lo + n]))
    requires Lane(|keys|, d, i, 0) + d <= |before|
    requires Added(q, d, ell, BodyOf(keys[i], steps[lo + n]), steps[lo + n], before, after, Lane(|keys|, d, i, 0))
    ensures Holds(q, d, ell, steps, keys, after, lo, n, i + 1)
  {
    hide *;
    HoldsSize(q, d, ell, steps, keys, before, lo, n, i);
    var off, body, t := Lane(|keys|, d, i, 0), BodyOf(keys[i], steps[lo + n]), steps[lo + n];
    forall j, s | 0 <= j < |keys| && 0 <= s < d
      ensures after[Lane(|keys|, d, j, s)] == RangeSum(q, d, ell, steps, keys[j], s, lo, if j < i + 1 then n + 1 else n)
    {
      LaneApart(|keys|, d, i, j, s);
      HoldsAt(q, d, ell, steps, keys, before, lo, n, i, j, s);
      AddedAt(q, d, ell, body, t, before, after, off, Lane(|keys|, d, j, s));
      RangeSumStep(q, d, ell, steps, keys[j], s, lo, n);
    }
    HoldsFrom(q, d, ell, steps, keys, after, lo, n, i + 1);
  }

  /** One task: its chunk of steps, every query in turn, into a private zeroed accumulator. */
  method RunChunk(q: int, d: nat, ell: nat, steps: seq<Step>, keys: seq<Bodies>, lo: nat, len: nat) returns (acc: array<int>)
    requires BatchOk(q, d, ell, steps, keys) && lo + len <= |steps| <= d - 1 && FusedFits(q, d, ell)
    ensures fresh(acc) && Holds(q, d, ell, steps, keys, acc[..], lo, len, 0)
  {
    hide *;
    BatchSizes(q, d, ell, steps, keys);
    var k := |keys|;
    acc := new int[k * d](_ => 0);
    HoldsZero(q, d, ell, steps, keys, acc[..], lo);
    for n := 0 to len
      invariant Holds(q, d, ell, steps, keys, acc[..], lo, n, 0)
    {
      for i := 0 to k
        invariant Holds(q, d, ell, steps, keys, acc[..], lo, n, i)
      {
        ghost var before := acc[..];
        RoomForTerm(q, d, ell, steps, keys, before, lo, n, i);
        var t := steps[lo + n];
        AccumulateTerm(acc, Lane(k, d, i, 0), q, d, ell, BodyOf(keys[i], t), t);
        TermAdded(q, d, ell, steps, keys, before, acc[..], lo, n, i);
      }
      HoldsNext(q, d, ell, steps, keys, acc[..], lo, n);
    }
  }

  lemma BatchSizes(q: int, d: nat, ell: nat, steps: seq<Step>, keys: seq<Bodies>)
    requires BatchOk(q, d, ell, steps, keys)
    ensures q > 0 && d > 0 && StepsOk(q, d, ell, steps)
    ensures forall i :: 0 <= i < |keys| ==> BodiesOk(q, d, ell, keys[i])
  {
  }

  lemma JoinedHolds(q: int, d: nat, ell: nat, steps: seq<Step>, keys: seq<Bodies>, x: seq<int>, y: seq<int>, z: seq<int>,
                    lo: nat, m: nat, n: nat)
    requires BatchOk(q, d, ell, steps, keys) && lo + m + n <= |steps| <= d - 1 && FusedFits(q, d, ell)
    requires Holds(q, d, ell, steps, keys, x, lo, m, 0) && Holds(q, d, ell, steps, keys, y, lo + m, n, 0)
    requires |x| == |y| == |z| && forall i :: 0 <= i < |z| ==> z[i] == x[i] + y[i]
    ensures Holds(q, d, ell, steps, keys, z, lo, m + n, 0)
  {
    hide *;
    HoldsSize(q, d, ell, steps, keys, x, lo, m, 0);
    forall i, s | 0 <= i < |keys| && 0 <= s < d
      ensures z[Lane(|keys|, d, i, s)] == RangeSum(q, d, ell, steps, keys[i], s, lo, m + n)
    {
      HoldsAt(q, d, ell, steps, keys, x, lo, m, 0, i, s);
      HoldsAt(q, d, ell, steps, keys, y, lo + m, n, 0, i, s);
      RangeSumJoin(q, d, ell, steps, keys[i], s, lo, m, n);
    }
    HoldsWhole(q, d, ell, steps, keys, z, lo, m + n);
  }

  lemma JoinFits(q: int, d: nat, ell: nat, steps: seq<Step>, keys: seq<Bodies>, x: seq<int>, y: seq<int>, lo: nat, m: nat, n: nat, e: nat)
    requires BatchOk(q, d, ell, steps, keys) && lo + m + n <= |steps| <= d - 1 && FusedFits(q, d, ell)
    requires Holds(q, d, ell, steps, keys, x, lo, m, 0) && Holds(q, d, ell, steps, keys, y, lo + m, n, 0)
    requires |x| == |y| && e < |x|
    ensures x[e] + y[e] < U128
  {
    hide *;
    HoldsSize(q, d, ell, steps, keys, x, lo, m, 0);
    var i, s := LaneOf(|keys|, d, e);
    HoldsAt(q, d, ell, steps, keys, x, lo, m, 0, i, s);
    HoldsAt(q, d, ell, steps, keys, y, lo + m, n, 0, i, s);
    RangeSumJoin(q, d, ell, steps, keys[i], s, lo, m, n);
    NoOverflow(q, d, ell, steps, keys[i], s, lo, m + n);
  }

  /** Any plan gives the same sums, and no addition overflows on the way. */
  method RunPlan(q: int, d: nat, ell: nat, steps: seq<Step>, keys: seq<Bodies>, plan: Plan, lo: nat) returns (acc: array<int>)
    requires BatchOk(q, d, ell, steps, keys) && lo + Span(plan) <= |steps| <= d - 1 && FusedFits(q, d, ell)
    ensures fresh(acc) && Holds(q, d, ell, steps, keys, acc[..], lo, Span(plan), 0)
    decreases plan
  {
    hide *;
    SpanParts(plan);
    match plan
    case Idle =>
      acc := RunChunk(q, d, ell, steps, keys, lo, 0);
    case Chunk(n) =>
      acc := RunChunk(q, d, ell, steps, keys, lo, n);
    case Join(l, r) =>
      acc := RunPlan(q, d, ell, steps, keys, l, lo);
      var rhs := RunPlan(q, d, ell, steps, keys, r, lo + Span(l));
      ghost var x, y := acc[..], rhs[..];
      HoldsSize(q, d, ell, steps, keys, x, lo, Span(l), 0);
      HoldsSize(q, d, ell, steps, keys, y, lo + Span(l), Span(r), 0);
      for e := 0 to acc.Length
        invariant rhs[..] == y
        invariant forall i :: 0 <= i < e ==> acc[i] == x[i] + y[i]
        invariant forall i :: e <= i < acc.Length ==> acc[i] == x[i]
      {
        JoinFits(q, d, ell, steps, keys, x, y, lo, Span(l), Span(r), e);
        assert rhs[e] == y[e];
        acc[e] := acc[e] + rhs[e];
        assert acc[e] < U128;
      }
      JoinedHolds(q, d, ell, steps, keys, x, y, acc[..], lo, Span(l), Span(r));
  }

  lemma SpanParts(p: Plan)
    ensures p.Idle? ==> Span(p) == 0
    ensures p.Chunk? ==> Span(p) == p.len
    ensures p.Join? ==> Span(p) == Span(p.left) + Span(p.right)
  {
  }

  // ----- results -----

  predicate ValuesOk(q: int, d: nat, b: seq<int>) {
    |b| == d && forall s :: 0 <= s < d ==> 0 <= b[s] < q
  }

  /** b plus every step's product, reduced once at the end. */
  function Collapsed(q: int, d: nat, ell: nat, steps: seq<Step>, key: Bodies, b: seq<int>): (r: seq<int>)
    requires q > 0 && StepsOk(q, d, ell, steps) && BodiesOk(q, d, ell, key) && |b| == d
    ensures |r| == d
    ensures forall s :: 0 <= s < d ==> r[s] == (b[s] + RangeSum(q, d, ell, steps, key, s, 0, |steps|)) % q
  {
    seq(d, s requires 0 <= s < d => (b[s] + RangeSum(q, d, ell, steps, key, s, 0, |steps|)) % q)
  }

  lemma ReduceOnce(x: int, acc: int, q: int)
    requires 0 <= x < q <= HALF
    ensures 0 <= acc % q < q < WORD && WordSum(x, acc % q, q) == (x + acc) % q
  {
    DivMod(acc, q);
    ModAdd(x, acc, q);
    ModSmall(x, q);
  }

  /** The fused path: any plan, one reduction and one 64-bit sum per slot, each query its own lanes. */
  method CollapseFused(q: int, d: nat, ell: nat, steps: seq<Step>, keys: seq<Bodies>, bs: seq<seq<int>>, plan: Plan)
    returns (outs: seq<seq<int>>)
    requires BatchOk(q, d, ell, steps, keys) && q < WORD && |steps| == d - 1 == Span(plan) && FusedFits(q, d, ell)
    requires |bs| == |keys| && forall i :: 0 <= i < |bs| ==> ValuesOk(q, d, bs[i])
    ensures |outs| == |keys| && q > 0 && StepsOk(q, d, ell, steps)
    ensures forall i :: 0 <= i < |keys| ==> BodiesOk(q, d, ell, keys[i]) && |bs[i]| == d
    ensures forall i :: 0 <= i < |keys| ==> |outs[i]| == d
    ensures q <= HALF ==> forall i :: 0 <= i < |keys| ==> outs[i] == Collapsed(q, d, ell, steps, keys[i], bs[i])
  {
    hide *;
    BatchSizes(q, d, ell, steps, keys);
    var k := |keys|;
    var partials := RunPlan(q, d, ell, steps, keys, plan, 0);
    ghost var total := partials[..];
    HoldsSize(q, d, ell, steps, keys, total, 0, d - 1, 0);
    outs := [];
    for i := 0 to k
      invariant |outs| == i && partials[..] == total
      invariant forall j :: 0 <= j < i ==> |bs[j]| == |outs[j]| == d
      invariant q <= HALF ==> forall j :: 0 <= j < i ==> outs[j] == Collapsed(q, d, ell, steps, keys[j], bs[j])
    {
      ValueRange(q, d, bs[i]);
      var out := new int[d](_ => 0);
      ghost var want := Collapsed(q, d, ell, steps, keys[i], bs[i]);
      for lane := 0 to d
        invariant partials[..] == total
        invariant q <= HALF ==> forall s :: 0 <= s < lane ==> out[s] == want[s]
      {
        HoldsAt(q, d, ell, steps, keys, total, 0, d - 1, 0, i, lane);
        var acc := partials[Lane(k, d, i, lane)];
        assert acc == total[Lane(k, d, i, lane)];
        if q <= HALF {
          ReduceOnce(bs[i][lane], acc, q);
        }
        DivMod(acc, q);
        out[lane] := WordSum(bs[i][lane], acc % q, q);
      }
      assert q <= HALF ==> out[..] == want;
      outs := outs + [out[..]];
    }
  }

  lemma ValueRange(q: int, d: nat, b: seq<int>)
    requires ValuesOk(q, d, b)
    ensures |b| == d && forall s :: 0 <= s < d ==> 0 <= b[s] < q
  {
  }

  // ----- the stepwise fallback -----

  lemma ReduceEarly(acc: int, sum: int, p: int, q: int)
    requires q > 0 && acc % q == sum % q
    ensures ((acc + p) % q) % q == (sum + p) % q && (acc + p) % q == (sum + p) % q
  {
    ModSum(acc, sum, p, p, q);
    ModAdd(acc + p, 0, q);
  }

  /** multiply_permuted_body_by_digits: reduces at the end, or after every product when that could overflow. */
  method MultiplyPermuted(q: int, d: nat, ell: nat, body: Rows, t: Step) returns (out: array<int>)
    requires 0 < q < WORD && RowsOk(q, d, ell, body) && StepOk(q, d, ell, t)
    ensures fresh(out) && out.Length == d
    ensures forall s :: 0 <= s < d ==> out[s] == SlotSum(q, d, ell, body, t, s, ell) % q
  {
    hide *;
    var once := (q - 1) * (q - 1) * ell < U128;
    out := new int[d];
    for dst := 0 to d
      invariant forall s :: 0 <= s < dst ==> out[s] == SlotSum(q, d, ell, body, t, s, ell) % q
    {
      SourceInside(q, d, ell, t, dst);
      var src := if t.table.Some? then t.table.value[dst] else dst;
      var acc := 0;
      SlotSumNil(q, d, ell, body, t, dst);
      for i := 0 to ell
        invariant forall s :: 0 <= s < dst ==> out[s] == SlotSum(q, d, ell, body, t, s, ell) % q
        invariant once ==> acc == SlotSum(q, d, ell, body, t, dst, i)
        invariant !once ==> 0 <= acc < q
        invariant acc % q == SlotSum(q, d, ell, body, t, dst, i) % q
      {
        SlotSumStep(q, d, ell, body, t, dst, i);
        SlotSumBound(q, d, ell, body, t, dst, i + 1, ell);
        OnceBound(q, ell, SlotSum(q, d, ell, body, t, dst, ell));
        var product := body[i][src] * t.digits[i][dst];
        ReduceEarly(acc, SlotSum(q, d, ell, body, t, dst, i), product, q);
        if once {
          acc := acc + product;
          assert acc < U128;
        } else {
          FactorRange(q, d, ell, body, t, dst, src, i);
          StepFits(acc, body[i][src], t.digits[i][dst], q);
          assert acc + product < U128;
          DivMod(acc + product, q);
          acc := (acc + product) % q;
        }
      }
      out[dst] := acc % q;
    }
  }

  lemma FactorRange(q: int, d: nat, ell: nat, body: Rows, t: Step, dst: nat, src: nat, i: nat)
    requires RowsOk(q, d, ell, body) && StepOk(q, d, ell, t) && dst < d && src < d && i < ell
    ensures 0 <= body[i][src] < q && 0 <= t.digits[i][dst] < q
  {
  }

  lemma OnceBound(q: int, ell: nat, x: int)
    requires x <= ell * ((q - 1) * (q - 1))
    ensures (q - 1) * (q - 1) * ell < U128 ==> x < U128
  {
    assert ell * ((q - 1) * (q - 1)) == (q - 1) * (q - 1) * ell;
  }

  /** b plus the first n steps, reduced. */
  function Running(q: int, b: int, sum: int): (r: int)
    requires q > 0
  {
    (b + sum) % q
  }

  lemma RunningStart(q: int, b: int)
    requires 0 <= b < q
    ensures Running(q, b, 0) == b
  {
    ModSmall(b, q);
  }

  /** collapse_uploaded_body_b_stepwise: one product and one reduced addition per step. */
  method CollapseStepwise(q: int, d: nat, ell: nat, steps: seq<Step>, key: Bodies, b: seq<int>) returns (out: seq<int>)
    requires 0 < q < WORD && StepsOk(q, d, ell, steps) && BodiesOk(q, d, ell, key) && ValuesOk(q, d, b)
    ensures |b| == |out| == d && out == Collapsed(q, d, ell, steps, key, b)
  {
    hide *;
    ValueRange(q, d, b);
    out := b;
    forall s | 0 <= s < d
      ensures out[s] == Running(q, b[s], RangeSum(q, d, ell, steps, key, s, 0, 0))
    {
      RangeSumNil(q, d, ell, steps, key, s, 0);
      RunningStart(q, b[s]);
    }
    for n := 0 to |steps|
      invariant |out| == d
      invariant forall s :: 0 <= s < d ==> out[s] == Running(q, b[s], RangeSum(q, d, ell, steps, key, s, 0, n))
    {
      StepAt(q, d, ell, steps, key, n);
      var next := MultiplyPermuted(q, d, ell, BodyOf(key, steps[n]), steps[n]);
      ghost var before, product := out, next[..];
      out := AddInto(q, next[..], out);
      forall s | 0 <= s < d
        ensures out[s] == Running(q, b[s], RangeSum(q, d, ell, steps, key, s, 0, n + 1))
      {
        RangeSumStep(q, d, ell, steps, key, s, 0, n);
        assert product[s] == next[s];
        StepReduced(b[s], RangeSum(q, d, ell, steps, key, s, 0, n),
                    SlotSum(q, d, ell, BodyOf(key, steps[n]), steps[n], s, ell), product[s], before[s], q);
      }
    }
    ghost var want := Collapsed(q, d, ell, steps, key, b);
    forall s | 0 <= s < d
      ensures out[s] == want[s]
    {
      RunningIs(q, b[s], RangeSum(q, d, ell, steps, key, s, 0, |steps|));
    }
  }

  lemma RunningIs(q: int, b: int, sum: int)
    requires q > 0
    ensures Running(q, b, sum) == (b + sum) % q
  {
  }

  method AddInto(q: int, x: seq<int>, y: seq<int>) returns (r: seq<int>)
    requires q > 0 && |x| == |y|
    ensures |r| == |x| && forall s :: 0 <= s < |r| ==> r[s] == (x[s] + y[s]) % q
  {
    var sum := new int[|x|];
    for s := 0 to |x|
      invariant forall i :: 0 <= i < s ==> sum[i] == (x[i] + y[i]) % q
    {
      sum[s] := (x[s] + y[s]) % q;
    }
    r := sum[..];
  }

  lemma StepReduced(b: int, sum: int, p: int, x: int, y: int, q: int)
    requires q > 0 && x == p % q && y == Running(q, b, sum)
    ensures (x + y) % q == Running(q, b, sum + p)
  {
    var c := b + sum;
    ModAdd(p, c, q);
    assert p + c == b + (sum + p);
  }

  /** collapse_uploaded_body_b_batched: fused when the accumulator fits, stepwise otherwise, the same values either way
      and query by query.  With four terms or more the check itself keeps the lane sums within 64 bits. */
  method CollapseBatched(q: int, d: nat, ell: nat, steps: seq<Step>, keys: seq<Bodies>, bs: seq<seq<int>>, plan: Plan)
    returns (outs: seq<seq<int>>)
    requires BatchOk(q, d, ell, steps, keys) && q < WORD && |steps| == d - 1 == Span(plan)
    requires |bs| == |keys| && forall i :: 0 <= i < |bs| ==> ValuesOk(q, d, bs[i])
    ensures |outs| == |keys| && q > 0 && StepsOk(q, d, ell, steps)
    ensures forall i :: 0 <= i < |keys| ==> BodiesOk(q, d, ell, keys[i]) && |bs[i]| == d
    ensures forall i :: 0 <= i < |keys| ==> |outs[i]| == d
    ensures q <= HALF || (d - 1) * ell >= 4 ==> forall i :: 0 <= i < |keys| ==> outs[i] == Collapsed(q, d, ell, steps, keys[i], bs[i])
  {
    hide *;
    BatchSizes(q, d, ell, steps, keys);
    if FusedFits(q, d, ell) {
      if (d - 1) * ell >= 4 {
        GuardNarrows(q, d, ell);
      }
      outs := CollapseFused(q, d, ell, steps, keys, bs, plan);
      return;
    }
    outs := [];
    for i := 0 to |keys|
      invariant |outs| == i
      invariant forall j :: 0 <= j < i ==> BodiesOk(q, d, ell, keys[j]) && |bs[j]| == |outs[j]| == d
      invariant forall j :: 0 <= j < i ==> outs[j] == Collapsed(q, d, ell, steps, keys[j], bs[j])
    {
      BatchAt(q, d, ell, steps, keys, i);
      var out := CollapseStepwise(q, d, ell, steps, keys[i], bs[i]);
      outs := outs + [out];
    }
  }
}
