/** Exact widths of the 64-bit sums and casts: for which moduli the machine arithmetic is the modular one
    (ipir-sp/src/client.rs, ipir-sp/src/modulus_switch.rs, inspiring/src/preprocess.rs). */
module Widths {
  import opened Wrappers
  import opened Modular
  import opened MachineWords
  import opened Ring
  import opened RingLaws
  import opened Galois
  import opened Params
  import opened SimplePir
  import opened Rounding
  import A = AggregateNtt
  import Ntt
  import F = Fused

  predicate Residues(x: int, y: int, q: int) {
    0 <= x < q && 0 <= y < q
  }

  // ----- sums of two residues -----

  /** add_mod is the modular sum for every pair of residues, and its 64-bit sum never overflows, exactly up to 2^63. */
  lemma AddModExact(q: int)
    requires 0 < q < WORD
    ensures q <= HALF <==> forall x, y :: Residues(x, y, q) ==> x + y < WORD
    ensures q <= HALF <==> forall x, y :: Residues(x, y, q) ==> AddMod(x, y, q) == (x + y) % q
  {
    if q > HALF {
      assert Residues(q - 1, q - 1, q) && (q - 1) + (q - 1) >= WORD;
    }
  }

  /** A query entry is Delta times the selector plus error minus mask, for all of them, exactly when the largest sum
      Delta + (q - 1) is a word. */
  lemma EntryExact(q: int, delta: int)
    requires 0 <= delta < q < WORD
    ensures delta + q <= WORD <==> forall hit, err, inner :: Residues(err, inner, q) ==>
                                     EntryWord(q, delta, hit, err, inner) == Entry(q, delta, hit, err, inner)
  {
    hide EntryWord, Entry;
    if delta + q <= WORD {
      forall hit, err, inner | Residues(err, inner, q)
        ensures EntryWord(q, delta, hit, err, inner) == Entry(q, delta, hit, err, inner)
      {
        EntryIs(q, delta, hit, err, inner);
      }
    } else {
      EntryWraps(q, delta);
      assert Residues(q - 1, 0, q);
    }
  }

  lemma EntryWraps(q: int, delta: int)
    requires 0 <= delta < q < WORD < delta + q
    ensures EntryWord(q, delta, true, q - 1, 0) != Entry(q, delta, true, q - 1, 0)
  {
    var sum := AddMod(delta, q - 1, q);
    ModSmall(sum, q);
  }

  /** (x + y) % q on machine words, as aggregate, trace and the matrix sums write it. */
  lemma RemainderSumExact(q: int)
    requires 0 < q < WORD
    ensures q <= HALF <==> forall x, y :: Residues(x, y, q) ==> ReducedSum(x, y, q) == (x + y) % q
  {
    if q <= HALF {
      forall x, y | Residues(x, y, q)
        ensures ReducedSum(x, y, q) == (x + y) % q
      {
        ReducedSumIs(x, y, q);
      }
    } else {
      var x := q - 1;
      WordSumParts(x, x, q);
      ModSmall(x + x - WORD, q);
      assert Residues(x, x, q);
    }
  }

  // ----- add_shifted_tau -----

  /** The buffer before coefficient i is scattered, and the sum formed there. */
  function ScatterSum(q: int, out: Poly, poly: Poly, t: int, shift: nat, i: nat): (r: int)
    requires q > 0 && |out| == |poly| && i < |poly|
  {
    var d := |poly|;
    var x := Add(q, out, Comb(q, d, poly, A.Monomials(q, d, t, shift), i));
    x[SlotOf(d, i * t + shift)] + A.Term(q, poly[i], SignOf(d, i * t + shift))
  }

  /** Operands add_shifted_tau may be called with. */
  predicate Scatters(q: int, d: nat, out: Poly, poly: Poly, shift: nat, i: nat) {
    Elem(q, d, out) && Elem(q, d, poly) && shift < d && i < d && poly[i] != 0
  }

  /** No sum of add_shifted_tau overflows, whatever the buffer, the polynomial, the exponent and the shift, exactly up to 2^63. */
  lemma ShiftedTauExact(q: int, d: nat)
    requires 1 < q < WORD && d > 0
    ensures q <= HALF <==> forall out: Poly, poly: Poly, t: int, shift: nat, i: nat ::
                             Scatters(q, d, out, poly, shift, i) ==> ScatterSum(q, out, poly, t, shift, i) < WORD
  {
    hide Comb, A.Monomials;
    if q <= HALF {
      forall out: Poly, poly: Poly, t: int, shift: nat, i: nat | Scatters(q, d, out, poly, shift, i)
        ensures ScatterSum(q, out, poly, t, shift, i) < WORD
      {
        CanonAt(q, poly, i);
        CanonAt(q, Add(q, out, Comb(q, d, poly, A.Monomials(q, d, t, shift), i)), SlotOf(d, i * t + shift));
      }
    } else {
      ScatterWraps(q, d);
    }
  }

  /** The all-largest buffer and polynomial, unshifted: the first sum is 2 (q - 1). */
  lemma ScatterWraps(q: int, d: nat)
    requires HALF < q < WORD && d > 0
    ensures var p: Poly := seq(d, _ => q - 1);
            Scatters(q, d, p, p, 0, 0) && ScatterSum(q, p, p, 1, 0, 0) >= WORD
  {
    var p: Poly := seq(d, _ => q - 1);
    CombNil(q, d, p, A.Monomials(q, d, 1, 0));
    AddZero(q, p);
    FirstSlot(d);
  }

  lemma FirstSlot(d: nat)
    requires d > 0
    ensures SlotOf(d, 0 * 1 + 0) == 0 && SignOf(d, 0 * 1 + 0) == 1
  {
    ModSmall(0, 2 * d);
  }

  // ----- the final lane sum of collapse_terms -----

  /** Row 0 constantly c, every other row zero. */
  function OneRow(d: nat, ell: nat, c: int): (r: F.Rows)
    ensures |r| == ell && forall i :: 0 <= i < ell ==> |r[i]| == d && forall s :: 0 <= s < d ==> r[i][s] == if i == 0 then c else 0
  {
    seq(ell, i => seq(d, _ => if i == 0 then c else 0))
  }

  /** The first step carries digit c, every later one digit zero. */
  function LoneSteps(d: nat, ell: nat, c: int, n: nat): (r: seq<F.Step>)
    ensures |r| == n && forall t :: 0 <= t < n ==> r[t] == F.Step(None, OneRow(d, ell, if t == 0 then c else 0), true)
  {
    seq(n, t => F.Step(None, OneRow(d, ell, if t == 0 then c else 0), true))
  }

  lemma OneRowOk(q: int, d: nat, ell: nat, c: int)
    requires 0 <= c < q
    ensures F.RowsOk(q, d, ell, OneRow(d, ell, c))
  {
  }

  lemma LoneStepOk(q: int, d: nat, ell: nat, c: int)
    requires 0 <= c < q
    ensures F.StepOk(q, d, ell, F.Step(None, OneRow(d, ell, c), true))
  {
    OneRowOk(q, d, ell, c);
  }

  lemma {:induction false} LoneSlot(q: int, d: nat, ell: nat, c: int, dst: nat, n: nat)
    requires 1 < q && 0 <= c < q && dst < d && n <= ell
    ensures F.RowsOk(q, d, ell, OneRow(d, ell, 1)) && F.StepOk(q, d, ell, F.Step(None, OneRow(d, ell, c), true))
    ensures F.SlotSum(q, d, ell, OneRow(d, ell, 1), F.Step(None, OneRow(d, ell, c), true), dst, n) == if n == 0 then 0 else c
  {
    OneRowOk(q, d, ell, 1);
    LoneStepOk(q, d, ell, c);
    if n > 0 {
      LoneSlot(q, d, ell, c, dst, n - 1);
    }
  }

  lemma LoneStepsOk(q: int, d: nat, ell: nat, c: int, k: nat)
    requires 1 < q && 0 <= c < q
    ensures F.StepsOk(q, d, ell, LoneSteps(d, ell, c, k))
    ensures F.BodiesOk(q, d, ell, F.Bodies(OneRow(d, ell, 1), OneRow(d, ell, 1)))
  {
    hide F.StepOk, OneRow;
    OneRowOk(q, d, ell, 1);
    LoneStepOk(q, d, ell, c);
    LoneStepOk(q, d, ell, 0);
  }

  lemma {:induction false} LoneSum(q: int, d: nat, ell: nat, c: int, k: nat, dst: nat, n: nat)
    requires 1 < q && 0 <= c < q && dst < d && ell > 0 && n <= k
    ensures F.StepsOk(q, d, ell, LoneSteps(d, ell, c, k))
    ensures F.BodiesOk(q, d, ell, F.Bodies(OneRow(d, ell, 1), OneRow(d, ell, 1)))
    ensures F.RangeSum(q, d, ell, LoneSteps(d, ell, c, k), F.Bodies(OneRow(d, ell, 1), OneRow(d, ell, 1)), dst, 0, n)
            == if n == 0 then 0 else c
  {
    hide F.StepOk, F.StepsOk, F.BodiesOk, F.RangeSum, F.SlotSum, F.RowsOk, OneRow;
    var steps, b := LoneSteps(d, ell, c, k), F.Bodies(OneRow(d, ell, 1), OneRow(d, ell, 1));
    LoneStepsOk(q, d, ell, c, k);
    F.RangeSumNil(q, d, ell, steps, b, dst, 0);
    if n > 0 {
      LoneSum(q, d, ell, c, k, dst, n - 1);
      F.RangeSumStep(q, d, ell, steps, b, dst, 0, n - 1);
      LoneSlot(q, d, ell, if n - 1 == 0 then c else 0, dst, ell);
    }
  }

  /** The 64-bit sum collapse_terms forms in lane s. */
  function LaneSum(q: int, d: nat, ell: nat, steps: seq<F.Step>, key: F.Bodies, b: Poly, s: nat): (r: int)
    requires q > 0 && F.StepsOk(q, d, ell, steps) && F.BodiesOk(q, d, ell, key) && |b| == d && s < d
  {
    b[s] + F.RangeSum(q, d, ell, steps, key, s, 0, |steps|) % q
  }

  /** Operands collapse_terms may be called with: d - 1 steps, and the headroom check in front of it passed. */
  predicate Collapses(q: int, d: nat, ell: nat, steps: seq<F.Step>, key: F.Bodies, b: Poly, s: nat) {
    F.FusedFits(q, d, ell) && F.StepsOk(q, d, ell, steps) && F.BodiesOk(q, d, ell, key) && Elem(q, d, b) && s < d && |steps| == d - 1
  }

  lemma LaneFits(q: int, d: nat, ell: nat, steps: seq<F.Step>, key: F.Bodies, b: Poly, s: nat)
    requires 0 < q <= HALF && Collapses(q, d, ell, steps, key, b, s)
    ensures LaneSum(q, d, ell, steps, key, b, s) < WORD
  {
    hide F.StepsOk, F.BodiesOk, F.RangeSum, F.FusedFits;
    CanonAt(q, b, s);
    DivMod(F.RangeSum(q, d, ell, steps, key, s, 0, |steps|), q);
  }

  lemma LaneWraps(q: int, d: nat, ell: nat)
    requires HALF < q < WORD && d >= 2 && ell > 0 && F.FusedFits(q, d, ell)
    ensures var steps, key, b: Poly := LoneSteps(d, ell, q - 1, d - 1), F.Bodies(OneRow(d, ell, 1), OneRow(d, ell, 1)), seq(d, _ => q - 1);
            Collapses(q, d, ell, steps, key, b, 0) && LaneSum(q, d, ell, steps, key, b, 0) >= WORD
  {
    hide F.StepsOk, F.BodiesOk, F.RangeSum, F.FusedFits, OneRow;
    LoneSum(q, d, ell, q - 1, d - 1, 0, d - 1);
    ModSmall(q - 1, q);
  }

  /** Behind the headroom check, no lane sum of the fused collapse overflows, whatever the d - 1 steps, the bodies and
      the body polynomial, exactly up to 2^63. */
  lemma LaneSumExact(q: int, d: nat, ell: nat)
    requires 1 < q < WORD && d >= 2 && ell > 0 && F.FusedFits(q, d, ell)
    ensures q <= HALF <==> forall steps: seq<F.Step>, key: F.Bodies, b: Poly, s: nat ::
                             Collapses(q, d, ell, steps, key, b, s) ==> LaneSum(q, d, ell, steps, key, b, s) < WORD
  {
    hide F.StepsOk, F.BodiesOk, F.RangeSum, F.FusedFits, OneRow, LoneSteps, LaneSum;
    if q <= HALF {
      forall steps: seq<F.Step>, key: F.Bodies, b: Poly, s: nat | Collapses(q, d, ell, steps, key, b, s)
        ensures LaneSum(q, d, ell, steps, key, b, s) < WORD
      {
        LaneFits(q, d, ell, steps, key, b, s);
      }
    } else {
      LaneWraps(q, d, ell);
    }
  }

  /** For a given degree and digit count the check alone keeps every lane sum within 64 bits, for all moduli, exactly
      when it counts four terms or more. */
  lemma LaneGuardExact(d: nat, ell: nat)
    requires d >= 2 && ell > 0
    ensures (d - 1) * ell >= 4 <==> forall q: int, steps: seq<F.Step>, key: F.Bodies, b: Poly, s: nat ::
                                      1 < q < WORD && Collapses(q, d, ell, steps, key, b, s) ==> LaneSum(q, d, ell, steps, key, b, s) < WORD
  {
    hide F.StepsOk, F.BodiesOk, F.RangeSum, F.FusedFits, OneRow, LoneSteps, LaneSum;
    if (d - 1) * ell >= 4 {
      forall q: int, steps: seq<F.Step>, key: F.Bodies, b: Poly, s: nat | 1 < q < WORD && Collapses(q, d, ell, steps, key, b, s)
        ensures LaneSum(q, d, ell, steps, key, b, s) < WORD
      {
        CollapsesFits(q, d, ell, steps, key, b, s);
        F.GuardNarrows(q, d, ell);
        LaneFits(q, d, ell, steps, key, b, s);
      }
    } else {
      FewTerms(HALF + 1, d, ell);
      LaneWraps(HALF + 1, d, ell);
    }
  }

  lemma CollapsesFits(q: int, d: nat, ell: nat, steps: seq<F.Step>, key: F.Bodies, b: Poly, s: nat)
    requires Collapses(q, d, ell, steps, key, b, s)
    ensures F.FusedFits(q, d, ell)
  {
  }

  /** With three terms or fewer the check passes well above 2^63. */
  lemma FewTerms(q: int, d: nat, ell: nat)
    requires d >= 1 && (d - 1) * ell <= 3 && HALF < q <= HALF + HALF / 8
    ensures F.FusedFits(q, d, ell) && HALF < q < WORD
  {
    var c := HALF + HALF / 8;
    ProductOrder(q - 1, c, q - 1);
    ProductOrder(q - 1, c, c);
    Commute(q - 1, c);
    ProductOrder((d - 1) * ell, 3, (q - 1) * (q - 1));
    Commute((d - 1) * ell, (q - 1) * (q - 1));
  }

  /** Accepted parameters of degree four or more count at least six terms, so their lane sums never overflow. */
  lemma AcceptedLanesFit(P: RlweParams)
    requires P.Valid() && P.q < WORD && P.d >= 4 && F.FusedFits(P.q, P.d, P.ell)
    ensures P.q <= HALF
  {
    hide F.FusedFits;
    if P.q > HALF {
      if P.ell == 1 {
        SmallGadget(P);
      }
      ProductOrder(3, P.d - 1, P.ell);
      F.GuardNarrows(P.q, P.d, P.ell);
    }
  }

  lemma SmallGadget(P: RlweParams)
    requires P.Valid() && P.ell == 1
    ensures P.q <= HALF
  {
    hide Pow, Inverses, PowerOfTwo;
    PowOne(P.Z());
    PowMonotone(P.bits, 63);
    HalfPower();
  }

  lemma PowOne(z: int)
    ensures Pow(z, 1) == z
  {
  }

  lemma HalfPower()
    ensures Pow(2, 63) == HALF
  {
    hide Pow;
    WordPower64();
    Ntt.PowStep(2, 63);
  }

  /** Accepted parameters of degree two exist whose lane sums do overflow, behind the check: the prime 2^63 + 29 and two
      digits of 33 bits. */
  lemma AcceptedLanesWrap()
    ensures var q := HALF + 29;
            var P := RlweParams(2, q, 2, 33, 2, q / 2, (q + 1) / 2);
            P.Valid() && F.FusedFits(P.q, P.d, P.ell) && P.q > HALF
            && exists steps: seq<F.Step>, key: F.Bodies, b: Poly, s: nat ::
                 Collapses(P.q, P.d, P.ell, steps, key, b, s) && LaneSum(P.q, P.d, P.ell, steps, key, b, s) >= WORD
  {
    hide F.StepsOk, F.BodiesOk, F.RangeSum, F.FusedFits, OneRow, LoneSteps, LaneSum;
    FewTerms(HALF + 29, 2, 2);
    LaneWraps(HALF + 29, 2, 2);
    DegreeTwoValid();
  }

  lemma DegreeTwoValid()
    ensures var q := HALF + 29; RlweParams(2, q, 2, 33, 2, q / 2, (q + 1) / 2).Valid()
  {
    hide Pow;
    var q, z := HALF + 29, Pow(2, 33);
    WordPower64();
    PowMonotone(64, 66);
    PowAdd(2, 33, 33);
    Ntt.PowStep(z, 1);
    PowOne(z);
    RemainderUnique(2 * ((q + 1) / 2), 1, 1, q);
    ModSmall(1, q);
  }

  // ----- the headroom assertion of collapse_terms -----

  /** What the accumulator of lane s holds after all steps. */
  function Accumulated(q: int, d: nat, ell: nat, steps: seq<F.Step>, key: F.Bodies, s: nat): (r: int)
    requires F.StepsOk(q, d, ell, steps) && F.BodiesOk(q, d, ell, key) && s < d
  {
    F.RangeSum(q, d, ell, steps, key, s, 0, |steps|)
  }

  predicate Loads(q: int, d: nat, ell: nat, steps: seq<F.Step>, key: F.Bodies, s: nat) {
    F.StepsOk(q, d, ell, steps) && F.BodiesOk(q, d, ell, key) && s < d && |steps| == d - 1
  }

  /** Behind the headroom check, the debug assertion of collapse_terms (one more modulus of headroom in the 128-bit
      accumulator) holds for every schedule exactly when (d - 1) ell (q - 1)^2 + q stays below 2^128. */
  lemma HeadroomExact(q: int, d: nat, ell: nat)
    requires q > 0 && F.FusedFits(q, d, ell)
    ensures (d - 1) * (ell * ((q - 1) * (q - 1))) + q < U128
            <==> forall steps: seq<F.Step>, key: F.Bodies, s: nat ::
                   Loads(q, d, ell, steps, key, s) ==> Accumulated(q, d, ell, steps, key, s) + q < U128
  {
    hide F.StepsOk, F.BodiesOk, F.RangeSum, F.FullSteps, F.Full;
    if (d - 1) * (ell * ((q - 1) * (q - 1))) + q < U128 {
      forall steps: seq<F.Step>, key: F.Bodies, s: nat | Loads(q, d, ell, steps, key, s)
        ensures Accumulated(q, d, ell, steps, key, s) + q < U128
      {
        F.RangeSumBound(q, d, ell, steps, key, s, 0, d - 1);
      }
    } else {
      F.FullLoad(q, d, ell, d - 1, 0, d - 1);
      assert Loads(q, d, ell, F.FullSteps(q, d, ell, d - 1), F.Bodies(F.Full(q, d, ell), F.Full(q, d, ell)), 0);
    }
  }

  /** The check does not imply that bound: accepted parameters of degree four, with a modulus of 63 bits and two digits
      of 32 bits, pass the check and have a schedule on which the assertion fails. */
  lemma HeadroomGap()
    ensures var q := 0x6882_f5c0_30b0_f7f1;
            var P := RlweParams(4, q, 2, 32, 2, q / 2, (3 * q + 1) / 4);
            P.Valid() && F.FusedFits(P.q, P.d, P.ell)
            && exists steps: seq<F.Step>, key: F.Bodies, s: nat ::
                 Loads(P.q, P.d, P.ell, steps, key, s) && Accumulated(P.q, P.d, P.ell, steps, key, s) + P.q >= U128
  {
    hide F.StepsOk, F.BodiesOk, F.RangeSum, Pow;
    var q := 0x6882_f5c0_30b0_f7f1;
    WordPower64();
    PowAdd(2, 32, 32);
    Ntt.PowStep(Pow(2, 32), 1);
    PowOne(Pow(2, 32));
    RemainderUnique(4 * ((3 * q + 1) / 4), 3, 1, q);
    ModSmall(1, q);
    HeadroomExact(q, 4, 2);
  }

  // ----- decode_rows -----

  /** The 64-bit sum decode_rows forms before dividing. */
  function DecodeSum(x: int, delta: int): (r: int) {
    x + delta / 2
  }

  /** It never overflows for any phase exactly when q plus half a step fits 2^64. */
  lemma DecodeSumExact(q: int, delta: int)
    requires 0 < q < WORD && delta > 0
    ensures q + delta / 2 <= WORD <==> forall x :: 0 <= x < q ==> DecodeSum(x, delta) < WORD
  {
    if q + delta / 2 > WORD {
      assert DecodeSum(q - 1, delta) >= WORD;
    }
  }

  // ----- rescale -----

  /** The cast keeps the modulus exactly below 2^63. */
  lemma CastExact(q: int)
    requires 0 <= q < WORD
    ensures q < HALF <==> Signed(q) == q
  {
    WrapSmall(q);
  }

  /** From 2^63 up the cast modulus is negative, and the residue 0 is taken as 2^64 - q, or as -2^63 at 2^63 itself. */
  lemma CentredZero(q: int)
    requires HALF <= q < WORD
    ensures HalfWord(q) == -((WORD - q) / 2)
    ensures Centred(0, q) == if q == HALF then -HALF else WORD - q
  {
    WrapSmall(q);
    ModSmall(0, q);
    SignedSmall(0);
    if q == HALF {
      WrapSmall(HALF);
    } else {
      SignedSmall(WORD - q);
    }
  }

  /** Its rounded quotient is then strictly between 0 and the largest word. */
  lemma ZeroQuotient(q: int)
    requires HALF < q < WORD
    ensures 1 <= Truncate(Numerator(WORD - q, -((WORD - q) / 2), WORD - 1), q) < WORD - 1
  {
    var m, b := WORD - q, WORD - 1;
    var n := Numerator(m, -(m / 2), b);
    assert n == m * b - m / 2;
    ProductOrder(1, m, b - 1);
    assert m * b == m * (b - 1) + m;
    if m == 1 {
      assert n == b;
    } else {
      ProductOrder(2, m, b - 1);
    }
    assert n >= q;
    ProductOrder(m + 1, q, b);
    Distribute(m, 1, b);
    QuotientBetween(n, q, b);
  }

  lemma QuotientBetween(n: int, q: int, b: int)
    requires 0 < q <= n < b * q
    ensures 1 <= Truncate(n, q) < b
  {
    DivMod(n, q);
    var k := n / q;
    if k < 1 {
      ProductOrder(k, 0, q);
    }
    if k >= b {
      ProductOrder(b, k, q);
    }
  }

  /** So 0 does not come back as 0, for any modulus from 2^63 up, when the output modulus is the largest word. */
  lemma RescaleWraps(q: int)
    requires HALF <= q < WORD
    ensures Rescale(0, q, WORD - 1) != 0 == RoundTo(0, q, WORD - 1)
  {
    hide *;
    WordOrder();
    LargestWord();
    CentredZero(q);
    RescaleUnfold(0, q, WORD - 1);
    RoundsZero(q, WORD - 1);
    if q == HALF {
      HalfQuotient();
    } else {
      ZeroQuotient(q);
      var t := Truncate(Numerator(WORD - q, -((WORD - q) / 2), WORD - 1), q);
      LiftedRemainder(Centred(0, q), HalfWord(q), q, WORD - 1, t);
    }
  }

  lemma LargestWord()
    ensures 1 < HALF < WORD - 1
  {
  }

  lemma RoundsZero(q: int, b: int)
    requires q > 1 && b > 0
    ensures RoundTo(0, q, b) == 0
  {
    hide *;
    ModSmall(0, q);
    RoundToUnfold(0, 0, 0, q, b);
    HalfOverWhole(q, b);
    var k := LiftedIs(0, q / 2, q, b, 0);
    RemainderUnique(k * b, k, 0, b);
    RemainderUnique(b, 1, 0, b);
  }

  lemma HalfOverWhole(q: int, b: int)
    requires q > 1
    ensures Truncate(Numerator(0, q / 2, b), q) == 0 && q / 2 > 0
  {
    RemainderUnique(q / 2, 0, q / 2, q);
  }

  lemma HalfQuotient()
    ensures (Truncated(Lifted(-HALF, -((WORD - HALF) / 2), HALF, WORD - 1), WORD - 1) + (WORD - 1)) % (WORD - 1) == 1
  {
    assert Numerator(-HALF, -((WORD - HALF) / 2), WORD - 1) == -((WORD - 2) * HALF + HALF / 2);
    assert Lifted(-HALF, -((WORD - HALF) / 2), HALF, WORD - 1) == WORD;
  }

  lemma LiftedIs(c: int, half: int, q: int, b: int, t: int) returns (k: int)
    requires q > 0 && b > 0 && t == Truncate(Numerator(c, half, b), q)
    ensures k >= 2 && Lifted(c, half, q, b) == k * b + t
  {
    hide Truncate, Numerator;
    DivMod(q, b);
    if q / b < 0 {
      MulStrict(q / b, b);
    }
    k := q / b + 2;
    Distribute(q / b, 2, b);
  }

  lemma LiftedRemainder(c: int, half: int, q: int, b: int, t: int)
    requires q > 0 && 0 <= t < b && t == Truncate(Numerator(c, half, b), q)
    ensures (Truncated(Lifted(c, half, q, b), b) + b) % b == t
  {
    hide *;
    var k := LiftedIs(c, half, q, b, t);
    ProductNonNegative(k, b);
    RemainderUnique(k * b + t, k, t, b);
    RemainderAgrees(k * b + t, b);
    RemainderUnique(t + b, 1, t, b);
  }

  /** One output modulus may still hide it: at 2^64 - 1 every smaller output modulus takes 0 to 0. */
  lemma RescaleZeroKept(qOut: int)
    requires 0 < qOut < WORD - 1
    ensures Rescale(0, WORD - 1, qOut) == 0
  {
    hide *;
    LargestWord();
    CentredZero(WORD - 1);
    RescaleUnfold(0, WORD - 1, qOut);
    OneOverLargest(qOut);
    LiftedRemainder(1, 0, WORD - 1, qOut, 0);
  }

  lemma OneOverLargest(qOut: int)
    requires 0 < qOut < WORD - 1
    ensures Truncate(Numerator(1, 0, qOut), WORD - 1) == 0 && (WORD - (WORD - 1)) / 2 == 0
  {
    RemainderUnique(qOut, 0, qOut, WORD - 1);
  }

  /** rescale is the rounding for every word and every output modulus exactly when the input modulus is below 2^63.
      The condition is about all output moduli together, as RescaleZeroKept shows. */
  lemma RescaleExact(q: int)
    requires 0 < q < WORD
    ensures q < HALF <==> forall value, qOut :: 0 <= value < WORD && 0 < qOut < WORD ==> Rescale(value, q, qOut) == RoundTo(value, q, qOut)
  {
    hide *;
    if q < HALF {
      forall value, qOut | 0 <= value < WORD && 0 < qOut < WORD
        ensures Rescale(value, q, qOut) == RoundTo(value, q, qOut)
      {
        RescaleIs(value, q, qOut);
      }
    } else {
      LargestWord();
      RescaleWraps(q);
      assert !(Rescale(0, q, WORD - 1) == RoundTo(0, q, WORD - 1));
    }
  }
}
