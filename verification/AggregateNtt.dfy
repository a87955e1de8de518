/** The aggregate, directly and by two transposed transforms (inspiring/src/preprocess.rs). */
module AggregateNtt {
  import opened Modular
  import opened MachineWords
  import opened Ring
  import opened RingLaws
  import opened Galois
  import opened Intermediate
  import opened Packing
  import opened Ntt
  import opened Automorph

  // ----- the direct form -----

  /** Where X^shift * X^exp lands, computed as the inner loop does. */
  lemma ShiftedSlot(d: nat, e: int, shift: nat)
    requires shift < d
    ensures var exp := e % (2 * d);
            var idx := (if exp < d then exp else exp - d) + shift;
            var flip := exp >= d;
            0 <= exp < 2 * d && 0 <= idx < 2 * d
            && SlotOf(d, e + shift) == (if idx >= d then idx - d else idx)
            && SignOf(d, e + shift) == (if flip == (idx >= d) then 1 else -1)
  {
    var n := 2 * d;
    var exp := e % n;
    ModAdd(e, shift, n);
    if exp + shift < n {
      ModSmall(exp + shift, n);
    } else {
      ModMultiple(exp + shift - n, 1, n);
      ModSmall(exp + shift - n, n);
    }
  }

  /** What a coefficient adds to the slot it lands in. */
  function Term(q: int, c: int, sign: int): (r: int) {
    if sign == -1 then q - c else c
  }

  lemma ConditionalSubtract(x: int, c: int, q: int, sign: int)
    requires 0 <= x < q <= HALF && 0 < c < q && (sign == 1 || sign == -1)
    ensures 0 <= Term(q, c, sign) < q < WORD && WordSum(x, Term(q, c, sign), q) == (x + c * sign) % q
  {
    if sign == -1 {
      ModMultiple(x - c, 1, q);
    }
  }

  function Monomials(q: int, d: nat, t: int, shift: int): (r: seq<Poly>)
    requires q > 0 && d > 0
    ensures |r| == d && forall i :: 0 <= i < d ==> |r[i]| == d && r[i] == ShiftedPower(q, d, shift, i * t)
  {
    seq(d, i => ShiftedPower(q, d, shift, i * t))
  }

  lemma MonomialAt(q: int, d: nat, t: int, shift: int, i: nat)
    requires q > 0 && i < d
    ensures Monomials(q, d, t, shift)[i] == Shift(q, Powers(q, d, t)[i], shift)
  {
    hide *;
    var e := i * t;
    PowersAt(q, d, t, i);
    MonoShift(q, d, e, shift);
    ShiftedPowerIs(q, d, shift, e);
  }

  lemma ShiftedPowerIs(q: int, d: nat, k: int, i: int)
    requires q > 0 && d > 0
    ensures ShiftedPower(q, d, k, i) == Mono(q, d, i + k)
  {
  }

  /** X^shift tau_t(p) is the combination the inner loop scatters. */
  lemma ShiftedTau(q: int, p: Poly, t: int, shift: int)
    requires q > 0 && |p| > 0
    ensures Shift(q, Tau(q, p, t), shift) == Comb(q, |p|, p, Monomials(q, |p|, t, shift), |p|)
  {
    hide *;
    var d := |p|;
    TauIs(q, p, t);
    forall i | 0 <= i < d
      ensures Monomials(q, d, t, shift)[i] == Shift(q, Powers(q, d, t)[i], shift)
    {
      MonomialAt(q, d, t, shift, i);
    }
    CombShift(q, d, shift, p, Powers(q, d, t), Monomials(q, d, t, shift), d);
  }

  lemma CombGrows(q: int, d: nat, x: Poly, cs: seq<int>, ps: seq<Poly>, n: nat)
    requires q > 0 && n < |cs| && n < |ps| && |x| == d && Canon(q, x) && forall i :: 0 <= i <= n ==> |ps[i]| == d
    ensures Add(q, x, Comb(q, d, cs, ps, 0)) == x
    ensures Add(q, x, Comb(q, d, cs, ps, n + 1)) == Add(q, Add(q, x, Comb(q, d, cs, ps, n)), Scale(q, cs[n], ps[n]))
  {
    hide *;
    CombNil(q, d, cs, ps);
    AddZero(q, x);
    CombStep(q, d, cs, ps, n);
    AddAssoc(q, x, Comb(q, d, cs, ps, n), Scale(q, cs[n], ps[n]));
  }

  lemma ScatterStep(q: int, d: nat, x: Poly, y: Poly, c: int, t: int, shift: nat, i: nat)
    requires q > 0 && |x| == d && shift < d && i < d && Canon(q, x) && 0 <= c < q
    requires y == Add(q, x, Scale(q, c, ShiftedPower(q, d, shift, i * t)))
    ensures c == 0 ==> y == x
    ensures c > 0 ==> y == x[SlotOf(d, i * t + shift) := (x[SlotOf(d, i * t + shift)] + c * SignOf(d, i * t + shift)) % q]
  {
    hide Mono;
    if c == 0 {
      hide *;
      ScaleByZero(q, ShiftedPower(q, d, shift, i * t));
      AddZero(q, x);
    } else {
      ScatterAdd(q, x, c, i * t + shift);
    }
  }

  /** One coefficient scattered is one term of the combination added. */
  lemma ScatterGrows(q: int, d: nat, x0: Poly, x: Poly, y: Poly, poly: Poly, t: int, shift: nat, i: nat)
    requires 0 < q <= HALF && |x0| == |x| == |poly| == d && Canon(q, x0) && Canon(q, poly) && shift < d && i < d
    requires x == Add(q, x0, Comb(q, d, poly, Monomials(q, d, t, shift), i)) && Canon(q, x)
    requires 0 <= SlotOf(d, i * t + shift) < d && 0 <= poly[i] < q < WORD
    requires 0 <= x[SlotOf(d, i * t + shift)] < q
    requires poly[i] == 0 ==> y == x
    requires poly[i] != 0 ==> var e := i * t + shift;
                              0 <= Term(q, poly[i], SignOf(d, e)) < q
                              && y == x[SlotOf(d, e) := WordSum(x[SlotOf(d, e)], Term(q, poly[i], SignOf(d, e)), q)]
    ensures y == Add(q, x0, Comb(q, d, poly, Monomials(q, d, t, shift), i + 1))
  {
    hide *;
    var ps := Monomials(q, d, t, shift);
    CombGrows(q, d, x0, poly, ps, i);
    ScatterStep(q, d, x, Add(q, x, Scale(q, poly[i], ps[i])), poly[i], t, shift, i);
    if poly[i] != 0 {
      var e := i * t + shift;
      SignIs(d, e);
      ConditionalSubtract(x[SlotOf(d, e)], poly[i], q, SignOf(d, e));
    }
  }

  lemma SignIs(d: nat, e: int)
    requires d > 0
    ensures SignOf(d, e) == 1 || SignOf(d, e) == -1
  {
  }

  /** add_shifted_tau: out += X^shift * tau_t(poly), without division, on 64-bit words. */
  method AddShiftedTau(out: array<int>, poly: Poly, t: int, shift: nat, q: int)
    requires 0 < q < WORD && out.Length == |poly| && shift < |poly| && Canon(q, poly) && Canon(q, out[..])
    modifies out
    ensures Canon(q, out[..])
    ensures q <= HALF ==> out[..] == Add(q, old(out[..]), Shift(q, Tau(q, poly, t), shift))
  {
    hide *;
    var d := out.Length;
    ghost var x0, ps := out[..], Monomials(q, d, t, shift);
    CombGrows(q, d, x0, poly, ps, 0);
    for i := 0 to d
      invariant Canon(q, out[..])
      invariant q <= HALF ==> out[..] == Add(q, x0, Comb(q, d, poly, ps, i))
    {
      ghost var x := out[..];
      CanonAt(q, poly, i);
      ShiftedSlot(d, i * t, shift);
      ghost var slot := SlotOf(d, i * t + shift);
      CanonAt(q, x, slot);
      var reduced := poly[i];
      if reduced != 0 {
        var exp := (i * t) % (2 * d);
        var idx := if exp < d then exp else exp - d;
        var negate := exp >= d;
        idx := idx + shift;
        if idx >= d {
          idx := idx - d;
          negate := !negate;
        }
        var term := if negate then q - reduced else reduced;
        TermIs(q, reduced, SignOf(d, i * t + shift));
        assert idx == slot && term == Term(q, reduced, SignOf(d, i * t + shift));
        out[idx] := WordSum(out[idx], term, q);
        CanonUpdate(q, x, idx, out[idx]);
        assert out[..] == x[idx := out[idx]];
      }
      if q <= HALF {
        ScatterGrows(q, d, x0, x, out[..], poly, t, shift, i);
      }
    }
    ShiftedTau(q, poly, t, shift);
  }

  lemma TermIs(q: int, c: int, sign: int)
    ensures Term(q, c, sign) == if sign == -1 then q - c else c
  {
  }

  lemma CanonUpdate(q: int, p: Poly, i: nat, x: int)
    requires i < |p| && Canon(q, p) && 0 <= x < q
    ensures Canon(q, p[i := x])
  {
  }

  predicate Embedded(q: int, d: nat, rows: seq<seq<int>>, tildes: seq<Poly>)
    requires q > 0 && d > 0 && RowsShape(d, rows)
  {
    |tildes| == |rows| && forall k :: 0 <= k < |rows| ==> tildes[k] == ATilde(q, rows[k])
  }

  lemma EmbeddedAt(q: int, d: nat, rows: seq<seq<int>>, tildes: seq<Poly>, k: nat)
    requires q > 0 && d > 0 && RowsShape(d, rows) && Embedded(q, d, rows, tildes) && k < |rows|
    ensures |rows[k]| == d && tildes[k] == ATilde(q, rows[k]) && |tildes[k]| == d && Canon(q, tildes[k])
  {
  }

  /** aggregate_slot: X^k tau_t(row k) accumulated over the rows, then scaled by the inverse of d. */
  method AggregateSlot(q: int, d: nat, dInv: int, rows: seq<seq<int>>, tildes: seq<Poly>, slot: nat)
    returns (out: array<int>)
    requires 0 < q < WORD && d > 0 && d % 2 == 0 && RowsShape(d, rows) && |rows| == d && Embedded(q, d, rows, tildes) && slot < d
    ensures fresh(out) && |SlotExps(d)| == d
    ensures q <= HALF ==> out[..] == AggSlot(q, d, dInv, rows, SlotExps(d)[slot])
  {
    hide *;
    out := new int[d](_ => 0);
    var half := d / 2;
    var t: int;
    if slot < half {
      t := TauGPow(slot, d);
    } else {
      t := TauGPow(slot - half, d);
      t := (t * (2 * d - 1)) % (2 * d);
    }
    SlotExpsAt(d, slot);
    EmbeddedSize(q, d, rows, tildes);
    ghost var images := RowImages(q, d, rows, t);
    ShiftSumNil(q, d, images);
    IsZero(out[..]);
    for k := 0 to d
      invariant Canon(q, out[..])
      invariant q <= HALF ==> out[..] == ShiftSum(q, d, images, k)
    {
      EmbeddedAt(q, d, rows, tildes, k);
      ShiftSumStep(q, d, images, k);
      AddShiftedTau(out, tildes[k], t, k, q);
    }
    ghost var sum := out[..];
    AggSlotIs(q, d, dInv, rows, t);
    ghost var want := AggSlot(q, d, dInv, rows, t);
    for i := 0 to d
      invariant q <= HALF ==> forall k :: 0 <= k < i ==> out[k] == want[k]
      invariant forall k :: i <= k < d ==> out[k] == sum[k]
    {
      ScaleEntry(q, dInv, sum, i);
      out[i] := (out[i] * dInv) % q;
    }
    assert q <= HALF ==> out[..] == want;
  }

  lemma IsZero(p: Poly)
    requires forall i :: 0 <= i < |p| ==> p[i] == 0
    ensures p == Zero(|p|)
  {
  }

  lemma ScaleEntry(q: int, c: int, p: Poly, i: nat)
    requires q > 0 && i < |p|
    ensures Scale(q, c, p)[i] == (p[i] * c) % q
  {
    assert p[i] * c == c * p[i];
  }

  lemma SlotExpsAt(d: nat, slot: nat)
    requires d > 0 && d % 2 == 0 && slot < d
    ensures |SlotExps(d)| == d
    ensures slot < d / 2 ==> SlotExps(d)[slot] == Pow(5, slot) % (2 * d)
    ensures slot >= d / 2 ==> SlotExps(d)[slot] == ((Pow(5, slot - d / 2) % (2 * d)) * (2 * d - 1)) % (2 * d)
    ensures slot < d / 2 ==> SlotExps(d)[slot] == LeftExp(d, slot)
    ensures slot >= d / 2 ==> SlotExps(d)[slot] == RightExp(d, slot - d / 2)
  {
    hide Pow;
  }

  // ----- the transposed form -----

  /** If the images take the values Q at w^e, their shifted sum takes the value Q(w^e). */
  lemma {:induction false} AtShiftSum(N: Slots, ps: seq<Poly>, Q: seq<int>, e: int, n: nat)
    requires N.Ok() && e % 2 == 1 && n <= |ps| && n <= |Q| && N.q > 0 && N.d > 0
    requires forall j :: 0 <= j < n ==> |ps[j]| == N.d && Canon(N.q, ps[j]) && At(N, ps[j], e) == Q[j]
    ensures At(N, ShiftSum(N.q, N.d, ps, n), e) == EvalSum(N, Q, e, n) % N.q
  {
    hide *;
    if n == 0 {
      ShiftSumNil(N.q, N.d, ps);
      AtZero(N, N.d, e);
      EvalNil(N, Q, e);
      ModSmall(0, N.q);
    } else {
      var m := n - 1;
      AtShiftSum(N, ps, Q, e, m);
      ShiftSumStep(N.q, N.d, ps, m);
      AtAdd(N, ShiftSum(N.q, N.d, ps, m), Shift(N.q, ps[m], m), e);
      AtShift(N, ps[m], m, e);
      EvalSumStep(N, Q, e, m);
      SumStep(EvalSum(N, Q, e, m), Root(N, m * e), Q[m], N.q);
    }
  }

  lemma SumStep(x: int, v: int, y: int, q: int)
    requires q > 0
    ensures (x % q + (v * y) % q) % q == (x + y * v) % q
  {
    ModAdd(x, v * y, q);
    assert v * y == y * v;
  }

  /** Slot v of every transformed row: the coefficients of Q_v. */
  function SlotAcross(N: Slots, tildes: seq<Poly>, v: nat): (r: seq<int>)
    requires N.Ok() && v < N.d && forall j :: 0 <= j < |tildes| ==> |tildes[j]| == N.d
    ensures |r| == |tildes| && forall j :: 0 <= j < |r| ==> r[j] == Forward(N, tildes[j])[v]
  {
    seq(|tildes|, j requires 0 <= j < |tildes| => Forward(N, tildes[j])[v])
  }

  /** Reading Q at the table's source slot and scaling by the inverse of d is the aggregate in NTT form. */
  lemma TransposedSlot(N: Slots, dInv: int, rows: seq<seq<int>>, tildes: seq<Poly>, T: Table, s: nat)
    requires N.Ok() && N.q > 0 && N.d > 0 && RowsShape(N.d, rows) && |rows| == N.d && Embedded(N.q, N.d, rows, tildes)
    requires Realises(N, T) && s < N.d
    requires forall j :: 0 <= j < |tildes| ==> |tildes[j]| == N.d
    ensures |T.indices| == N.d && T.indices[s] < N.d && |tildes| == N.d
    ensures (Forward(N, SlotAcross(N, tildes, T.indices[s]))[s] * dInv) % N.q
            == Forward(N, AggSlot(N.q, N.d, dInv, rows, T.exponent))[s]
  {
    hide *;
    RealisesAt(N, T, s);
    SlotOdd(N, s);
    EmbeddedAt(N.q, N.d, rows, tildes, 0);
    EmbeddedSize(N.q, N.d, rows, tildes);
    var e, v, t := N.es[s], T.indices[s], T.exponent;
    var Q, images := SlotAcross(N, tildes, v), RowImages(N.q, N.d, rows, t);
    forall j | 0 <= j < N.d
      ensures At(N, images[j], e) == Q[j]
    {
      EmbeddedAt(N.q, N.d, rows, tildes, j);
      AtTau(N, tildes[j], t, e);
      AtMod(N, tildes[j], t * e);
    }
    AtShiftSum(N, images, Q, e, N.d);
    AtIs(N, Q, e);
    AggSlotIs(N.q, N.d, dInv, rows, t);
    AtScale(N, dInv, ShiftSum(N.q, N.d, images, N.d), e);
    Commute(dInv, At(N, Q, e));
  }

  lemma EmbeddedSize(q: int, d: nat, rows: seq<seq<int>>, tildes: seq<Poly>)
    requires q > 0 && d > 0 && RowsShape(d, rows) && Embedded(q, d, rows, tildes)
    ensures |tildes| == |rows| && forall j :: 0 <= j < |tildes| ==> |tildes[j]| == d && Canon(q, tildes[j])
  {
  }

  /** transpose_square, in tiles of 32 by 32. */
  method TransposeSquare(src: array2<int>, dst: array2<int>, d: nat)
    requires src != dst && src.Length0 == src.Length1 == dst.Length0 == dst.Length1 == d
    modifies dst
    ensures forall r, c :: 0 <= r < d && 0 <= c < d ==> dst[r, c] == src[c, r]
  {
    var rowStart := 0;
    while rowStart < d
      invariant 0 <= rowStart
      invariant forall r, c :: 0 <= r < rowStart && r < d && 0 <= c < d ==> dst[r, c] == src[c, r]
    {
      var rowEnd := if rowStart + 32 < d then rowStart + 32 else d;
      var colStart := 0;
      while colStart < d
        invariant 0 <= colStart
        invariant forall r, c :: 0 <= r < rowStart && 0 <= c < d ==> dst[r, c] == src[c, r]
        invariant forall r, c :: rowStart <= r < rowEnd && 0 <= c < colStart && c < d ==> dst[r, c] == src[c, r]
      {
        var colEnd := if colStart + 32 < d then colStart + 32 else d;
        for row := rowStart to rowEnd
          invariant forall r, c :: 0 <= r < rowStart && 0 <= c < d ==> dst[r, c] == src[c, r]
          invariant forall r, c :: rowStart <= r < rowEnd && 0 <= c < colStart ==> dst[r, c] == src[c, r]
          invariant forall r, c :: rowStart <= r < row && colStart <= c < colEnd ==> dst[r, c] == src[c, r]
        {
          for col := colStart to colEnd
            invariant forall r, c :: 0 <= r < rowStart && 0 <= c < d ==> dst[r, c] == src[c, r]
            invariant forall r, c :: rowStart <= r < rowEnd && 0 <= c < colStart ==> dst[r, c] == src[c, r]
            invariant forall r, c :: rowStart <= r < row && colStart <= c < colEnd ==> dst[r, c] == src[c, r]
            invariant forall c :: colStart <= c < col ==> dst[row, c] == src[c, row]
          {
            dst[row, col] := src[col, row];
          }
        }
        colStart := colStart + 32;
      }
      rowStart := rowStart + 32;
    }
  }

  /** Row v of the table, as a sequence. */
  function RowOf(m: array2<int>, v: nat): (r: seq<int>)
    requires v < m.Length0
    reads m
    ensures |r| == m.Length1 && forall s :: 0 <= s < |r| ==> r[s] == m[v, s]
  {
    seq(m.Length1, s requires 0 <= s < m.Length1 reads m => m[v, s])
  }

  /** ntt_forward on every row of a table. */
  method ForwardRows(N: Slots, m: array2<int>)
    requires N.Ok() && m.Length0 == m.Length1 == N.d
    modifies m
    ensures forall v, s :: 0 <= v < N.d && 0 <= s < N.d ==> m[v, s] == Forward(N, old(RowOf(m, v)))[s]
  {
    hide *;
    for v := 0 to N.d
      invariant forall u, s :: 0 <= u < v && 0 <= s < N.d ==> m[u, s] == Forward(N, old(RowOf(m, u)))[s]
      invariant forall u, s :: v <= u < N.d && 0 <= s < N.d ==> m[u, s] == old(m[u, s])
    {
      var row := RowOf(m, v);
      assert row == old(RowOf(m, v));
      var image := Forward(N, row);
      for s := 0 to N.d
        invariant forall u, s :: 0 <= u < v && 0 <= s < N.d ==> m[u, s] == Forward(N, old(RowOf(m, u)))[s]
        invariant forall u, s :: v < u < N.d && 0 <= s < N.d ==> m[u, s] == old(m[u, s])
        invariant forall k :: 0 <= k < s ==> m[v, k] == image[k]
      {
        m[v, s] := image[s];
      }
    }
  }

  /** The table E[v][s] = Q_v(w_s), by transform, transpose, transform, transpose. */
  method SlotTable(N: Slots, tildes: seq<Poly>) returns (bySlot: array2<int>)
    requires N.Ok() && |tildes| == N.d && forall j :: 0 <= j < |tildes| ==> |tildes[j]| == N.d
    ensures fresh(bySlot) && bySlot.Length0 == bySlot.Length1 == N.d
    ensures forall s, v :: 0 <= s < N.d && 0 <= v < N.d ==> bySlot[s, v] == Forward(N, SlotAcross(N, tildes, v))[s]
  {
    hide *;
    var d := N.d;
    var aHat := new int[d, d];
    for j := 0 to d
      invariant forall i, s :: 0 <= i < j && 0 <= s < d ==> aHat[i, s] == Forward(N, tildes[i])[s]
    {
      var image := Forward(N, tildes[j]);
      for s := 0 to d
        invariant forall i, s :: 0 <= i < j && 0 <= s < d ==> aHat[i, s] == Forward(N, tildes[i])[s]
        invariant forall k :: 0 <= k < s ==> aHat[j, k] == image[k]
      {
        aHat[j, s] := image[s];
      }
    }
    var table := new int[d, d];
    TransposeSquare(aHat, table, d);
    forall v | 0 <= v < d
      ensures RowOf(table, v) == SlotAcross(N, tildes, v)
    {
    }
    ForwardRows(N, table);
    bySlot := new int[d, d];
    TransposeSquare(table, bySlot, d);
  }

  /** build_a_agg: slot j of the result is the transform of the direct aggregate's slot j. */
  method BuildAAgg(N: Slots, dInv: int, rows: seq<seq<int>>, tildes: seq<Poly>, g: Table, h: Table)
    returns (out: array2<int>)
    requires N.Ok() && N.q > 0 && N.d >= 2 && RowsShape(N.d, rows) && |rows| == N.d && Embedded(N.q, N.d, rows, tildes)
    requires Realises(N, g) && Realises(N, h) && g.exponent == 5 % (2 * N.d) && h.exponent == 2 * N.d - 1
    ensures fresh(out) && out.Length0 == out.Length1 == N.d == |AAgg(N.q, N.d, dInv, rows)|
    ensures forall j, s :: 0 <= j < N.d && 0 <= s < N.d ==>
              out[j, s] == Forward(N, AAgg(N.q, N.d, dInv, rows)[j])[s]
  {
    hide *;
    var d := N.d;
    EvenDegree(N);
    EmbeddedSize(N.q, d, rows, tildes);
    var bySlot := SlotTable(N, tildes);
    var left, right := TauGPowerTables(N, g, h, d / 2);
    ghost var want := AAgg(N.q, d, dInv, rows);
    out := new int[d, d];
    var base := 0;
    while base < d
      invariant 0 <= base
      invariant forall j, s :: 0 <= j < base && j < d && 0 <= s < d ==> out[j, s] == Forward(N, want[j])[s]
      invariant forall s, v :: 0 <= s < d && 0 <= v < d ==> bySlot[s, v] == Forward(N, SlotAcross(N, tildes, v))[s]
    {
      var limit := if base + 64 < d then base + 64 else d;
      FillBlock(N, dInv, rows, tildes, bySlot, left, right, out, base, limit);
      base := base + 64;
    }
  }

  lemma EvenDegree(N: Slots)
    requires N.Ok() && N.d >= 2
    ensures N.d % 2 == 0 && 2 * (N.d / 2) == N.d
  {
  }

  lemma SlotValue(N: Slots, dInv: int, rows: seq<seq<int>>, tildes: seq<Poly>, T: Table, j: nat, s: nat)
    requires N.Ok() && N.q > 0 && N.d >= 2 && N.d % 2 == 0 && RowsShape(N.d, rows) && |rows| == N.d
    requires Embedded(N.q, N.d, rows, tildes) && forall i :: 0 <= i < |tildes| ==> |tildes[i]| == N.d
    requires Realises(N, T) && s < N.d && j < N.d
    requires T.exponent == if j < N.d / 2 then LeftExp(N.d, j) else RightExp(N.d, j - N.d / 2)
    ensures |T.indices| == N.d && T.indices[s] < N.d && |AAgg(N.q, N.d, dInv, rows)| == N.d && |tildes| == N.d
    ensures (Forward(N, SlotAcross(N, tildes, T.indices[s]))[s] * dInv) % N.q
            == Forward(N, AAgg(N.q, N.d, dInv, rows)[j])[s]
  {
    hide *;
    SlotExpsAt(N.d, j);
    TransposedSlot(N, dInv, rows, tildes, T, s);
  }

  /** One block of output slots, swept in coefficient tiles of 32. */
  method FillBlock(N: Slots, dInv: int, rows: seq<seq<int>>, ghost tildes: seq<Poly>, bySlot: array2<int>,
                   left: seq<Table>, right: seq<Table>, out: array2<int>, base: nat, limit: nat)
    requires N.Ok() && N.q > 0 && N.d >= 2 && N.d % 2 == 0 && RowsShape(N.d, rows) && |rows| == N.d
    requires Embedded(N.q, N.d, rows, tildes) && |tildes| == N.d && forall i :: 0 <= i < |tildes| ==> |tildes[i]| == N.d
    requires |left| == |right| == N.d / 2
    requires forall i :: 0 <= i < N.d / 2 ==> left[i].exponent == LeftExp(N.d, i) && right[i].exponent == RightExp(N.d, i)
    requires forall i :: 0 <= i < N.d / 2 ==> Realises(N, left[i]) && Realises(N, right[i])
    requires bySlot != out && bySlot.Length0 == bySlot.Length1 == out.Length0 == out.Length1 == N.d
    requires base <= limit <= N.d && |AAgg(N.q, N.d, dInv, rows)| == N.d
    requires forall s, v :: 0 <= s < N.d && 0 <= v < N.d ==> bySlot[s, v] == Forward(N, SlotAcross(N, tildes, v))[s]
    modifies out
    ensures forall j, s :: 0 <= j < N.d && !(base <= j < limit) && 0 <= s < N.d ==> out[j, s] == old(out[j, s])
    ensures forall j, s :: base <= j < limit && 0 <= s < N.d ==> out[j, s] == Forward(N, AAgg(N.q, N.d, dInv, rows)[j])[s]
  {
    hide *;
    var d := N.d;
    ghost var want := AAgg(N.q, d, dInv, rows);
    var first := 0;
    while first < d
      invariant 0 <= first
      invariant forall j, s :: 0 <= j < d && !(base <= j < limit) && 0 <= s < d ==> out[j, s] == old(out[j, s])
      invariant forall j, s :: base <= j < limit && 0 <= s < first && s < d ==> out[j, s] == Forward(N, want[j])[s]
    {
      var last := if first + 32 < d then first + 32 else d;
      for slot := base to limit
        invariant forall j, s :: 0 <= j < d && !(base <= j < limit) && 0 <= s < d ==> out[j, s] == old(out[j, s])
        invariant forall j, s :: base <= j < limit && 0 <= s < first ==> out[j, s] == Forward(N, want[j])[s]
        invariant forall j, s :: base <= j < slot && first <= s < last ==> out[j, s] == Forward(N, want[j])[s]
      {
        var table := if slot < d / 2 then left[slot] else right[slot - d / 2];
        for s := first to last
          invariant forall j, s :: 0 <= j < d && !(base <= j < limit) && 0 <= s < d ==> out[j, s] == old(out[j, s])
          invariant forall j, s :: base <= j < limit && 0 <= s < first ==> out[j, s] == Forward(N, want[j])[s]
          invariant forall j, s :: base <= j < slot && first <= s < last ==> out[j, s] == Forward(N, want[j])[s]
          invariant forall k :: first <= k < s ==> out[slot, k] == Forward(N, want[slot])[k]
        {
          SlotValue(N, dInv, rows, tildes, table, slot, s);
          var value := bySlot[s, table.indices[s]];
          out[slot, s] := (value * dInv) % N.q;
        }
      }
      first := first + 32;
    }
  }
}
