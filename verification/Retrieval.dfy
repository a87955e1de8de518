/** Decoding, and the whole path from query to plaintext row
    (ipir-sp/src/client.rs, ipir-sp/src/server.rs). */
module Retrieval {
  import opened Modular
  import opened MachineWords
  import opened Ring
  import opened Galois
  import opened KeySwitch
  import opened Intermediate
  import opened Collapse
  import opened MaskCascade
  import opened Packing
  import opened SimplePir
  import L = Lift

  // ----- decoding one coefficient -----

  function Decode(x: int, delta: int, p: int): (r: int)
    requires delta > 0 && p > 0
  {
    ((x + delta / 2) / delta) % p
  }

  lemma QuotientIs(x: int, k: int, r: int, delta: int)
    requires 0 <= r < delta && x == k * delta + r
    ensures x / delta == k
  {
    RemainderUnique(x, k, r, delta);
  }

  /** q == p * floor(q/p) + q mod p. */
  lemma ScalingParts(q: int, p: int)
    requires 0 < p <= q
    ensures q / p >= 1 && q == p * (q / p) + q % p && 0 <= q % p < p
  {
    DivMod(q, p);
    assert (q / p) * p == p * (q / p);
    if q / p < 1 {
      LessThanOne(q / p, p);
    }
  }

  lemma LessThanOne(k: int, p: int)
    requires k < 1 && p > 0
    ensures k * p <= 0
  {
  }

  /** No wrap: the error stays inside half a step. */
  lemma DecodeInside(q: int, p: int, delta: int, m: int, err: int)
    requires 0 < p <= q && delta == q / p >= 1 && 0 <= m < p && 2 * L.Abs(err) < delta && 0 <= delta * m + err < q
    ensures Decode((delta * m + err) % q, delta, p) == m
  {
    ModSmall(delta * m + err, q);
    assert delta * m == m * delta;
    QuotientIs(delta * m + err + delta / 2, m, err + delta / 2, delta);
    ModSmall(m, p);
  }

  /** Wrap below zero: only m == 0, and the remainder of q must leave room. */
  lemma DecodeBelow(q: int, p: int, delta: int, m: int, err: int)
    requires 0 < p <= q && delta == q / p >= 1 && 0 <= m < p && 2 * L.Abs(err) < delta && delta * m + err < 0
    requires q % p <= delta - delta / 2
    ensures Decode((delta * m + err) % q, delta, p) == m
  {
    hide *;
    ScalingParts(q, p);
    AbsBelow(err, delta);
    OnlyZero(delta, m, err);
    ProductAtLeast(p, delta);
    WrapBelow(q, err);
    Commute(p, delta);
    QuotientIs(err + q + delta / 2, p, q % p + err + delta / 2, delta);
    DecodeIs(err + q, delta, p);
    SelfRemainder(p);
  }

  lemma AbsBelow(err: int, delta: int)
    requires 2 * L.Abs(err) < delta
    ensures -delta < 2 * err < delta && err + delta / 2 >= 0
  {
  }

  lemma OnlyZero(delta: int, m: int, err: int)
    requires delta >= 1 && m >= 0 && -delta < 2 * err && delta * m + err < 0
    ensures m == 0 && delta * m == 0 && err < 0
  {
    if m > 0 {
      MulStrict(m, delta);
      Commute(m, delta);
    }
  }

  lemma WrapBelow(q: int, err: int)
    requires -q < err < 0
    ensures err % q == err + q
  {
    RemainderUnique(err, -1, err + q, q);
  }

  lemma SelfRemainder(p: int)
    requires p > 0
    ensures p % p == 0
  {
    RemainderUnique(p, 1, 0, p);
  }

  lemma ProductAtLeast(p: int, delta: int)
    requires p >= 1 && delta >= 0
    ensures p * delta >= delta
  {
  }

  lemma TopStep(p: int, delta: int, m: int)
    requires 0 <= m < p && delta >= 0
    ensures delta * m + delta <= p * delta
  {
    Distribute(m, 1, delta);
    assert (m + 1) * delta <= p * delta;
    assert m * delta == delta * m;
  }

  /** Errors below half a step are removed, including across the wrap at q. */
  lemma DecodeRecovers(q: int, p: int, delta: int, m: int, err: int)
    requires 0 < p <= q && delta == q / p && delta >= 1 && 0 <= m < p && 2 * L.Abs(err) < delta
    requires q % p <= delta - delta / 2
    ensures Decode((delta * m + err) % q, delta, p) == m
  {
    ScalingParts(q, p);
    TopStep(p, delta, m);
    if delta * m + err < 0 {
      DecodeBelow(q, p, delta, m, err);
    } else {
      DecodeInside(q, p, delta, m, err);
    }
  }

  /** p at most half of Delta is enough room, as the parameters promise. */
  lemma HalfDeltaSuffices(q: int, p: int)
    requires 0 < p <= q && p <= (q / p) / 2
    ensures q % p <= q / p - (q / p) / 2
  {
    DivMod(q, p);
  }

  /** When the remainder leaves no room, the smallest negative error on plaintext 0 decodes wrongly. */
  lemma DecodeNeedsRoom(q: int, p: int, delta: int)
    requires 1 < p <= q && delta == q / p && delta > 2 && q % p > delta - delta / 2
    ensures 2 * L.Abs(-1) < delta && Decode((delta * 0 + -1) % q, delta, p) != 0
  {
    ScalingParts(q, p);
    var r := q % p;
    ModMultiple(-1, 1, q);
    ModSmall(q - 1, q);
    assert delta * 0 == 0;
    var top := q - 1 + delta / 2;
    assert p * delta == delta * p;
    // top lies in [(p+1) delta, 2 p delta): the quotient is past p, and not a multiple of p
    var k := top / delta;
    DivMod(top, delta);
    PastTop(p, delta, r, top, k);
    ModMultiple(k - p, 1, p);
    ModSmall(k - p, p);
  }

  lemma PastTop(p: int, delta: int, r: int, top: int, k: int)
    requires 1 < p && delta > 2 && delta - delta / 2 < r < p && top == p * delta + r - 1 + delta / 2
    requires k * delta <= top < k * delta + delta
    ensures p < k < 2 * p
  {
    if k <= p {
      ProductOrder(k, p, delta);
    } else if k >= 2 * p {
      ProductOrder(2 * p, k, delta);
      assert 2 * p * delta == p * delta + p * delta;
      Triple(p, delta);
    }
  }

  lemma Triple(p: int, delta: int)
    requires p > 1 && delta > 2
    ensures p * delta > p - 1 + delta / 2
  {
    assert p * delta >= 2 * delta && p * delta >= 3 * p by {
      ProductOrder(2, p, delta);
      assert p * delta == delta * p;
      ProductOrder(3, delta, p);
    }
  }

  /** Plaintext m survives error err. */
  predicate Recovers(q: int, p: int, m: int, err: int)
    requires 1 < p <= q && q / p >= 1
  {
    Decode((q / p * m + err) % q, q / p, p) == m
  }

  /** Exactly when every error below half a step is removed. */
  lemma DecodeExact(q: int, p: int)
    requires 1 < p <= q
    ensures q / p >= 1
    ensures (q / p <= 2 || q % p <= q / p - (q / p) / 2)
            <==> forall m, err :: 0 <= m < p && 2 * L.Abs(err) < q / p ==> Recovers(q, p, m, err)
  {
    ScalingParts(q, p);
    var delta := q / p;
    if delta > 2 && q % p > delta - delta / 2 {
      DecodeNeedsRoom(q, p, delta);
      assert !Recovers(q, p, 0, -1);
    } else {
      forall m, err | 0 <= m < p && 2 * L.Abs(err) < delta
        ensures Recovers(q, p, m, err)
      {
        if delta <= 2 {
          assert err == 0;
          TopStep(p, delta, m);
          ProductNonNegative(delta, m);
          DecodeInside(q, p, delta, m, 0);
        } else {
          DecodeRecovers(q, p, delta, m, err);
        }
      }
    }
  }

  // ----- decoding a row -----

  /** add_poly_mod on one pair of reduced coefficients. */
  function AddReduced(x: int, y: int, q: int): (r: int)
    requires 0 <= x < q && 0 <= y < q
    ensures r == (x + y) % q
  {
    ReduceSum(x, y, q);
    if x >= q - y then x - (q - y) else x + y
  }

  /** Decoding picks the multiple of the step nearest to the phase, halves upwards, and reduces its index modulo p. */
  lemma DecodeNearest(x: int, delta: int, p: int) returns (k: int)
    requires delta > 0 && p > 0
    ensures Decode(x, delta, p) == k % p && -delta < 2 * (k * delta - x) <= delta
  {
    k := (x + delta / 2) / delta;
    DivMod(x + delta / 2, delta);
    DecodeIs(x, delta, p);
  }

  /** The rounding of one coefficient, with its 64-bit sum. */
  function DecodeWord(x: int, delta: int, p: int): (r: int)
    requires delta > 0 && p > 0
  {
    (Wrap(x + delta / 2) / delta) % p
  }

  /** The 64-bit sum decodes as the exact one: because it never overflows, or because where it wraps, the decoded
      plaintext is 0 either way. */
  predicate WordDecodes(q: int, p: int, delta: int) {
    q + delta / 2 <= WORD || (0 < p <= q && delta == q / p && q % p <= delta - delta / 2)
  }

  lemma DecodeWordIs(q: int, p: int, delta: int, x: int)
    requires 0 <= x < q < WORD && delta > 0 && p > 0 && WordDecodes(q, p, delta)
    ensures DecodeWord(x, delta, p) == Decode(x, delta, p)
  {
    if x + delta / 2 < WORD {
      WrapSmall(x + delta / 2);
    } else {
      ScalingParts(q, p);
      var r := x + delta / 2 - WORD;
      WrapOnce(x + delta / 2);
      RemainderUnique(r, 0, r, delta);
      RemainderUnique(x + delta / 2, p, x + delta / 2 - p * delta, delta);
      SelfRemainder(p);
      ModSmall(0, p);
    }
  }

  /** decode_rows on the pair (c1, c2): c2 + c1 s, rounded coefficient by coefficient. */
  method DecodeRows(q: int, p: int, delta: int, row0: Poly, row1: Poly, s: Poly) returns (out: seq<int>)
    requires 0 < q < WORD && p > 0 && delta > 0 && |row0| == |row1| == |s| > 0 && Canon(q, row1)
    ensures |out| == |s|
    ensures WordDecodes(q, p, delta) ==> forall k :: 0 <= k < |s| ==> out[k] == Decode(Phase(q, Pair(row0, row1), s)[k], delta, p)
  {
    hide *;
    var product := Mul(q, row0, s);
    ghost var phase := Phase(q, Pair(row0, row1), s);
    out := [];
    for k := 0 to |s|
      invariant |out| == k
      invariant WordDecodes(q, p, delta) ==> forall i :: 0 <= i < k ==> out[i] == Decode(phase[i], delta, p)
    {
      CanonAt(q, row1, k);
      CanonAt(q, product, k);
      PhaseEntry(q, row0, row1, s, k);
      var coeff := AddReduced(row1[k], product[k], q);
      if WordDecodes(q, p, delta) {
        DivMod(row1[k] + product[k], q);
        DecodeWordIs(q, p, delta, coeff);
      }
      out := out + [DecodeWord(coeff, delta, p)];
    }
  }

  lemma PhaseEntry(q: int, a: Poly, b: Poly, s: Poly, k: nat)
    requires q > 0 && |a| == |b| == |s| && k < |s|
    ensures Phase(q, Pair(a, b), s)[k] == (b[k] + Mul(q, a, s)[k]) % q
  {
    hide Mul;
  }

  lemma DecodeIs(x: int, delta: int, p: int)
    requires delta > 0 && p > 0
    ensures Decode(x, delta, p) == ((x + delta / 2) / delta) % p
  {
  }

  // ----- a whole block -----

  /** The CRS rows of a block: the hint columns of its d database columns. */
  function HintRows(q: int, d: nat, polys: seq<Poly>, columns: seq<seq<int>>): (r: seq<seq<int>>)
    requires q > 0 && d > 0 && (forall b :: 0 <= b < |polys| ==> |polys[b]| == d)
    requires forall k :: 0 <= k < |columns| ==> |columns[k]| == |polys| * d
    ensures |r| == |columns| && RowsShape(d, r)
    ensures forall k :: 0 <= k < |columns| ==> r[k] == HintTo(q, d, polys, columns[k], |polys|) && |r[k]| == d
  {
    seq(|columns|, k requires 0 <= k < |columns| => HintTo(q, d, polys, columns[k], |polys|))
  }

  /** The first-dimension answers of a block. */
  function Answers(q: int, query: seq<int>, columns: seq<seq<int>>): (r: seq<int>)
    requires q > 0 && forall k :: 0 <= k < |columns| ==> |columns[k]| == |query|
    ensures |r| == |columns| && forall k :: 0 <= k < |columns| ==> r[k] == Inner(query, columns[k], |query|) % q
  {
    seq(|columns|, k requires 0 <= k < |columns| => Inner(query, columns[k], |query|) % q)
  }

  predicate ColumnsOk(p: int, rows: nat, columns: seq<seq<int>>) {
    forall k :: 0 <= k < |columns| ==> |columns[k]| == rows && forall i :: 0 <= i < rows ==> 0 <= columns[k][i] < p
  }

  lemma ColumnAt(q: int, p: int, rows: nat, columns: seq<seq<int>>, k: nat)
    requires ColumnsOk(p, rows, columns) && k < |columns| && p <= q
    ensures |columns[k]| == rows && Canon(q, columns[k]) && forall i :: 0 <= i < rows ==> 0 <= columns[k][i] < p
  {
  }

  lemma ColumnSizes(p: int, rows: nat, columns: seq<seq<int>>)
    requires ColumnsOk(p, rows, columns)
    ensures forall k :: 0 <= k < |columns| ==> |columns[k]| == rows
  {
  }

  /** The packed message of column k is Delta * db[target] plus the query error, modulo q. */
  lemma MessageEntry(q: int, d: nat, delta: int, target: nat, polys: seq<Poly>, s: Poly, query: seq<int>, errs: seq<int>,
                     columns: seq<seq<int>>, k: nat)
    requires q > 0 && d > 0 && |s| == d && Canon(q, s) && QueryHolds(q, d, delta, target, polys, s, query, errs)
    requires k < |columns| && (forall i :: 0 <= i < |columns| ==> |columns[i]| == |polys| * d)
    requires Canon(q, columns[k]) && target < |polys| * d
    ensures |query| == |errs| == |polys| * d && forall b :: 0 <= b < |polys| ==> |polys[b]| == d
    ensures Message(q, LwesOf(HintRows(q, d, polys, columns), Answers(q, query, columns)), s)[k]
            == (delta * columns[k][target] + Inner(errs, columns[k], |polys| * d)) % q
  {
    hide *;
    QueryShape(q, d, delta, target, polys, s, query, errs);
    var rows, bs := HintRows(q, d, polys, columns), Answers(q, query, columns);
    ColumnPhase(q, d, delta, target, polys, s, query, errs, columns[k]);
    ModAdd(Inner(rows[k], s, d), Inner(query, columns[k], |query|), q);
  }

  /** The total error of coefficient k: query errors times entries, packing errors, transport rounding. */
  function TotalError(S: Setting, dInv: int, kg: Key, kh: Key, eg: seq<Poly>, eh: seq<Poly>,
                      rows: seq<seq<int>>, bs: seq<int>, errs: seq<int>, column: seq<int>, u: Poly, k: nat): (r: int)
    requires S.Ok() && S.d >= 2 && PowerOfTwo(S.d) && |rows| == |bs| == S.d && RowsShape(S.d, rows)
    requires PackOk(S, kg, kh, AAgg(S.q, S.d, dInv, rows)) && Elem(S.q, S.d, BTilde(S.q, bs)) && RowOk(S, eg) && RowOk(S, eh)
    requires |errs| == |column| && |u| == S.d && k < S.d
  {
    Inner(errs, column, |column|) + PackError(S, kg, kh, AAgg(S.q, S.d, dInv, rows), BTilde(S.q, bs), eg, eh)[k] + u[k]
  }

  lemma CentredShift(q: int, x: int, total: int)
    requires q > 0
    ensures (x + total) % q == (x + L.Centered(total % q, q)) % q
  {
    var c := L.Centered(total % q, q);
    L.CenteredAgrees(total % q, q);
    ModAdd(total, 0, q);
    ModSum(x, x, total, c, q);
  }

  /** Message, packing error and rounding add up to one shift by the centred total. */
  lemma FinalValue(q: int, base: int, a: int, e: int, u: int, message: int, phase: int, value: int)
    requires q > 0 && message == (base + a) % q && phase == (message + e) % q && value == (phase + u) % q
    ensures value == (base + L.Centered((a + e + u) % q, q)) % q
  {
    AddLeft(base + a, e, q);
    AddLeft(base + a + e, u, q);
    CentredShift(q, base, a + e + u);
    assert base + a + e + u == base + (a + e + u);
  }

  /** Retrieval: whenever the total centred error of a coefficient is below Delta / 2, decoding the packed
      (and possibly rounded) answer returns the target row's entry of that column. */
  lemma RowRetrieved(S: Setting, dInv: int, p: int, kg: Key, kh: Key, s: Poly, eg: seq<Poly>, eh: seq<Poly>,
                     target: nat, polys: seq<Poly>, query: seq<int>, errs: seq<int>, columns: seq<seq<int>>, u: Poly, k: nat)
    requires S.Ok() && S.d >= 2 && PowerOfTwo(S.d) && Inverses(S.q, S.d, dInv) && KeysHide(S, kg, kh, s, eg, eh)
    requires 0 < p <= S.q && |s| == S.d && QueryHolds(S.q, S.d, S.q / p, target, polys, s, query, errs)
    requires |columns| == S.d && ColumnsOk(p, |polys| * S.d, columns) && target < |polys| * S.d
    requires |u| == S.d && k < S.d
    requires S.q % p <= S.q / p - (S.q / p) / 2
    ensures |query| == |errs| == |polys| * S.d == |columns[k]|
    ensures (forall b :: 0 <= b < |polys| ==> |polys[b]| == S.d) && forall i :: 0 <= i < |columns| ==> |columns[i]| == |polys| * S.d
    ensures var rows, bs := HintRows(S.q, S.d, polys, columns), Answers(S.q, query, columns);
            && Shaped(S.q, S.d, S.ell, kg) && Shaped(S.q, S.d, S.ell, kh) && RowOk(S, eg) && RowOk(S, eh)
            && PackOk(S, kg, kh, AAgg(S.q, S.d, dInv, rows)) && Elem(S.q, S.d, BTilde(S.q, bs))
            && (2 * L.Abs(L.Centered(TotalError(S, dInv, kg, kh, eg, eh, rows, bs, errs, columns[k], u, k) % S.q, S.q)) < S.q / p ==>
                S.q / p > 0
                && Decode(Add(S.q, Phase(S.q, PackBatch(S, dInv, kg, kh, rows, bs), s), u)[k], S.q / p, p)
                   == columns[k][target])
  {
    hide *;
    SettingSizes(S);
    KeysHideParts(S, kg, kh, s, eg, eh);
    ElemSize(S.q, S.d, s);
    QueryShape(S.q, S.d, S.q / p, target, polys, s, query, errs);
    ColumnSizes(p, |polys| * S.d, columns);
    ColumnAt(S.q, p, |polys| * S.d, columns, k);
    ScalingParts(S.q, p);
    var rows, bs := HintRows(S.q, S.d, polys, columns), Answers(S.q, query, columns);
    PackingCorrect(S, dInv, kg, kh, rows, bs, s, eg, eh);
    MessageEntry(S.q, S.d, S.q / p, target, polys, s, query, errs, columns, k);
    BlockDecodes(S, dInv, p, kg, kh, eg, eh, rows, bs, errs, columns[k], target, u, k,
                 Phase(S.q, PackBatch(S, dInv, kg, kh, rows, bs), s), Message(S.q, LwesOf(rows, bs), s));
  }

  /** From the packed phase to the decoded entry. */
  lemma BlockDecodes(S: Setting, dInv: int, p: int, kg: Key, kh: Key, eg: seq<Poly>, eh: seq<Poly>,
                     rows: seq<seq<int>>, bs: seq<int>, errs: seq<int>, column: seq<int>, target: nat, u: Poly, k: nat,
                     phase: Poly, message: Poly)
    requires S.Ok() && S.d >= 2 && PowerOfTwo(S.d) && |rows| == |bs| == S.d && RowsShape(S.d, rows)
    requires PackOk(S, kg, kh, AAgg(S.q, S.d, dInv, rows)) && Elem(S.q, S.d, BTilde(S.q, bs)) && RowOk(S, eg) && RowOk(S, eh)
    requires |errs| == |column| && |u| == S.d && k < S.d && target < |column| && |phase| == |message| == S.d
    requires 0 < p <= S.q && S.q % p <= S.q / p - (S.q / p) / 2 && 0 <= column[target] < p && S.q / p >= 1
    requires phase == Add(S.q, message, PackError(S, kg, kh, AAgg(S.q, S.d, dInv, rows), BTilde(S.q, bs), eg, eh))
    requires message[k] == (S.q / p * column[target] + Inner(errs, column, |column|)) % S.q
    ensures 2 * L.Abs(L.Centered(TotalError(S, dInv, kg, kh, eg, eh, rows, bs, errs, column, u, k) % S.q, S.q)) < S.q / p ==>
              Decode(Add(S.q, phase, u)[k], S.q / p, p) == column[target]
  {
    hide *;
    SettingSizes(S);
    var err := PackError(S, kg, kh, AAgg(S.q, S.d, dInv, rows), BTilde(S.q, bs), eg, eh);
    AddEntry(S.q, message, err, k);
    AddEntry(S.q, phase, u, k);
    var delta, m, a := S.q / p, column[target], Inner(errs, column, |column|);
    TotalErrorIs(S, dInv, kg, kh, eg, eh, rows, bs, errs, column, u, k);
    EntryDecodes(S.q, p, m, a, err[k], u[k], message[k], phase[k], Add(S.q, phase, u)[k]);
  }

  lemma EntryDecodes(q: int, p: int, m: int, a: int, e: int, u: int, message: int, phase: int, value: int)
    requires 0 < p <= q && q / p >= 1 && q % p <= q / p - (q / p) / 2 && 0 <= m < p
    requires message == (q / p * m + a) % q && phase == (message + e) % q && value == (phase + u) % q
    ensures 2 * L.Abs(L.Centered((a + e + u) % q, q)) < q / p ==> Decode(value, q / p, p) == m
  {
    hide *;
    FinalValue(q, q / p * m, a, e, u, message, phase, value);
    if 2 * L.Abs(L.Centered((a + e + u) % q, q)) < q / p {
      DecodeRecovers(q, p, q / p, m, L.Centered((a + e + u) % q, q));
    }
  }

  lemma TotalErrorIs(S: Setting, dInv: int, kg: Key, kh: Key, eg: seq<Poly>, eh: seq<Poly>,
                     rows: seq<seq<int>>, bs: seq<int>, errs: seq<int>, column: seq<int>, u: Poly, k: nat)
    requires S.Ok() && S.d >= 2 && PowerOfTwo(S.d) && |rows| == |bs| == S.d && RowsShape(S.d, rows)
    requires PackOk(S, kg, kh, AAgg(S.q, S.d, dInv, rows)) && Elem(S.q, S.d, BTilde(S.q, bs)) && RowOk(S, eg) && RowOk(S, eh)
    requires |errs| == |column| && |u| == S.d && k < S.d
    ensures TotalError(S, dInv, kg, kh, eg, eh, rows, bs, errs, column, u, k)
            == Inner(errs, column, |column|)
               + PackError(S, kg, kh, AAgg(S.q, S.d, dInv, rows), BTilde(S.q, bs), eg, eh)[k] + u[k]
  {
  }
}
