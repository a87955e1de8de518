/** Retrieval from a noise budget: a condition on parameters and error bounds alone. */
module Budget {
  import opened Modular
  import opened Ring
  import opened Galois
  import opened KeySwitch
  import opened Intermediate
  import opened Collapse
  import opened Packing
  import opened SimplePir
  import opened Retrieval
  import opened NoiseBound

  lemma TermWithin(q: int, x: int, y: int, E: int, M: int)
    requires q > 0 && Mag(q, x) <= E && 0 <= y <= M
    ensures Mag(q, x * y) <= E * M
  {
    hide Mag;
    var u := L.Centered(x % q, q);
    MagAttained(q, x);
    SameIs(q, x, u);
    MulLeft(x, y, q);
    MulLeft(u, y, q);
    SameIs(q, x * y, u * y);
    MagLeast(q, x * y, u * y);
    L.AbsProduct(u, y, E, M);
  }

  /** An inner product with plaintexts at most M is at most n E M. */
  lemma {:induction false} InnerWithin(q: int, errs: Poly, column: seq<int>, E: int, M: int, n: nat)
    requires q > 0 && n <= |errs| && n <= |column| && Within(q, errs, E)
    requires forall i :: 0 <= i < |column| ==> 0 <= column[i] <= M
    ensures Mag(q, Inner(errs, column, n)) <= n * (E * M)
  {
    hide Mag;
    if n == 0 {
      MagZero(q);
      InnerNil(errs, column);
    } else {
      InnerWithin(q, errs, column, E, M, n - 1);
      InnerStep(errs, column, n - 1);
      WithinAt(q, errs, E, n - 1);
      TermWithin(q, errs[n - 1], column[n - 1], E, M);
      MagSum(q, Inner(errs, column, n - 1), errs[n - 1] * column[n - 1]);
      Distribute(n - 1, 1, E * M);
    }
  }

  /** The three contributions of TotalError. */
  lemma TotalWithin(q: int, x: int, y: int, z: int, A: int, B: int, C: int)
    requires q > 0 && Mag(q, x) <= A && Mag(q, y) <= B && Mag(q, z) <= C
    ensures Mag(q, x + y + z) <= A + B + C
  {
    hide Mag;
    MagSum(q, x, y);
    MagSum(q, x + y, z);
  }

  lemma MagIs(q: int, x: int)
    requires q > 0
    ensures Mag(q, x) == L.Abs(L.Centered(x % q, q))
  {
  }

  /** Query errors of magnitude E against rows of plaintexts below p, packing errors from key errors of magnitude B, and
      transport rounding of magnitude U: whenever together they stay below half a step, the target entry comes back. */
  lemma RetrievedWithinBudget(S: Setting, dInv: int, p: int, kg: Key, kh: Key, s: Poly, eg: seq<Poly>, eh: seq<Poly>,
                              target: nat, polys: seq<Poly>, query: seq<int>, errs: seq<int>, columns: seq<seq<int>>,
                              u: Poly, k: nat, E: int, B: int, U: int)
    requires S.Ok() && S.q > 0 && S.d >= 2 && PowerOfTwo(S.d) && Inverses(S.q, S.d, dInv) && KeysHide(S, kg, kh, s, eg, eh)
    requires 0 < p <= S.q && |s| == S.d && QueryHolds(S.q, S.d, S.q / p, target, polys, s, query, errs)
    requires |columns| == S.d && ColumnsOk(p, |polys| * S.d, columns) && target < |polys| * S.d
    requires |u| == S.d && k < S.d
    requires S.q % p <= S.q / p - (S.q / p) / 2
    requires Within(S.q, errs, E) && AllWithin(S.q, eg, B) && AllWithin(S.q, eh, B) && B >= 0 && Within(S.q, u, U)
    requires 2 * (|polys| * S.d * (E * (p - 1)) + (S.d - 1) * (S.d * (B * ((S.ell + 1) * (S.z / 2)))) + U) < S.q / p
    ensures S.q / p > 0 && |columns[k]| == |query| == |polys| * S.d
    ensures (forall b :: 0 <= b < |polys| ==> |polys[b]| == S.d) && forall i :: 0 <= i < |columns| ==> |columns[i]| == |polys| * S.d
    ensures Shaped(S.q, S.d, S.ell, kg) && Shaped(S.q, S.d, S.ell, kh)
    ensures Decode(Add(S.q, Phase(S.q, PackBatch(S, dInv, kg, kh, HintRows(S.q, S.d, polys, columns),
                                                 Answers(S.q, query, columns)), s), u)[k], S.q / p, p)
            == columns[k][target]
  {
    hide *;
    ScalingParts(S.q, p);
    RowRetrieved(S, dInv, p, kg, kh, s, eg, eh, target, polys, query, errs, columns, u, k);
    ColumnAt(S.q, p, |polys| * S.d, columns, k);
    var rows, bs := HintRows(S.q, S.d, polys, columns), Answers(S.q, query, columns);
    var a, b := AAgg(S.q, S.d, dInv, rows), BTilde(S.q, bs);
    var n, err := |polys| * S.d, PackError(S, kg, kh, a, b, eg, eh);
    PackErrorBound(S, kg, kh, a, b, eg, eh, B);
    PackBoundIs(S, B);
    TotalErrorIs(S, dInv, kg, kh, eg, eh, rows, bs, errs, columns[k], u, k);
    InnerWithin(S.q, errs, columns[k], E, p - 1, n);
    WithinAt(S.q, err, PackBound(S, B), k);
    WithinAt(S.q, u, U, k);
    TotalWithin(S.q, Inner(errs, columns[k], n), err[k], u[k], n * (E * (p - 1)), PackBound(S, B), U);
    MagIs(S.q, Inner(errs, columns[k], n) + err[k] + u[k]);
  }
}
