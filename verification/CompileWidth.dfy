/** Machine widths of the naive compiler's schoolbook product (reinspiring/src/compile.rs). */
module CompileWidth {
  import opened Modular
  import opened MachineWords
  import opened Ring
  import opened RingLaws
  import opened Ntt
  import C = Compile

  lemma TermBound(a: Poly, b: Poly, q: int, x: nat, i: nat)
    requires q > 0 && |a| == |b| && i < |a|
    ensures 0 <= C.RawTerm(a, b, q, x, i) <= (q - 1) * (q - 1)
  {
    if i <= x < i + |b| {
      DivMod(a[i], q);
      DivMod(b[x - i], q);
      Corner(a[i] % q, b[x - i] % q, q - 1);
    } else {
      ProductNonNegative(q - 1, q - 1);
    }
  }

  lemma Corner(x: int, y: int, m: int)
    requires 0 <= x <= m && 0 <= y <= m
    ensures 0 <= x * y <= m * m
  {
    ProductNonNegative(x, y);
    ProductOrder(x, m, y);
    ProductOrder(y, m, m);
    Commute(m, y);
  }

  lemma NextMultiple(n: int, p: int)
    ensures (n + 1) * p == n * p + p && 0 * p == 0
  {
  }

  /** Partial sums of the double-length product grow by at most (q-1)^2 per row. */
  lemma {:induction false} RawBound(a: Poly, b: Poly, q: int, x: nat, n: nat)
    requires q > 0 && |a| == |b| && n <= |a|
    ensures 0 <= C.RawSum(a, b, q, x, n) <= n * ((q - 1) * (q - 1))
  {
    hide C.RawTerm, C.RawSum;
    if n == 0 {
      NextMultiple(0, (q - 1) * (q - 1));
      RawNil(a, b, q, x);
    } else {
      RawBound(a, b, q, x, n - 1);
      C.RawSumStep(a, b, q, x, n - 1);
      TermBound(a, b, q, x, n - 1);
      NextMultiple(n - 1, (q - 1) * (q - 1));
    }
  }

  lemma RawNil(a: Poly, b: Poly, q: int, x: nat)
    requires q > 0 && |a| == |b|
    ensures C.RawSum(a, b, q, x, 0) == 0
  {
  }

  /** The operand whose coefficients are all q - 1. */
  function Largest(q: int, d: nat): (r: Poly)
    ensures |r| == d && forall i :: 0 <= i < d ==> r[i] == q - 1
  {
    seq(d, _ => q - 1)
  }

  /** It meets the bound in the middle entry. */
  lemma {:induction false} RawLargest(q: int, d: nat, n: nat)
    requires q > 0 && 0 < d && n <= d
    ensures C.RawSum(Largest(q, d), Largest(q, d), q, d - 1, n) == n * ((q - 1) * (q - 1))
  {
    hide C.RawSum;
    var a := Largest(q, d);
    if n == 0 {
      NextMultiple(0, (q - 1) * (q - 1));
      RawNil(a, a, q, d - 1);
    } else {
      RawLargest(q, d, n - 1);
      C.RawSumStep(a, a, q, d - 1, n - 1);
      ModSmall(q - 1, q);
      NextMultiple(n - 1, (q - 1) * (q - 1));
    }
  }

  /** No partial sum of the product of a and b reaches 2^127. */
  ghost predicate Fits(a: Poly, b: Poly, q: int)
    requires q > 0 && |a| == |b|
  {
    forall x: nat, n: nat :: n <= |a| ==> C.RawSum(a, b, q, x, n) < I128
  }

  /** The signed 128-bit buffer is wide enough for every pair of operands exactly when d (q-1)^2 is below 2^127. */
  lemma SchoolbookFits(q: int, d: nat)
    requires q > 0 && d > 0
    ensures d * ((q - 1) * (q - 1)) < I128 <==> forall a: Poly, b: Poly :: |a| == |b| == d ==> Fits(a, b, q)
  {
    hide C.RawSum;
    var p := (q - 1) * (q - 1);
    ProductNonNegative(q - 1, q - 1);
    if d * p < I128 {
      forall a: Poly, b: Poly, x: nat, n: nat | |a| == |b| == d && n <= d
        ensures C.RawSum(a, b, q, x, n) < I128
      {
        RawBound(a, b, q, x, n);
        ProductOrder(n, d, p);
      }
    } else {
      var a := Largest(q, d);
      RawLargest(q, d, d);
      assert !Fits(a, a, q);
    }
  }

  /** Against a power of X the rows do not overlap, so one product bounds the sum. */
  lemma {:induction false} MonomialRaw(t: Poly, q: int, k: int, x: nat, n: nat)
    requires q > 0 && |t| > 0 && n <= |t|
    ensures var j := SlotOf(|t|, k);
            0 <= C.RawSum(t, Mono(q, |t|, k), q, x, n) <= if j <= x < j + n then (q - 1) * (q - 1) else 0
  {
    hide C.RawSum, Mono, SlotOf;
    var d, b := |t|, Mono(q, |t|, k);
    SlotRange(d, k);
    ProductNonNegative(q - 1, q - 1);
    if n == 0 {
      RawNil(t, b, q, x);
    } else {
      MonomialRaw(t, q, k, x, n - 1);
      C.RawSumStep(t, b, q, x, n - 1);
      TermBound(t, b, q, x, n - 1);
      if n - 1 <= x < n - 1 + d {
        MonoEntries(q, d, k, x - (n - 1));
        MonoZero(t, b, q, x, n - 1);
      }
    }
  }

  lemma SlotRange(d: nat, k: int)
    requires d > 0
    ensures 0 <= SlotOf(d, k) < d
  {
  }

  lemma MonoZero(t: Poly, b: Poly, q: int, x: nat, i: nat)
    requires q > 0 && |t| == |b| && i < |t| && i <= x < i + |b|
    ensures b[x - i] == 0 ==> C.RawTerm(t, b, q, x, i) == 0
  {
    if b[x - i] == 0 {
      ModSmall(0, q);
    }
  }

  /** The largest operand against X^d = -1 has (q-1)^2 as its first term. */
  lemma LargestNegated(q: int, d: nat)
    requires q > 0 && d > 0
    ensures C.RawSum(Largest(q, d), Mono(q, d, d), q, 0, 1) == (q - 1) * (q - 1)
  {
    hide C.RawSum, Mono;
    var t, b := Largest(q, d), Mono(q, d, d);
    RawNil(t, b, q, 0);
    C.RawSumStep(t, b, q, 0, 0);
    MonoEntries(q, d, d, 0);
    ModSmall(d, 2 * d);
    ModMultiple(-1, 1, q);
    ModSmall(q - 1, q);
    assert t[0] == q - 1 && b[0] == q - 1;
  }

  /** The products compile_naive_fused forms, against powers of X, fit for every operand exactly when (q-1)^2 is below
      2^127, whatever the degree. */
  lemma NaiveFusedFits(q: int, d: nat)
    requires q > 0 && d > 0
    ensures (q - 1) * (q - 1) < I128 <==> forall t: Poly, k: int :: |t| == d ==> Fits(t, Mono(q, d, k), q)
  {
    hide C.RawSum, Mono, SlotOf;
    if (q - 1) * (q - 1) < I128 {
      forall t: Poly, k: int, x: nat, n: nat | |t| == d && n <= d
        ensures C.RawSum(t, Mono(q, d, k), q, x, n) < I128
      {
        MonomialRaw(t, q, k, x, n);
      }
    } else {
      LargestNegated(q, d);
      assert !Fits(Largest(q, d), Mono(q, d, d), q);
    }
  }
}
