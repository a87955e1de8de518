/** Compile: the matrix of y -> sum t_i * tau_i(y), three ways (reinspiring/src/compile.rs). */
module Compile {
  import opened Wrappers
  import opened Modular
  import opened MachineWords
  import opened Ring
  import opened RingLaws
  import opened Galois
  import opened RingFft

  // ----- what the matrix is -----

  /** Column c: sum of t_i * X^(c g_i), the image of the basis element X^c. */
  function Column(q: int, d: nat, ts: seq<Poly>, gs: seq<int>, c: int, n: nat): (r: Poly)
    requires q > 0 && d > 0 && Sized(d, ts) && n <= |ts| && n <= |gs|
    ensures |r| == d && Canon(q, r)
  {
    if n == 0 then Zero(d) else Add(q, Column(q, d, ts, gs, c, n - 1), Shift(q, ts[n - 1], c * gs[n - 1]))
  }

  lemma ColumnNil(q: int, d: nat, ts: seq<Poly>, gs: seq<int>, c: int)
    requires q > 0 && d > 0 && Sized(d, ts)
    ensures Column(q, d, ts, gs, c, 0) == Zero(d)
  {
  }

  lemma ColumnStep(q: int, d: nat, ts: seq<Poly>, gs: seq<int>, c: int, n: nat)
    requires q > 0 && d > 0 && Sized(d, ts) && n < |ts| && n < |gs|
    ensures |ts[n]| == d
    ensures Column(q, d, ts, gs, c, n + 1) == Add(q, Column(q, d, ts, gs, c, n), Shift(q, ts[n], c * gs[n]))
  {
  }

  /** sum of t_i * tau_i(y). */
  function ImageProducts(q: int, d: nat, ts: seq<Poly>, gs: seq<int>, y: Poly, n: nat): (r: Poly)
    requires q > 0 && d > 0 && Sized(d, ts) && n <= |ts| && n <= |gs| && |y| == d
    ensures |r| == d && Canon(q, r)
  {
    if n == 0 then Zero(d)
    else Add(q, ImageProducts(q, d, ts, gs, y, n - 1), Mul(q, ts[n - 1], Tau(q, y, gs[n - 1])))
  }

  function Columns(q: int, d: nat, ts: seq<Poly>, gs: seq<int>, n: nat): (r: seq<Poly>)
    requires q > 0 && d > 0 && Sized(d, ts) && n <= |ts| && n <= |gs|
    ensures |r| == d && forall c :: 0 <= c < d ==> |r[c]| == d && r[c] == Column(q, d, ts, gs, c, n)
  {
    seq(d, c => Column(q, d, ts, gs, c, n))
  }

  /** t, t X^g, t X^(2g), ... */
  function MonoProducts(q: int, t: Poly, g: int): (r: seq<Poly>)
    requires q > 0 && |t| > 0
    ensures |r| == |t| && forall c :: 0 <= c < |t| ==> |r[c]| == |t| && r[c] == Shift(q, t, c * g)
  {
    seq(|t|, c => Shift(q, t, c * g))
  }

  lemma CombMonoProducts(q: int, t: Poly, g: int, y: Poly)
    requires q > 0 && |t| == |y| > 0 && Canon(q, t)
    ensures Comb(q, |t|, y, MonoProducts(q, t, g), |t|) == Mul(q, t, Tau(q, y, g))
  {
    hide Comb, Powers, MonoProducts, Mono, Mul, Shift;
    var d := |t|;
    forall c | 0 <= c < d
      ensures MonoProducts(q, t, g)[c] == Mul(q, t, Powers(q, d, g)[c])
    {
      PowersAt(q, d, g, c);
      MulMono(q, t, c * g);
    }
    MulCombRight(q, d, t, y, Powers(q, d, g), MonoProducts(q, t, g), d);
  }

  /** The compiled matrix applied to y is the sum of t_i * tau_i(y), for every y. */
  lemma {:induction false} MatrixMeaning(q: int, d: nat, ts: seq<Poly>, gs: seq<int>, y: Poly, n: nat)
    requires q > 0 && d > 0 && Sized(d, ts) && n <= |ts| && n <= |gs| && |y| == d
    requires forall i :: 0 <= i < n ==> Canon(q, ts[i])
    ensures Comb(q, d, y, Columns(q, d, ts, gs, n), d) == ImageProducts(q, d, ts, gs, y, n)
  {
    hide *;
    if n == 0 {
      ImageProductsStep(q, d, ts, gs, y, 0);
      forall c | 0 <= c < d
        ensures Columns(q, d, ts, gs, 0)[c] == Zero(d)
      {
        ColumnNil(q, d, ts, gs, c);
      }
      CombOfZeros(q, d, y, Columns(q, d, ts, gs, 0), d);
    } else {
      var m := n - 1;
      MatrixMeaning(q, d, ts, gs, y, m);
      SizedAt(d, ts, m);
      forall c | 0 <= c < d
        ensures Columns(q, d, ts, gs, n)[c] == Add(q, Columns(q, d, ts, gs, m)[c], MonoProducts(q, ts[m], gs[m])[c])
      {
        ColumnStep(q, d, ts, gs, c, m);
      }
      CombAdd(q, d, y, Columns(q, d, ts, gs, m), MonoProducts(q, ts[m], gs[m]), Columns(q, d, ts, gs, n), d);
      CombMonoProducts(q, ts[m], gs[m], y);
      ImageProductsStep(q, d, ts, gs, y, n);
    }
  }

  lemma SizedAt(d: nat, ts: seq<Poly>, i: nat)
    requires Sized(d, ts) && i < |ts|
    ensures |ts[i]| == d
  {
  }

  lemma ImageProductsStep(q: int, d: nat, ts: seq<Poly>, gs: seq<int>, y: Poly, n: nat)
    requires q > 0 && d > 0 && Sized(d, ts) && n <= |ts| && n <= |gs| && |y| == d
    ensures n == 0 ==> ImageProducts(q, d, ts, gs, y, 0) == Zero(d)
    ensures n > 0 ==> |ts[n - 1]| == d
                      && ImageProducts(q, d, ts, gs, y, n)
                         == Add(q, ImageProducts(q, d, ts, gs, y, n - 1), Mul(q, ts[n - 1], Tau(q, y, gs[n - 1])))
  {
  }

  // ----- the generating polynomial -----

  /** sum of X^((2i+1) c) * ph[i]: the generating polynomial at X^(2c), times X^c. */
  function GenEval(q: int, d: nat, ph: seq<Poly>, c: int, n: nat): (r: Poly)
    requires q > 0 && d > 0 && Sized(d, ph) && n <= |ph|
    ensures |r| == d && Canon(q, r)
  {
    if n == 0 then Zero(d) else Add(q, GenEval(q, d, ph, c, n - 1), Shift(q, ph[n - 1], (2 * (n - 1) + 1) * c))
  }

  lemma GenEvalNil(q: int, d: nat, ph: seq<Poly>, c: int)
    requires q > 0 && d > 0 && Sized(d, ph)
    ensures GenEval(q, d, ph, c, 0) == Zero(d)
  {
  }

  lemma GenEvalStep(q: int, d: nat, ph: seq<Poly>, c: int, n: nat)
    requires q > 0 && d > 0 && Sized(d, ph) && n < |ph|
    ensures |ph[n]| == d
    ensures GenEval(q, d, ph, c, n + 1) == Add(q, GenEval(q, d, ph, c, n), Shift(q, ph[n], (2 * n + 1) * c))
  {
  }

  /** The transform at X^(2c), shifted by c, is that evaluation. */
  lemma {:induction false} ShiftedDft(q: int, d: nat, ph: seq<Poly>, c: int, n: nat)
    requires q > 0 && d > 0 && Sized(d, ph) && n <= |ph|
    ensures Shift(q, Dft(q, d, ph, 2, c, n), c) == GenEval(q, d, ph, c, n)
  {
    hide *;
    if n == 0 {
      DftNil(q, d, ph, 2, c);
      GenEvalNil(q, d, ph, c);
      ShiftOfZero(q, d, c);
    } else {
      var m := n - 1;
      ShiftedDft(q, d, ph, c, m);
      DftStep(q, d, ph, 2, c, m);
      GenEvalStep(q, d, ph, c, m);
      ShiftAdd(q, Dft(q, d, ph, 2, c, m), Shift(q, ph[m], 2 * m * c), c);
      ShiftShift(q, ph[m], 2 * m * c, c);
      Distribute(2 * m, 1, c);
    }
  }

  lemma {:induction false} GenEvalZeros(q: int, d: nat, ph: seq<Poly>, c: int, n: nat)
    requires q > 0 && d > 0 && Sized(d, ph) && n <= |ph| && forall i :: 0 <= i < n ==> ph[i] == Zero(d)
    ensures GenEval(q, d, ph, c, n) == Zero(d)
  {
    hide *;
    if n == 0 {
      GenEvalNil(q, d, ph, c);
    } else {
      GenEvalZeros(q, d, ph, c, n - 1);
      GenEvalStep(q, d, ph, c, n - 1);
      ShiftOfZero(q, d, (2 * (n - 1) + 1) * c);
      ZeroCanon(q, d);
      AddZero(q, Zero(d));
    }
  }

  /** Adding t into entry j adds t X^((2j+1) c). */
  lemma {:induction false} GenEvalUpdate(q: int, d: nat, ph: seq<Poly>, rh: seq<Poly>, j: nat, t: Poly, c: int, n: nat)
    requires q > 0 && d > 0 && Sized(d, ph) && Sized(d, rh) && |ph| == |rh| && n <= |ph| && j < |ph| && |t| == d
    requires |ph[j]| == d && rh == ph[j := Add(q, ph[j], t)]
    ensures GenEval(q, d, rh, c, n)
            == if j < n then Add(q, GenEval(q, d, ph, c, n), Shift(q, t, (2 * j + 1) * c)) else GenEval(q, d, ph, c, n)
  {
    hide *;
    if n == 0 {
      GenEvalNil(q, d, ph, c);
      GenEvalNil(q, d, rh, c);
    } else {
      var m := n - 1;
      GenEvalUpdate(q, d, ph, rh, j, t, c, m);
      GenEvalStep(q, d, ph, c, m);
      GenEvalStep(q, d, rh, c, m);
      var x, e := GenEval(q, d, ph, c, m), Shift(q, t, (2 * j + 1) * c);
      var y := Shift(q, ph[m], (2 * m + 1) * c);
      if j == m {
        ShiftAdd(q, ph[m], t, (2 * m + 1) * c);
        AddAssoc(q, x, y, e);
      } else if j < m {
        AddAssoc(q, x, e, y);
        AddComm(q, e, y);
        AddAssoc(q, x, y, e);
      }
    }
  }

  // ----- the fast compiler -----

  /** Entry r of X^j * p, read as the tiled transpose does. */
  lemma TileEntry(q: int, p: Poly, j: nat, r: nat)
    requires q > 0 && WORD % q == 0 && j < |p| && r < |p|
    ensures (r + |p| - j) % |p| < |p|
    ensures var x := p[(r + |p| - j) % |p|];
            (if r < j then Wrap(-x) else x) % q == Shift(q, p, j)[r]
  {
    var d := |p|;
    if r < j {
      ModSmall(r + d - j, d);
      ExtInside(p, r + d - j);
      ExtAnti(p, r - j);
      WrapMod(-p[r + d - j], q);
    } else {
      ModMultiple(r - j, 1, d);
      ModSmall(r - j, d);
      ExtInside(p, r - j);
    }
  }

  /** Column j of the power-of-two output, tile by tile of 32 rows and 32 columns. */
  method TiledTranspose(a: array<Poly>, q: int) returns (m: array2<int>)
    requires q > 0 && WORD % q == 0 && a.Length > 0
    requires forall x :: 0 <= x < a.Length ==> |a[x]| == a.Length
    ensures fresh(m) && m.Length0 == m.Length1 == a.Length
    ensures forall r, c :: 0 <= r < a.Length && 0 <= c < a.Length ==> m[r, c] == Shift(q, a[c], c)[r]
  {
    hide Shift;
    var d := a.Length;
    m := new int[d, d];
    var first := 0;
    while first < d
      invariant 0 <= first
      invariant forall r, c :: 0 <= r < first && r < d && 0 <= c < d ==> m[r, c] == Shift(q, a[c], c)[r]
    {
      var last := if first + 32 < d then first + 32 else d;
      var colStart := 0;
      while colStart < d
        invariant 0 <= colStart
        invariant forall r, c :: 0 <= r < first && 0 <= c < d ==> m[r, c] == Shift(q, a[c], c)[r]
        invariant forall r, c :: first <= r < last && 0 <= c < colStart && c < d ==> m[r, c] == Shift(q, a[c], c)[r]
      {
        var colEnd := if colStart + 32 < d then colStart + 32 else d;
        for j := colStart to colEnd
          invariant forall r, c :: 0 <= r < first && 0 <= c < d ==> m[r, c] == Shift(q, a[c], c)[r]
          invariant forall r, c :: first <= r < last && 0 <= c < j ==> m[r, c] == Shift(q, a[c], c)[r]
        {
          for r0 := first to last
            invariant forall r, c :: 0 <= r < first && 0 <= c < d ==> m[r, c] == Shift(q, a[c], c)[r]
            invariant forall r, c :: first <= r < last && 0 <= c < j ==> m[r, c] == Shift(q, a[c], c)[r]
            invariant forall r :: first <= r < r0 ==> m[r, j] == Shift(q, a[j], j)[r]
          {
            TileEntry(q, a[j], j, r0);
            var x := a[j][(r0 + d - j) % d];
            m[r0, j] := (if r0 < j then Wrap(-x) else x) % q;
          }
        }
        colStart := colStart + 32;
      }
      first := first + 32;
    }
  }

  /** shift_negacyclic, for a shift below the degree. */
  method ShiftNegacyclic(q: int, p: Poly, shift: nat) returns (out: array<int>)
    requires q > 0 && shift < |p|
    ensures fresh(out) && out[..] == Shift(q, p, shift)
  {
    var d := |p|;
    out := new int[d](_ => 0);
    ghost var want := Shift(q, p, shift);
    for i := 0 to d
      invariant forall t :: 0 <= t < d ==> out[t] == if shift <= t < shift + i || t < shift + i - d then want[t] else 0
    {
      RotateEntry(q, p, shift, i);
      hide *;
      var dst := WrapIndex(i + shift, d);
      var c := p[i] % q;
      SubRight(0, p[i], q);
      if i + shift >= d {
        NegateWord(q, c);
        c := (q - c) % q;
      }
      ModSmall(c, q);
      out[dst] := (out[dst] + c) % q;
    }
    assert out[..] == want;
  }

  /** compile_validated_fft. */
  method CompileValidatedFft(a: array<Poly>, q: int) returns (m: array2<int>)
    requires 0 < q <= WORD && a.Length >= 2 && PowerOfTwo(a.Length)
    requires forall x :: 0 <= x < a.Length ==> |a[x]| == a.Length && Canon(q, a[x])
    modifies a
    ensures Sized(a.Length, old(a[..]))
    ensures fresh(m) && m.Length0 == m.Length1 == a.Length
    ensures forall r, c :: 0 <= r < a.Length && 0 <= c < a.Length ==>
              m[r, c] == GenEval(q, a.Length, old(a[..]), c, a.Length)[r]
  {
    hide *;
    var d := a.Length;
    ghost var ph := a[..];
    RingFftInPlace(a, q);
    forall c | 0 <= c < d
      ensures |a[c]| == d && Shift(q, a[c], c) == GenEval(q, d, ph, c, d)
    {
      ShiftedDft(q, d, ph, c, d);
    }
    if PowerOfTwo(q) {
      WordPower();
      PowerDivides(q, WORD);
      m := TiledTranspose(a, q);
      return;
    }
    m := new int[d, d];
    for j := 0 to d
      invariant forall c :: 0 <= c < d ==> |a[c]| == d && Shift(q, a[c], c) == GenEval(q, d, ph, c, d)
      invariant forall r, c :: 0 <= r < d && 0 <= c < j ==> m[r, c] == GenEval(q, d, ph, c, d)[r]
    {
      var shifted := ShiftNegacyclic(q, a[j], j);
      ghost var col := GenEval(q, d, ph, j, d);
      assert shifted[..] == col;
      for i := 0 to d
        invariant forall c :: 0 <= c < d ==> |a[c]| == d && Shift(q, a[c], c) == GenEval(q, d, ph, c, d)
        invariant shifted[..] == col
        invariant forall r, c :: 0 <= r < d && 0 <= c < j ==> m[r, c] == GenEval(q, d, ph, c, d)[r]
        invariant forall r :: 0 <= r < i ==> m[r, j] == col[r]
      {
        m[i, j] := shifted[i];
      }
    }
  }

  /** Exactly the inputs compile_fast accepts. */
  predicate FastAccepts(ts: seq<Poly>, gs: seq<int>, q: int) {
    && |ts| > 0 && |ts| == |gs| && 2 <= q <= 0x4000_0000_0000_0000
    && 2 <= |ts[0]| <= 4096 && PowerOfTwo(|ts[0]|)
    && (forall i :: 0 <= i < |ts| ==> Elem(q, |ts[0]|, ts[i]))
    && (forall i :: 0 <= i < |gs| ==> gs[i] % 2 == 1 && 0 <= gs[i] < 2 * |ts[0]|)
  }

  lemma AcceptedSizes(ts: seq<Poly>, gs: seq<int>, q: int)
    requires FastAccepts(ts, gs, q)
    ensures |ts| == |gs| > 0 && Sized(|ts[0]|, ts) && 2 <= |ts[0]| && PowerOfTwo(|ts[0]|) && 2 <= q <= WORD
    ensures forall i :: 0 <= i < |ts| ==> Canon(q, ts[i]) && |ts[i]| == |ts[0]|
    ensures forall i :: 0 <= i < |gs| ==> 2 * ((gs[i] - 1) / 2) + 1 == gs[i] && 0 <= (gs[i] - 1) / 2 < |ts[0]|
  {
  }

  lemma AcceptedMeans(ts: seq<Poly>, gs: seq<int>, q: int)
    ensures FastAccepts(ts, gs, q) <==>
              && |ts| == |gs| > 0 && 2 <= q <= 0x4000_0000_0000_0000 && 2 <= |ts[0]| <= 4096 && PowerOfTwo(|ts[0]|)
              && (forall i :: 0 <= i < |ts| ==> |ts[i]| == |ts[0]| && forall k :: 0 <= k < |ts[i]| ==> 0 <= ts[i][k] < q)
              && (forall i :: 0 <= i < |gs| ==> 0 <= gs[i] < 2 * |ts[0]| && gs[i] % 2 == 1)
  {
    hide PowerOfTwo;
  }

  /** compile_fast: scatter the t_i into the generating polynomial, transform, shift.  It accepts exactly matching lists of
      reduced polynomials of one power-of-two degree from 2 to 4096, moduli from 2 to 2^62 and odd exponents below 2d. */
  method CompileFast(ts: seq<Poly>, gs: seq<int>, q: int) returns (r: Result<array2<int>>)
    ensures r.Ok? <==>
              && |ts| == |gs| > 0 && 2 <= q <= 0x4000_0000_0000_0000 && 2 <= |ts[0]| <= 4096 && PowerOfTwo(|ts[0]|)
              && (forall i :: 0 <= i < |ts| ==> |ts[i]| == |ts[0]| && forall k :: 0 <= k < |ts[i]| ==> 0 <= ts[i][k] < q)
              && (forall i :: 0 <= i < |gs| ==> 0 <= gs[i] < 2 * |ts[0]| && gs[i] % 2 == 1)
    ensures r.Ok? ==> |ts| == |gs| > 0 && |ts[0]| > 0 && q > 0 && Sized(|ts[0]|, ts)
                      && r.value.Length0 == r.value.Length1 == |ts[0]|
                      && forall i, c :: 0 <= i < |ts[0]| && 0 <= c < |ts[0]| ==>
                           r.value[i, c] == Column(q, |ts[0]|, ts, gs, c, |ts|)[i]
  {
    hide *;
    AcceptedMeans(ts, gs, q);
    if !FastAccepts(ts, gs, q) {
      return Err(InvalidParams);
    }
    AcceptedSizes(ts, gs, q);
    var d := |ts[0]|;
    var ph := ScatterTerms(ts, gs, q, d);
    ghost var gen := ph[..];
    var m := CompileValidatedFft(ph, q);
    r := Ok(m);
  }

  method ScatterTerms(ts: seq<Poly>, gs: seq<int>, q: int, d: nat) returns (ph: array<Poly>)
    requires q > 0 && d > 0 && |ts| == |gs| && Sized(d, ts)
    requires forall i :: 0 <= i < |gs| ==> 2 * ((gs[i] - 1) / 2) + 1 == gs[i] && 0 <= (gs[i] - 1) / 2 < d
    ensures fresh(ph) && ph.Length == d && Sized(d, ph[..])
    ensures forall x :: 0 <= x < d ==> |ph[x]| == d && Canon(q, ph[x])
    ensures forall c :: 0 <= c < d ==> GenEval(q, d, ph[..], c, d) == Column(q, d, ts, gs, c, |ts|)
  {
    hide *;
    ph := new Poly[d](_ => Zero(d));
    ZeroCanon(q, d);
    SizedFrom(d, ph[..]);
    forall c | 0 <= c < d
      ensures GenEval(q, d, ph[..], c, d) == Column(q, d, ts, gs, c, 0)
    {
      GenEvalZeros(q, d, ph[..], c, d);
      ColumnNil(q, d, ts, gs, c);
    }
    for l := 0 to |ts|
      invariant Sized(d, ph[..]) && forall x :: 0 <= x < d ==> |ph[x]| == d && Canon(q, ph[x])
      invariant forall c :: 0 <= c < d ==> GenEval(q, d, ph[..], c, d) == Column(q, d, ts, gs, c, l)
    {
      ghost var before := ph[..];
      var j := (gs[l] - 1) / 2;
      SizedAt(d, ts, l);
      ph[j] := Add(q, ph[j], ts[l]);
      assert ph[..] == before[j := Add(q, before[j], ts[l])];
      SizedFrom(d, ph[..]);
      forall c | 0 <= c < d
        ensures GenEval(q, d, ph[..], c, d) == Column(q, d, ts, gs, c, l + 1)
      {
        GenEvalUpdate(q, d, before, ph[..], j, ts[l], c, d);
        ColumnStep(q, d, ts, gs, c, l);
        assert (2 * j + 1) * c == c * gs[l];
      }
    }
  }

  // ----- the naive compilers -----

  /** Matrix m holds cols column by column. */
  predicate HasColumns(m: array2<int>, d: nat, cols: seq<Poly>)
    reads m
  {
    && m.Length0 == m.Length1 == d == |cols| && Sized(d, cols)
    && forall r, c :: 0 <= r < d && 0 <= c < d ==> m[r, c] == cols[c][r]
  }

  function Basis(d: nat, c: nat): (r: Poly)
    ensures |r| == d
  {
    seq(d, i => if i == c then 1 else 0)
  }

  lemma {:induction false} CombOfBasis(q: int, d: nat, c: nat, ps: seq<Poly>, n: nat)
    requires q > 0 && c < d && n <= d && n <= |ps|
    requires forall i :: 0 <= i < n ==> |ps[i]| == d && Canon(q, ps[i])
    ensures Comb(q, d, Basis(d, c), ps, n) == if n <= c then Zero(d) else ps[c]
  {
    hide *;
    hide Basis;
    if n == 0 {
      CombNil(q, d, Basis(d, c), ps);
    } else {
      var m := n - 1;
      CombOfBasis(q, d, c, ps, m);
      CombStep(q, d, Basis(d, c), ps, m);
      BasisAt(d, c, m);
      if m == c {
        ScaleOne(q, ps[m]);
        AddZero(q, ps[m]);
      } else {
        ScaleByZero(q, ps[m]);
        AddZero(q, Comb(q, d, Basis(d, c), ps, m));
      }
    }
  }

  lemma BasisAt(d: nat, c: nat, i: nat)
    requires i < d
    ensures Basis(d, c)[i] == if i == c then 1 else 0
  {
  }

  /** tau_g sends the basis vector X^c to X^(cg), whatever g is. */
  lemma TauBasis(q: int, d: nat, c: nat, g: int)
    requires q > 0 && c < d
    ensures Tau(q, Basis(d, c), g) == Mono(q, d, c * g)
  {
    hide Comb, Mono, Basis;
    CombOfBasis(q, d, c, Powers(q, d, g), d);
  }

  lemma TauCoeffsStep(q: int, p: Poly, g: int, i: nat)
    requires q > 0 && i < |p|
    ensures var x, e := Comb(q, |p|, p, Powers(q, |p|, g), i), SlotOf(|p|, i * g);
            Comb(q, |p|, p, Powers(q, |p|, g), i + 1) == x[e := (x[e] + p[i] * SignOf(|p|, i * g)) % q]
  {
    hide *;
    hide Powers, Mono;
    PowersAt(q, |p|, g, i);
    CombStep(q, |p|, p, Powers(q, |p|, g), i);
    ScatterAdd(q, Comb(q, |p|, p, Powers(q, |p|, g), i), p[i], i * g);
  }

  lemma SubtractWord(y: int, c: int, q: int)
    requires q > 0
    ensures (y + q - c % q) % q == (y + c * -1) % q
    ensures (y + c * 1) % q == (y + c) % q
  {
    SubRight(y, c, q);
    ModMultiple(y - c % q, 1, q);
  }

  lemma SlotSign(d: nat, e: int)
    requires d > 0
    ensures var m := e % (2 * d);
            0 <= m < 2 * d && if m < d then SlotOf(d, e) == m && SignOf(d, e) == 1 else SlotOf(d, e) == m - d && SignOf(d, e) == -1
  {
  }

  lemma TauCoeffsStart(q: int, p: Poly, g: int, zeros: Poly)
    requires q > 0 && |p| > 0 && |zeros| == |p| && forall i :: 0 <= i < |p| ==> zeros[i] == 0
    ensures zeros == Comb(q, |p|, p, Powers(q, |p|, g), 0)
    ensures Tau(q, p, g) == Comb(q, |p|, p, Powers(q, |p|, g), |p|)
  {
    assert zeros == Zero(|p|);
  }

  /** The 64-bit sums of the naive compilers do not wrap, and the exponent product i g does not, or does so harmlessly
      because 2d divides 2^64. */
  predicate Narrow(q: int, d: nat, g: int) {
    q <= HALF && g >= 0 && (d == 0 || WORD % (2 * d) == 0 || (d - 1) * g < WORD)
  }

  /** Coefficients the scatter can add to a residue without wrapping. */
  predicate NarrowTau(q: int, p: Poly, g: int) {
    Narrow(q, |p|, g) && forall i :: 0 <= i < |p| ==> 0 <= p[i] <= WORD - q
  }

  lemma NarrowModulus(q: int, d: nat, g: int)
    ensures Narrow(q, d, g) ==> q <= HALF
  {
  }

  lemma ExponentWord(q: int, d: nat, g: int, i: nat)
    requires Narrow(q, d, g) && i < d
    ensures Wrap(i * g) % (2 * d) == (i * g) % (2 * d)
  {
    if WORD % (2 * d) == 0 {
      WrapMod(i * g, 2 * d);
    } else {
      ProductOrder(i, d - 1, g);
      ProductNonNegative(i, g);
      WrapSmall(i * g);
    }
  }

  /** What the scatter writes at the slot of coefficient i. */
  function Scattered(q: int, y: int, c: int, negate: bool): (r: int)
    requires q > 0
    ensures 0 <= r < q
  {
    if negate then Wrap(y + q - c % q) % q else Wrap(y + c) % q
  }

  lemma ScatteredIs(q: int, y: int, c: int, negate: bool)
    requires 0 <= y < q <= HALF && 0 <= c <= WORD - q
    ensures Scattered(q, y, c, negate) == (y + c * if negate then -1 else 1) % q
  {
    SubtractWord(y, c, q);
    DivMod(c, q);
    if negate {
      WrapSmall(y + q - c % q);
    } else {
      WrapSmall(y + c);
    }
  }

  lemma CombEntry(q: int, d: nat, p: Poly, g: int, n: nat, i: nat)
    requires q > 0 && |p| == d && n <= d && i < d
    ensures 0 <= Comb(q, d, p, Powers(q, d, g), n)[i] < q
  {
    hide Powers, Mono;
    if n > 0 {
      CombStep(q, d, p, Powers(q, d, g), n - 1);
    }
  }

  /** tau_coeffs on 64-bit words scatters the coefficients by sign and slot; it is the automorphism X -> X^g. */
  method TauCoeffs(p: Poly, g: int, q: int) returns (out: array<int>)
    requires 0 < q < WORD && |p| > 0
    ensures fresh(out) && out.Length == |p|
    ensures NarrowTau(q, p, g) ==> out[..] == Tau(q, p, g)
  {
    hide *;
    var d := |p|;
    out := new int[d](_ => 0);
    TauCoeffsStart(q, p, g, out[..]);
    for i := 0 to d
      invariant NarrowTau(q, p, g) ==> out[..] == Comb(q, d, p, Powers(q, d, g), i)
    {
      ghost var x := out[..];
      var e := Wrap(i * g) % (2 * d);
      var slot := if e < d then e else e - d;
      out[slot] := Scattered(q, out[slot], p[i], e >= d);
      assert out[..] == x[slot := Scattered(q, x[slot], p[i], e >= d)];
      if NarrowTau(q, p, g) {
        ScatterStep(q, p, g, i, x);
      }
    }
  }

  lemma ScatterStep(q: int, p: Poly, g: int, i: nat, x: Poly)
    requires q > 0 && i < |p| && NarrowTau(q, p, g) && x == Comb(q, |p|, p, Powers(q, |p|, g), i)
    ensures var e := Wrap(i * g) % (2 * |p|);
            var slot := if e < |p| then e else e - |p|;
            0 <= slot < |p| && Comb(q, |p|, p, Powers(q, |p|, g), i + 1) == x[slot := Scattered(q, x[slot], p[i], e >= |p|)]
  {
    hide *;
    NarrowTauAt(q, p, g, i);
    ExponentWord(q, |p|, g, i);
    TauCoeffsStep(q, p, g, i);
    SlotSign(|p|, i * g);
    CombEntry(q, |p|, p, g, i, SlotOf(|p|, i * g));
    ScatteredIs(q, x[SlotOf(|p|, i * g)], p[i], (i * g) % (2 * |p|) >= |p|);
  }

  lemma NarrowTauAt(q: int, p: Poly, g: int, i: nat)
    requires NarrowTau(q, p, g) && i < |p|
    ensures Narrow(q, |p|, g) && 0 <= p[i] <= WORD - q && q <= HALF
  {
  }

  lemma BasisNarrow(q: int, d: nat, c: nat, g: int)
    requires Narrow(q, d, g)
    ensures NarrowTau(q, Basis(d, c), g)
  {
    forall i | 0 <= i < d
      ensures 0 <= Basis(d, c)[i] <= WORD - q
    {
      BasisAt(d, c, i);
    }
  }

  lemma NegacyclicEntry(q: int, t: Poly, r: nat, c: nat)
    requires q > 0 && r < |t| && c < |t|
    ensures Shifts(q, t)[c][r] == if r >= c then t[r - c] % q else (q - t[r - c + |t|] % q) % q
  {
    if r >= c {
      ExtInside(t, r - c);
    } else {
      ExtInside(t, r - c + |t|);
      ExtAnti(t, r - c);
      SubRight(0, t[r - c + |t|], q);
      ModMultiple(-(t[r - c + |t|] % q), 1, q);
    }
  }

  /** Neg(t): column c is X^c * t. */
  method NegacyclicMatrix(t: Poly, q: int) returns (m: array2<int>)
    requires q > 0
    ensures fresh(m) && m.Length0 == m.Length1 == |t| && (|t| > 0 ==> HasColumns(m, |t|, Shifts(q, t)))
  {
    hide Shifts;
    var d := |t|;
    m := new int[d, d];
    for r := 0 to d
      invariant forall i, c :: 0 <= i < r && 0 <= c < d ==> m[i, c] == Shifts(q, t)[c][i]
    {
      for c := 0 to d
        invariant forall i, k :: 0 <= i < r && 0 <= k < d ==> m[i, k] == Shifts(q, t)[k][i]
        invariant forall k :: 0 <= k < c ==> m[r, k] == Shifts(q, t)[k][r]
      {
        NegacyclicEntry(q, t, r, c);
        m[r, c] := if r >= c then t[r - c] % q else (q - t[r - c + d] % q) % q;
      }
    }
  }

  /** Entries are residues. */
  predicate Residual(m: array2<int>, q: int)
    reads m
  {
    forall r, c :: 0 <= r < m.Length0 && 0 <= c < m.Length1 ==> 0 <= m[r, c] < q
  }

  /** P_tau: column c is X^(cg). */
  method SignedPermMatrix(d: nat, g: int, q: int) returns (m: array2<int>)
    requires 0 < q < WORD
    ensures fresh(m) && m.Length0 == m.Length1 == d && (d > 0 && Narrow(q, d, g) ==> HasColumns(m, d, Powers(q, d, g)))
  {
    hide Powers, Tau, Mono, Narrow, NarrowTau;
    m := new int[d, d];
    for c := 0 to d
      invariant Narrow(q, d, g) ==> forall r, k :: 0 <= r < d && 0 <= k < c ==> m[r, k] == Powers(q, d, g)[k][r]
    {
      ghost var want := Powers(q, d, g)[c];
      var imaged := TauCoeffs(Basis(d, c), g, q);
      if Narrow(q, d, g) {
        BasisNarrow(q, d, c, g);
      }
      TauBasis(q, d, c, g);
      PowersAt(q, d, g, c);
      ghost var got := imaged[..];
      for r := 0 to d
        invariant imaged[..] == got
        invariant Narrow(q, d, g) ==> forall r, k :: 0 <= r < d && 0 <= k < c ==> m[r, k] == Powers(q, d, g)[k][r]
        invariant Narrow(q, d, g) ==> forall i :: 0 <= i < r ==> m[i, c] == want[i]
      {
        assert imaged[r] == got[r];
        if Narrow(q, d, g) {
          ModSmall(imaged[r], q);
        }
        m[r, c] := imaged[r] % q;
      }
    }
  }

  /** The columns of a square matrix. */
  ghost function GridColumns(m: array2<int>): (r: seq<Poly>)
    requires m.Length0 == m.Length1
    reads m
    ensures HasColumns(m, m.Length0, r)
  {
    seq(m.Length1, c requires 0 <= c < m.Length1 reads m => seq(m.Length0, r requires 0 <= r < m.Length0 reads m => m[r, c]))
  }

  /** Entry (i, j) of the product is the inner product of row i and column j, and a zero entry is skipped. */
  method MatmulSquare(a: array2<int>, b: array2<int>, q: int, ghost xs: seq<Poly>, ghost ys: seq<Poly>)
    returns (out: array2<int>)
    requires q > 0 && HasColumns(a, a.Length0, xs) && HasColumns(b, a.Length0, ys)
    ensures fresh(out) && out.Length0 == out.Length1 == a.Length0
    ensures forall i, j :: 0 <= i < a.Length0 && 0 <= j < a.Length0 ==>
              out[i, j] == Comb(q, a.Length0, ys[j], xs, a.Length0)[i]
  {
    hide Comb, CoeffSum;
    var d := a.Length0;
    out := new int[d, d]((_, _) => 0);
    for i := 0 to d
      invariant forall r, c :: 0 <= r < i && 0 <= c < d ==> out[r, c] == Comb(q, d, ys[c], xs, d)[r]
      invariant forall r, c :: i <= r < d && 0 <= c < d ==> out[r, c] == 0
    {
      MatmulLine(a, b, q, xs, ys, out, i);
    }
  }

  /** Row i of the product. */
  method MatmulLine(a: array2<int>, b: array2<int>, q: int, ghost xs: seq<Poly>, ghost ys: seq<Poly>, out: array2<int>, i: nat)
    requires q > 0 && HasColumns(a, a.Length0, xs) && HasColumns(b, a.Length0, ys)
    requires out != a && out != b && out.Length0 == out.Length1 == a.Length0 && i < a.Length0
    requires forall c :: 0 <= c < a.Length0 ==> out[i, c] == 0
    modifies out
    ensures forall r, c :: 0 <= r < a.Length0 && r != i && 0 <= c < a.Length0 ==> out[r, c] == old(out[r, c])
    ensures forall c :: 0 <= c < a.Length0 ==> out[i, c] == Comb(q, a.Length0, ys[c], xs, a.Length0)[i]
  {
    hide Comb, CoeffSum;
    var d := a.Length0;
    forall c | 0 <= c < d
      ensures out[i, c] == CoeffSum(ys[c], xs, i, 0) % q
    {
      CoeffSumNil(ys[c], xs, i);
      ModSmall(0, q);
    }
    for k := 0 to d
      invariant forall r, c :: 0 <= r < d && r != i && 0 <= c < d ==> out[r, c] == old(out[r, c])
      invariant forall c :: 0 <= c < d ==> out[i, c] == CoeffSum(ys[c], xs, i, k) % q
    {
      MatmulTerm(a, b, q, xs, ys, out, i, k);
    }
    forall c | 0 <= c < d
      ensures out[i, c] == Comb(q, d, ys[c], xs, d)[i]
    {
      CombCoeff(q, d, ys[c], xs, i, d);
    }
  }

  method MatmulTerm(a: array2<int>, b: array2<int>, q: int, ghost xs: seq<Poly>, ghost ys: seq<Poly>,
                   out: array2<int>, i: nat, k: nat)
    requires q > 0 && HasColumns(a, a.Length0, xs) && HasColumns(b, a.Length0, ys)
    requires out != a && out != b && out.Length0 == out.Length1 == a.Length0 && i < a.Length0 && k < a.Length0
    requires forall c :: 0 <= c < a.Length0 ==> out[i, c] == CoeffSum(ys[c], xs, i, k) % q
    modifies out
    ensures forall r, c :: 0 <= r < a.Length0 && r != i && 0 <= c < a.Length0 ==> out[r, c] == old(out[r, c])
    ensures forall c :: 0 <= c < a.Length0 ==> out[i, c] == CoeffSum(ys[c], xs, i, k + 1) % q
  {
    hide CoeffSum;
    var d := a.Length0;
    var x := a[i, k];
    forall c | 0 <= c < d
      ensures CoeffSum(ys[c], xs, i, k + 1) == CoeffSum(ys[c], xs, i, k) + x * b[k, c]
    {
      CoeffSumStep(ys[c], xs, i, k);
      assert xs[k][i] == x && ys[c][k] == b[k, c];
      assert x * b[k, c] == ys[c][k] * xs[k][i];
    }
    if x == 0 {
      return;
    }
    for j := 0 to d
      invariant forall r, c :: 0 <= r < d && r != i && 0 <= c < d ==> out[r, c] == old(out[r, c])
      invariant forall c :: 0 <= c < j ==> out[i, c] == CoeffSum(ys[c], xs, i, k + 1) % q
      invariant forall c :: j <= c < d ==> out[i, c] == CoeffSum(ys[c], xs, i, k) % q
    {
      ModAdd(CoeffSum(ys[j], xs, i, k), x * b[k, j], q);
      out[i, j] := (out[i, j] + x * b[k, j]) % q;
    }
  }

  // ----- column by column -----

  lemma ShiftOfReduced(q: int, t: Poly, k: int)
    requires q > 0 && |t| > 0
    ensures Shift(q, Scale(q, 1, t), k) == Shift(q, t, k)
  {
    hide Shift, Scale;
    ShiftScale(q, 1, t, k);
    ScaleOne(q, Shift(q, t, k));
  }

  lemma ShiftsOfReduced(q: int, t: Poly)
    requires q > 0 && |t| > 0
    ensures Shifts(q, Scale(q, 1, t)) == Shifts(q, t)
  {
    hide Shift, Scale;
    forall i | 0 <= i < |t|
      ensures Shifts(q, Scale(q, 1, t))[i] == Shifts(q, t)[i]
    {
      ShiftOfReduced(q, t, i);
    }
  }

  /** Multiplying X^k by any representative of t shifts t. */
  lemma MonoTimes(q: int, t: Poly, k: int)
    requires q > 0 && |t| > 0
    ensures Comb(q, |t|, Mono(q, |t|, k), Shifts(q, t), |t|) == Shift(q, t, k)
  {
    hide Comb, Mono, Shift, Scale, Shifts;
    var u := Scale(q, 1, t);
    ShiftsOfReduced(q, t);
    MulComm(q, Mono(q, |t|, k), u);
    MulMono(q, u, k);
    ShiftOfReduced(q, t, k);
  }

  /** Exactly the inputs the two naive compilers accept. */
  predicate NaiveAccepts(ts: seq<Poly>, gs: seq<int>) {
    |ts| == |gs| > 0 && Sized(|ts[0]|, ts)
  }

  /** The matrix holds the first l terms of the sum. */
  predicate Compiled(m: array2<int>, q: int, d: nat, ts: seq<Poly>, gs: seq<int>, l: nat)
    requires q > 0 && l <= |ts| && l <= |gs|
    requires forall i :: 0 <= i < |ts| ==> |ts[i]| == d
    reads m
  {
    && m.Length0 == m.Length1 == d
    && forall r, c :: 0 <= r < d && 0 <= c < d ==> m[r, c] == Column(q, d, ts, gs, c, l)[r]
  }

  /** Adds Neg(t) P_g, formed as a matrix product, into m. */
  method AddNaiveTerm(m: array2<int>, t: Poly, g: int, q: int)
    requires 0 < q < WORD && m.Length0 == m.Length1 == |t| && Residual(m, q)
    modifies m
    ensures Residual(m, q)
    ensures Narrow(q, |t|, g) ==>
              forall r, c :: 0 <= r < |t| && 0 <= c < |t| ==> m[r, c] == (old(m[r, c]) + Shift(q, t, c * g)[r]) % q
  {
    hide *;
    hide Shifts, Powers, Mono, Shift;
    var d := |t|;
    var neg := NegacyclicMatrix(t, q);
    var perm := SignedPermMatrix(d, g, q);
    ghost var xs := if d > 0 then Shifts(q, t) else [];
    ghost var ys := if d > 0 && Narrow(q, d, g) then Powers(q, d, g) else GridColumns(perm);
    if d == 0 {
      NoColumns(neg);
    }
    var prod := MatmulSquare(neg, perm, q, xs, ys);
    ProductResidual(neg, perm, prod, q, xs, ys);
    if Narrow(q, d, g) {
      forall r, c | 0 <= r < d && 0 <= c < d
        ensures prod[r, c] == Shift(q, t, c * g)[r]
      {
        PowersAt(q, d, g, c);
        MonoTimes(q, t, c * g);
      }
    }
    NarrowModulus(q, d, g);
    MatAddInto(m, prod, q);
  }

  lemma ProductResidual(a: array2<int>, b: array2<int>, prod: array2<int>, q: int, xs: seq<Poly>, ys: seq<Poly>)
    requires q > 0 && HasColumns(a, a.Length0, xs) && HasColumns(b, a.Length0, ys) && prod.Length0 == prod.Length1 == a.Length0
    requires forall i, j :: 0 <= i < a.Length0 && 0 <= j < a.Length0 ==> prod[i, j] == Comb(q, a.Length0, ys[j], xs, a.Length0)[i]
    ensures Residual(prod, q)
  {
    hide CoeffSum;
    var d := a.Length0;
    forall i, j | 0 <= i < d && 0 <= j < d
      ensures 0 <= prod[i, j] < q
    {
      CombCoeff(q, d, ys[j], xs, i, d);
    }
  }

  lemma NoColumns(m: array2<int>)
    requires m.Length0 == m.Length1 == 0
    ensures HasColumns(m, 0, [])
  {
  }

  /** mat_add_into: 64-bit sums, reduced. */
  method MatAddInto(dst: array2<int>, src: array2<int>, q: int)
    requires q > 0 && dst != src && dst.Length0 == src.Length0 && dst.Length1 == src.Length1 && Residual(dst, q) && Residual(src, q)
    modifies dst
    ensures Residual(dst, q)
    ensures q <= HALF ==>
              forall r, c :: 0 <= r < dst.Length0 && 0 <= c < dst.Length1 ==> dst[r, c] == (old(dst[r, c]) + src[r, c]) % q
  {
    for i := 0 to dst.Length0
      invariant forall r, c :: 0 <= r < i && 0 <= c < dst.Length1 ==> dst[r, c] == ReducedSum(old(dst[r, c]), src[r, c], q)
      invariant forall r, c :: i <= r < dst.Length0 && 0 <= c < dst.Length1 ==> dst[r, c] == old(dst[r, c])
    {
      for j := 0 to dst.Length1
        invariant forall r, c :: 0 <= r < i && 0 <= c < dst.Length1 ==> dst[r, c] == ReducedSum(old(dst[r, c]), src[r, c], q)
        invariant forall r, c :: i < r < dst.Length0 && 0 <= c < dst.Length1 ==> dst[r, c] == old(dst[r, c])
        invariant forall c :: 0 <= c < j ==> dst[i, c] == ReducedSum(old(dst[i, c]), src[i, c], q)
        invariant forall c :: j <= c < dst.Length1 ==> dst[i, c] == old(dst[i, c])
      {
        dst[i, j] := ReducedSum(dst[i, j], src[i, j], q);
      }
    }
    if q <= HALF {
      forall r, c | 0 <= r < dst.Length0 && 0 <= c < dst.Length1
        ensures dst[r, c] == (old(dst[r, c]) + src[r, c]) % q
      {
        ReducedSumIs(old(dst[r, c]), src[r, c], q);
      }
    }
  }

  predicate AllNarrow(q: int, d: nat, gs: seq<int>) {
    forall i :: 0 <= i < |gs| ==> Narrow(q, d, gs[i])
  }

  lemma NarrowAt(q: int, d: nat, gs: seq<int>, i: nat)
    requires AllNarrow(q, d, gs) && i < |gs|
    ensures Narrow(q, d, gs[i])
  {
  }

  /** Whatever compile_fast accepts meets the width condition of the naive compilers, so all three return the same matrix. */
  lemma FastNarrow(ts: seq<Poly>, gs: seq<int>, q: int)
    requires FastAccepts(ts, gs, q)
    ensures 0 < q < WORD && |ts| == |gs| > 0 && (forall i :: 0 <= i < |ts| ==> |ts[i]| == |ts[0]|) && q <= HALF
    ensures forall i :: 0 <= i < |gs| ==> gs[i] >= 0 && (|ts[0]| - 1) * gs[i] < WORD
  {
    hide PowerOfTwo, Elem;
    AcceptedSizes(ts, gs, q);
    var d := |ts[0]|;
    forall i | 0 <= i < |gs|
      ensures gs[i] >= 0 && (d - 1) * gs[i] < WORD
    {
      SmallProduct(d - 1, gs[i]);
    }
  }

  lemma SmallProduct(x: int, y: int)
    requires 0 <= x < 4096 && 0 <= y < 8192
    ensures x * y < WORD
  {
    ProductOrder(x, 4096, y);
  }

  /** compile_naive: Neg(t_i) P_i by matrix products. */
  method CompileNaive(ts: seq<Poly>, gs: seq<int>, q: int) returns (r: Result<array2<int>>)
    requires 0 < q < WORD
    ensures r.Ok? <==> |ts| == |gs| > 0 && forall i :: 0 <= i < |ts| ==> |ts[i]| == |ts[0]|
    ensures r == Err(InvalidParams) <==> |ts| == |gs| == 0
    ensures r.Ok? ==> r.value.Length0 == r.value.Length1 == |ts[0]| && Sized(|ts[0]|, ts)
    ensures r.Ok? && q <= HALF
            && (forall i :: 0 <= i < |gs| ==>
                  gs[i] >= 0 && (|ts[0]| == 0 || WORD % (2 * |ts[0]|) == 0 || (|ts[0]| - 1) * gs[i] < WORD))
            ==> forall i, c :: 0 <= i < |ts[0]| && 0 <= c < |ts[0]| ==>
                  r.value[i, c] == Column(q, |ts[0]|, ts, gs, c, |ts|)[i]
  {
    hide Column;
    r := CompileTerms(ts, gs, q, false);
  }

  /** compile_naive_fused: the same, without building P_i. */
  method CompileNaiveFused(ts: seq<Poly>, gs: seq<int>, q: int) returns (r: Result<array2<int>>)
    requires 0 < q < WORD
    ensures r.Ok? <==> |ts| == |gs| > 0 && forall i :: 0 <= i < |ts| ==> |ts[i]| == |ts[0]|
    ensures r == Err(InvalidParams) <==> |ts| == |gs| == 0
    ensures r.Ok? ==> r.value.Length0 == r.value.Length1 == |ts[0]| && Sized(|ts[0]|, ts)
    ensures r.Ok? && q <= HALF
            && (forall i :: 0 <= i < |gs| ==>
                  gs[i] >= 0 && (|ts[0]| == 0 || WORD % (2 * |ts[0]|) == 0 || (|ts[0]| - 1) * gs[i] < WORD))
            ==> forall i, c :: 0 <= i < |ts[0]| && 0 <= c < |ts[0]| ==>
                  r.value[i, c] == Column(q, |ts[0]|, ts, gs, c, |ts|)[i]
  {
    hide Column;
    r := CompileTerms(ts, gs, q, true);
  }

  /** The loop both naive compilers share. */
  method CompileTerms(ts: seq<Poly>, gs: seq<int>, q: int, fused: bool) returns (r: Result<array2<int>>)
    requires 0 < q < WORD
    ensures r.Ok? <==> NaiveAccepts(ts, gs)
    ensures r == Err(InvalidParams) <==> |ts| == |gs| == 0
    ensures r.Ok? ==> r.value.Length0 == r.value.Length1 == |ts[0]|
    ensures r.Ok? && AllNarrow(q, |ts[0]|, gs) ==> Compiled(r.value, q, |ts[0]|, ts, gs, |ts|)
  {
    hide Column, Shift, Add, Zero, AllNarrow, Narrow;
    if |ts| != |gs| {
      return Err(PreprocessMismatch);
    }
    if |ts| == 0 {
      return Err(InvalidParams);
    }
    var d := |ts[0]|;
    var m := new int[d, d]((_, _) => 0);
    if d > 0 && Sized(d, ts) {
      forall c, i | 0 <= i < d && 0 <= c < d
        ensures m[i, c] == Column(q, d, ts, gs, c, 0)[i]
      {
        ColumnNil(q, d, ts, gs, c);
        ZeroEntry(d, i);
      }
    }
    for l := 0 to |ts|
      invariant fresh(m) && m.Length0 == m.Length1 == d
      invariant forall i :: 0 <= i < l ==> |ts[i]| == d
      invariant Residual(m, q)
      invariant Sized(d, ts) && AllNarrow(q, d, gs) ==> Compiled(m, q, d, ts, gs, l)
    {
      if |ts[l]| != d {
        return Err(PreprocessMismatch);
      }
      if fused {
        AccumulateNegPerm(m, ts[l], gs[l], q);
      } else {
        AddNaiveTerm(m, ts[l], gs[l], q);
      }
      if Sized(d, ts) && AllNarrow(q, d, gs) {
        NarrowAt(q, d, gs, l);
        forall c, i | 0 <= i < d && 0 <= c < d
          ensures m[i, c] == Column(q, d, ts, gs, c, l + 1)[i]
        {
          ColumnStep(q, d, ts, gs, c, l);
          AddEntry(q, Column(q, d, ts, gs, c, l), Shift(q, ts[l], c * gs[l]), i);
        }
      }
    }
    r := Ok(m);
  }

  // ----- without the permutation matrix -----

  /** What row i of the double loop adds to entry x of the raw product. */
  function RawTerm(a: Poly, b: Poly, q: int, x: nat, i: nat): (r: int)
    requires q > 0 && |a| == |b| && i < |a|
  {
    if i <= x < i + |b| then (a[i] % q) * (b[x - i] % q) else 0
  }

  /** Entry x of the raw double-length product after n rows. */
  function RawSum(a: Poly, b: Poly, q: int, x: nat, n: nat): (r: int)
    requires q > 0 && |a| == |b| && n <= |a|
  {
    if n == 0 then 0 else RawSum(a, b, q, x, n - 1) + RawTerm(a, b, q, x, n - 1)
  }

  lemma RawSumStep(a: Poly, b: Poly, q: int, x: nat, i: nat)
    requires q > 0 && |a| == |b| && i < |a|
    ensures RawSum(a, b, q, x, 0) == 0
    ensures RawSum(a, b, q, x, i + 1) == RawSum(a, b, q, x, i) + RawTerm(a, b, q, x, i)
  {
  }

  /** Folding X^d to -1 turns the raw product into the negacyclic one. */
  lemma {:induction false} FoldedRaw(a: Poly, b: Poly, q: int, k: nat, n: nat)
    requires q > 0 && |a| == |b| && k < |a| && n <= |a|
    ensures (RawSum(a, b, q, k, n) - RawSum(a, b, q, k + |a|, n)) % q == CoeffSum(a, Shifts(q, b), k, n) % q
  {
    hide *;
    hide Shifts, CoeffSum, RawSum, RawTerm;
    if n == 0 {
      RawSumStep(a, b, q, k, 0);
      RawSumStep(a, b, q, k + |a|, 0);
      CoeffSumNil(a, Shifts(q, b), k);
    } else {
      var m := n - 1;
      FoldedRaw(a, b, q, k, m);
      RawSumStep(a, b, q, k, m);
      RawSumStep(a, b, q, k + |a|, m);
      CoeffSumStep(a, Shifts(q, b), k, m);
      FoldTerm(a, b, q, k, m);
      FoldSums(RawSum(a, b, q, k, m), RawSum(a, b, q, k + |a|, m), CoeffSum(a, Shifts(q, b), k, m),
               RawTerm(a, b, q, k, m), RawTerm(a, b, q, k + |a|, m), a[m] * Shifts(q, b)[m][k], q);
    }
  }

  lemma FoldSums(x: int, y: int, z: int, u: int, v: int, w: int, q: int)
    requires q > 0 && (x - y) % q == z % q && (u - v) % q == w % q
    ensures (x + u - (y + v)) % q == (z + w) % q
  {
    var s, t := x - y, u - v;
    ModSum(s, z, t, w, q);
    assert x + u - (y + v) == s + t;
  }

  lemma FoldTerm(a: Poly, b: Poly, q: int, k: nat, m: nat)
    requires q > 0 && |a| == |b| && k < |a| && m < |a|
    ensures (RawTerm(a, b, q, k, m) - RawTerm(a, b, q, k + |a|, m)) % q == (a[m] * Shifts(q, b)[m][k]) % q
  {
    hide Shifts;
    NegacyclicEntry(q, b, k, m);
    if k >= m {
      MulLeft(a[m], b[k - m] % q, q);
    } else {
      FoldMinus(a[m], b[k - m + |a|] % q, q);
    }
  }

  lemma FoldMinus(a: int, c: int, q: int)
    requires q > 0
    ensures (0 - (a % q) * c) % q == (a * ((q - c) % q)) % q
  {
    var u, v := (a % q) * c, a * c;
    MulLeft(a, c, q);
    SubRight(0, u, q);
    SubRight(0, v, q);
    MulRight(a, q - c, q);
    MulNegated(a, c, q);
    ModMultiple(-v, a, q);
  }

  lemma MulNegated(a: int, c: int, q: int)
    ensures a * (q - c) == -(a * c) + a * q
  {
  }

  /** schoolbook_negacyclic is the ring product of the reduced operands. */
  method SchoolbookNegacyclic(a: Poly, b: Poly, q: int) returns (out: array<int>)
    requires q > 0 && |a| == |b| > 0
    ensures fresh(out) && out[..] == Mul(q, a, b)
  {
    hide *;
    hide RawSum, Mul, Shifts, CoeffSum;
    var d := |a|;
    var raw := new int[2 * d](_ => 0);
    forall x | 0 <= x < 2 * d
      ensures raw[x] == RawSum(a, b, q, x, 0)
    {
      RawSumStep(a, b, q, x, 0);
    }
    for i := 0 to d
      invariant forall x :: 0 <= x < 2 * d ==> raw[x] == RawSum(a, b, q, x, i)
    {
      AddRawRow(raw, a, b, q, i);
    }
    out := new int[d];
    ghost var want := Mul(q, a, b);
    for k := 0 to d
      invariant forall x :: 0 <= x < 2 * d ==> raw[x] == RawSum(a, b, q, x, d)
      invariant forall x :: 0 <= x < k ==> out[x] == want[x]
    {
      FoldedRaw(a, b, q, k, d);
      MulCoeff(q, a, b, k);
      out[k] := (raw[k] - raw[k + d]) % q;
    }
  }

  method AddRawRow(raw: array<int>, a: Poly, b: Poly, q: int, i: nat)
    requires q > 0 && |a| == |b| && raw.Length == 2 * |a| && i < |a|
    requires forall x :: 0 <= x < raw.Length ==> raw[x] == RawSum(a, b, q, x, i)
    modifies raw
    ensures forall x :: 0 <= x < raw.Length ==> raw[x] == RawSum(a, b, q, x, i + 1)
  {
    hide RawSum;
    var d, ai := |a|, a[i] % q;
    ghost var before := raw[..];
    if ai != 0 {
      for j := 0 to d
        invariant forall x :: 0 <= x < 2 * d ==> raw[x] == before[x] + if i <= x < i + j then ai * (b[x - i] % q) else 0
      {
        raw[i + j] := raw[i + j] + ai * (b[j] % q);
      }
    }
    forall x | 0 <= x < raw.Length
      ensures raw[x] == RawSum(a, b, q, x, i + 1)
    {
      RawSumStep(a, b, q, x, i);
    }
  }

  lemma TimesMono(q: int, t: Poly, k: int)
    requires q > 0 && |t| > 0
    ensures Mul(q, t, Mono(q, |t|, k)) == Shift(q, t, k)
  {
    hide Mul, Mono, Shift, Scale;
    var u := Scale(q, 1, t);
    MulScaleLeft(q, 1, t, Mono(q, |t|, k));
    ScaleOne(q, Mul(q, t, Mono(q, |t|, k)));
    MulMono(q, u, k);
    ShiftOfReduced(q, t, k);
  }

  /** accumulate_neg_perm: column c gains the product of t and tau(X^c). */
  method AccumulateNegPerm(m: array2<int>, t: Poly, g: int, q: int)
    requires 0 < q < WORD && m.Length0 == m.Length1 == |t| && Residual(m, q)
    modifies m
    ensures Residual(m, q)
    ensures Narrow(q, |t|, g) ==>
              forall r, c :: 0 <= r < |t| && 0 <= c < |t| ==> m[r, c] == (old(m[r, c]) + Shift(q, t, c * g)[r]) % q
  {
    hide *;
    hide Shift, Tau, Mul, Mono;
    var d := |t|;
    for c := 0 to d
      invariant Residual(m, q)
      invariant Narrow(q, d, g) ==>
                  forall r, k :: 0 <= r < d && 0 <= k < c ==> m[r, k] == (old(m[r, k]) + Shift(q, t, k * g)[r]) % q
      invariant forall r, k :: 0 <= r < d && c <= k < d ==> m[r, k] == old(m[r, k])
    {
      var imaged := TauCoeffs(Basis(d, c), g, q);
      var col := SchoolbookNegacyclic(t, imaged[..], q);
      ghost var want := col[..];
      if Narrow(q, d, g) {
        BasisNarrow(q, d, c, g);
        TauBasis(q, d, c, g);
        TimesMono(q, t, c * g);
        assert want == Shift(q, t, c * g);
      }
      AddColumn(m, c, col, q);
    }
  }

  /** One column gains a vector, the others stay. */
  method AddColumn(m: array2<int>, c: nat, col: array<int>, q: int)
    requires q > 0 && m.Length0 == m.Length1 == col.Length && c < col.Length && Residual(m, q)
    modifies m
    ensures Residual(m, q)
    ensures forall r :: 0 <= r < col.Length ==> m[r, c] == (old(m[r, c]) + col[r]) % q
    ensures forall r, k :: 0 <= r < col.Length && 0 <= k < col.Length && k != c ==> m[r, k] == old(m[r, k])
  {
    for r := 0 to col.Length
      invariant Residual(m, q)
      invariant forall i :: 0 <= i < r ==> m[i, c] == (old(m[i, c]) + col[i]) % q
      invariant forall i :: r <= i < col.Length ==> m[i, c] == old(m[i, c])
      invariant forall i, k :: 0 <= i < col.Length && 0 <= k < col.Length && k != c ==> m[i, k] == old(m[i, k])
    {
      m[r, c] := (m[r, c] + col[r]) % q;
    }
  }
}
