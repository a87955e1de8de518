/** SimplePIR: selector query, hint columns, matrix-vector product and decoding
    (ipir-sp/src/client.rs, ipir-sp/src/server.rs, simplepir-kernel/src/scalar.rs). */
module SimplePir {
  import opened Modular
  import opened MachineWords
  import opened Ring
  import opened RingLaws
  import opened Intermediate

  // ----- inner products -----

  lemma InnerStep(a: seq<int>, s: seq<int>, n: nat)
    requires n < |a| && n < |s|
    ensures Inner(a, s, n + 1) == Inner(a, s, n) + a[n] * s[n]
  {
  }

  lemma InnerNil(a: seq<int>, s: seq<int>)
    ensures Inner(a, s, 0) == 0
  {
  }

  lemma LinearTerm(R: int, X: int, Y: int, Z: int, r: int, x: int, y: int, z: int, v: int, q: int)
    requires q > 0 && R % q == (X + Y - Z) % q && r % q == (x + y - z) % q
    ensures (R + r * v) % q == ((X + x * v) + (Y + y * v) - (Z + z * v)) % q
  {
    var u := x + y - z;
    MulLeft(r, v, q);
    MulLeft(u, v, q);
    ModSum(R, X + Y - Z, r * v, u * v, q);
    assert u * v == x * v + y * v - z * v;
  }

  lemma {:induction false} InnerLinear(q: int, r: seq<int>, x: seq<int>, y: seq<int>, z: seq<int>, v: seq<int>, n: nat)
    requires q > 0 && n <= |r| && n <= |x| && n <= |y| && n <= |z| && n <= |v|
    requires forall j :: 0 <= j < n ==> r[j] % q == (x[j] + y[j] - z[j]) % q
    ensures Inner(r, v, n) % q == (Inner(x, v, n) + Inner(y, v, n) - Inner(z, v, n)) % q
  {
    hide *;
    if n == 0 {
      InnerNil(r, v);
      InnerNil(x, v);
      InnerNil(y, v);
      InnerNil(z, v);
    } else {
      var m := n - 1;
      InnerLinear(q, r, x, y, z, v, m);
      InnerStep(r, v, m);
      InnerStep(x, v, m);
      InnerStep(y, v, m);
      InnerStep(z, v, m);
      LinearTerm(Inner(r, v, m), Inner(x, v, m), Inner(y, v, m), Inner(z, v, m), r[m], x[m], y[m], z[m], v[m], q);
    }
  }

  lemma {:induction false} InnerSplit(u: seq<int>, v: seq<int>, m: nat, n: nat)
    requires m + n <= |u| && m + n <= |v|
    ensures Inner(u, v, m + n) == Inner(u, v, m) + Inner(u[m..m + n], v[m..m + n], n)
  {
    if n == 0 {
      InnerNil(u[m..m], v[m..m]);
    } else {
      InnerSplit(u, v, m, n - 1);
      InnerStep(u, v, m + n - 1);
      InnerStep(u[m..m + n], v[m..m + n], n - 1);
      InnerPrefix(u[m..m + n], v[m..m + n], u[m..m + n - 1], v[m..m + n - 1], n - 1);
    }
  }

  lemma {:induction false} InnerPrefix(u: seq<int>, v: seq<int>, x: seq<int>, y: seq<int>, n: nat)
    requires n <= |u| && n <= |v| && n <= |x| && n <= |y|
    requires forall j :: 0 <= j < n ==> u[j] == x[j] && v[j] == y[j]
    ensures Inner(u, v, n) == Inner(x, y, n)
  {
    if n > 0 {
      InnerPrefix(u, v, x, y, n - 1);
    }
  }

  lemma {:induction false} InnerComm(u: seq<int>, v: seq<int>, n: nat)
    requires n <= |u| && n <= |v|
    ensures Inner(u, v, n) == Inner(v, u, n)
  {
    if n > 0 {
      InnerComm(u, v, n - 1);
    }
  }

  // ----- the query -----

  /** select_u64 on a mask of all ones or all zeros. */
  function Select(condition: bool, value: int, other: int): (r: int) {
    if condition then value else other
  }

  /** add_mod on 64-bit words: subtract the modulus and keep the unreduced sum when that borrows.  The result is a
      residue, and it is the modular sum exactly when the sum does not wrap. */
  function AddMod(x: int, y: int, q: int): (r: int)
    requires 0 <= x < q < WORD && 0 <= y < q
    ensures 0 <= r < q && (r == (x + y) % q <==> x + y < WORD)
  {
    var sum := Wrap(x + y);
    AddModParts(x, y, q);
    Select(sum < q, sum, Wrap(sum - q))
  }

  lemma AddModParts(x: int, y: int, q: int)
    requires 0 <= x < q < WORD && 0 <= y < q
    ensures var sum := Wrap(x + y); Select(sum < q, sum, Wrap(sum - q)) == WordSum(x, y, q)
  {
    WordSumParts(x, y, q);
    if Wrap(x + y) >= q {
      WrapSmall(Wrap(x + y) - q);
    }
  }

  /** sub_mod on 64-bit words: add the modulus back when the subtraction borrows. */
  function SubMod(x: int, y: int, q: int): (r: int)
    requires 0 <= x < q < WORD && 0 <= y < q
    ensures r == (x - y) % q
  {
    SubModIs(x, y, q);
    SubModParts(x, y, q);
    Wrap(Wrap(x - y) + Select(x < y, q, 0))
  }

  lemma SubModParts(x: int, y: int, q: int)
    requires 0 <= x < q < WORD && 0 <= y < q
    ensures Wrap(Wrap(x - y) + Select(x < y, q, 0)) == if x < y then x - y + q else x - y
  {
    if x < y {
      RemainderUnique(x - y, -1, x - y + WORD, WORD);
      WrapOnce(x - y + WORD + q);
    } else {
      WrapSmall(x - y);
    }
  }

  lemma SubModIs(x: int, y: int, q: int)
    requires 0 <= x < q && 0 <= y < q
    ensures (x - y) % q == if x < y then x - y + q else x - y
  {
    if x < y {
      ModMultiple(x - y, 1, q);
      ModSmall(x - y + q, q);
    } else {
      ModSmall(x - y, q);
    }
  }

  /** Entry i of a(X^-1) after n coefficients have been placed. */
  lemma {:induction false} ATildeEntryTo(q: int, a: seq<int>, i: nat, n: nat)
    requires q > 0 && i < |a| && 1 <= n <= |a|
    ensures ATildeTo(q, a, n)[i]
            == if i == 0 then a[0] % q
               else if |a| - i < n then (if a[|a| - i] % q == 0 then 0 else q - a[|a| - i] % q)
               else 0
    decreases n
  {
    hide *;
    if n == 1 {
      ATildeStep(q, a, 0);
      ATildeNil(q, a, i);
    } else {
      var m := n - 1;
      ATildeEntryTo(q, a, i, m);
      ATildeEntryTo(q, a, |a| - m, m);
      ATildeStep(q, a, m);
    }
  }

  lemma ATildeNil(q: int, a: seq<int>, i: nat)
    requires q > 0 && i < |a|
    ensures ATildeTo(q, a, 0)[i] == 0
  {
  }

  lemma ATildeEntry(q: int, a: seq<int>, i: nat)
    requires q > 0 && i < |a|
    ensures ATilde(q, a)[i]
            == if i == 0 then a[0] % q else if a[|a| - i] % q == 0 then 0 else q - a[|a| - i] % q
  {
    hide *;
    ATildeEntryTo(q, a, i, |a|);
  }

  /** inverse_polynomial_to_ntt, before its transform. */
  method InversePolynomial(q: int, a: seq<int>) returns (poly: array<int>)
    requires q > 0 && |a| > 0
    ensures fresh(poly) && poly[..] == ATilde(q, a)
  {
    hide *;
    var d := |a|;
    poly := new int[d](_ => 0);
    ghost var want := ATilde(q, a);
    ATildeEntry(q, a, 0);
    poly[0] := a[0] % q;
    for i := 1 to d
      invariant forall k :: 0 <= k < i ==> poly[k] == want[k]
    {
      ATildeEntry(q, a, i);
      var coeff := a[d - i] % q;
      poly[i] := if coeff == 0 then 0 else q - coeff;
    }
    assert poly[..] == want;
  }

  /** What the query entry for row base + j is, given the block's inner products. */
  predicate BlockQuery(q: int, delta: int, target: nat, base: nat, query: seq<int>, errs: seq<int>, inner: seq<int>)
    requires q > 0 && |query| == |errs| == |inner|
  {
    forall j :: 0 <= j < |query| ==> query[j] == Entry(q, delta, base + j == target, errs[j], inner[j])
  }

  function Entry(q: int, delta: int, hit: bool, err: int, inner: int): (r: int)
    requires q > 0
  {
    ((if hit then delta else 0) + err - inner) % q
  }

  /** The entry as the words compute it. */
  function EntryWord(q: int, delta: int, hit: bool, err: int, inner: int): (r: int)
    requires 0 <= delta < q < WORD && 0 <= err < q && 0 <= inner < q
  {
    SubMod(AddMod(Select(hit, delta, 0), err, q), inner, q)
  }

  lemma EntryIs(q: int, delta: int, hit: bool, err: int, inner: int)
    requires 0 <= delta < q < WORD && 0 <= err < q && 0 <= inner < q && delta + q <= WORD
    ensures EntryWord(q, delta, hit, err, inner) == Entry(q, delta, hit, err, inner)
  {
    AddLeft(Select(hit, delta, 0) + err, -inner, q);
  }

  function Slice(x: seq<int>, d: nat, block: nat): (r: seq<int>)
    requires block * d + d <= |x|
    ensures |r| == d && forall j :: 0 <= j < d ==> r[j] == x[block * d + j]
  {
    x[block * d..block * d + d]
  }

  lemma BlockFits(d: nat, n: nat, block: nat)
    requires block < n
    ensures block * d + d <= n * d && 0 <= block * d
  {
    Distribute(block, 1, d);
    assert (block + 1) * d <= n * d;
  }

  /** encrypted_selection_query for given errors, on 64-bit words: each block is Delta * one-hot + error - a(X^-1) s,
      whenever the largest sum Delta + q - 1 is a word (Widths.EntryExact says that it has to be). */
  method EncryptedSelectionQuery(q: int, d: nat, delta: int, polys: seq<Poly>, s: Poly, target: nat, errs: seq<int>)
    returns (query: array<int>)
    requires 0 < q < WORD && d > 0 && 0 <= delta < q && |s| == d && Canon(q, s)
    requires forall b :: 0 <= b < |polys| ==> |polys[b]| == d
    requires |errs| == |polys| * d && forall r :: 0 <= r < |errs| ==> 0 <= errs[r] < q
    ensures fresh(query) && query.Length == |polys| * d
    ensures forall b :: 0 <= b < |polys| ==> b * d + d <= |polys| * d
    ensures forall b :: 0 <= b < |polys| && delta + q <= WORD ==>
              BlockQuery(q, delta, target, b * d, Slice(query[..], d, b), Slice(errs, d, b), Mul(q, ATilde(q, polys[b]), s))
    ensures (forall b :: 0 <= b < |polys| ==> Canon(q, polys[b])) && delta + q <= WORD ==> QueryHolds(q, d, delta, target, polys, s, query[..], errs)
  {
    hide *;
    var n := |polys|;
    query := new int[n * d](_ => 0);
    forall b | 0 <= b < n
      ensures b * d + d <= n * d
    {
      BlockFits(d, n, b);
    }
    for b := 0 to n
      invariant forall c :: 0 <= c < b && delta + q <= WORD ==>
                  BlockQuery(q, delta, target, c * d, Slice(query[..], d, c), Slice(errs, d, c), Mul(q, ATilde(q, polys[c]), s))
    {
      ghost var before := query[..];
      var inverse := InversePolynomial(q, polys[b]);
      var inner := Mul(q, inverse[..], s);
      assert inner == Mul(q, ATilde(q, polys[b]), s);
      FillBlock(q, d, delta, target, b, query, errs, inner, n);
      forall c | 0 <= c < b
        ensures Slice(query[..], d, c) == Slice(before, d, c)
      {
        BlockFits(d, b, c);
        SameSlice(query[..], before, d, c, b * d);
      }
    }
    if (forall b :: 0 <= b < n ==> Canon(q, polys[b])) && delta + q <= WORD {
      QueryFrom(q, d, delta, target, polys, s, query[..], errs);
    }
  }

  lemma SameSlice(x: seq<int>, y: seq<int>, d: nat, c: nat, limit: nat)
    requires |x| == |y| && c * d + d <= limit <= |x| && forall r :: 0 <= r < limit ==> x[r] == y[r]
    ensures Slice(x, d, c) == Slice(y, d, c)
  {
  }

  method FillBlock(q: int, d: nat, delta: int, target: nat, b: nat, query: array<int>, errs: seq<int>, inner: seq<int>, n: nat)
    requires 0 < q < WORD && d > 0 && 0 <= delta < q && b < n && query.Length == |errs| == n * d
    requires |inner| == d && Canon(q, inner) && forall r :: 0 <= r < |errs| ==> 0 <= errs[r] < q
    modifies query
    ensures b * d + d <= n * d
    ensures forall r :: 0 <= r < b * d ==> query[r] == old(query[r])
    ensures delta + q <= WORD ==> BlockQuery(q, delta, target, b * d, Slice(query[..], d, b), Slice(errs, d, b), inner)
  {
    hide *;
    BlockFits(d, n, b);
    var base := b * d;
    for j := 0 to d
      invariant forall r :: 0 <= r < base ==> query[r] == old(query[r])
      invariant delta + q <= WORD ==> forall i :: base <= i < base + j ==>
                  query[i] == Entry(q, delta, i == target, errs[i], inner[i - base])
    {
      CanonAt(q, inner, j);
      if delta + q <= WORD {
        EntryIs(q, delta, base + j == target, errs[base + j], inner[j]);
      }
      query[base + j] := EntryWord(q, delta, base + j == target, errs[base + j], inner[j]);
    }
    if delta + q <= WORD {
      BlockFrom(q, delta, target, b, d, query[..], errs, inner);
    }
  }

  lemma BlockFrom(q: int, delta: int, target: nat, b: nat, d: nat, query: seq<int>, errs: seq<int>, inner: seq<int>)
    requires q > 0 && b * d + d <= |query| && b * d + d <= |errs| && |inner| == d
    requires forall i :: b * d <= i < b * d + d ==>
               query[i] == Entry(q, delta, i == target, errs[i], inner[i - b * d])
    ensures BlockQuery(q, delta, target, b * d, Slice(query, d, b), Slice(errs, d, b), inner)
  {
  }

  // ----- the server -----

  predicate AllWords(xs: seq<int>) {
    forall i :: 0 <= i < |xs| ==> 0 <= xs[i] < WORD
  }

  lemma WordAt(xs: seq<int>, i: nat)
    requires AllWords(xs) && i < |xs|
    ensures 0 <= xs[i] < WORD
  {
  }

  /** ScalarKernel::multiply_query over column-major storage: one 128-bit step and one reduction per entry. */
  method MultiplyQuery(q: int, db: seq<int>, rows: nat, cols: nat, query: seq<int>) returns (out: array<int>)
    requires 0 < q < WORD && |query| == rows && |db| == cols * rows && AllWords(query) && AllWords(db)
    ensures fresh(out) && out.Length == cols
    ensures forall c :: 0 <= c < cols ==> c * rows + rows <= |db| && out[c] == Inner(query, Slice(db, rows, c), rows) % q
  {
    hide *;
    out := new int[cols];
    for col := 0 to cols
      invariant forall c :: 0 <= c < col ==> c * rows + rows <= |db| && out[c] == Inner(query, Slice(db, rows, c), rows) % q
    {
      BlockFits(rows, cols, col);
      var acc, offset := 0, col * rows;
      ghost var column := Slice(db, rows, col);
      InnerNil(query, column);
      ModSmall(0, q);
      for row := 0 to rows
        invariant forall c :: 0 <= c < col ==> c * rows + rows <= |db| && out[c] == Inner(query, Slice(db, rows, c), rows) % q
        invariant acc == Inner(query, column, row) % q
      {
        InnerStep(query, column, row);
        AddLeft(Inner(query, column, row), query[row] * column[row], q);
        DivMod(Inner(query, column, row), q);
        WordAt(query, row);
        WordAt(db, offset + row);
        StepFits(acc, query[row], db[offset + row], q);
        acc := acc + query[row] * db[offset + row];
        assert acc < U128;
        acc := acc % q;
      }
      out[col] := acc;
    }
  }

  /** Block b of one database column, as a polynomial. */
  function BlockAt(column: seq<int>, d: nat, n: nat, b: nat): (r: Poly)
    requires |column| == n * d && b < n
    ensures |r| == d
  {
    BlockFits(d, n, b);
    Slice(column, d, b)
  }

  lemma BlockAtIs(column: seq<int>, d: nat, n: nat, b: nat)
    requires |column| == n * d && b < n
    ensures b * d + d <= |column| && BlockAt(column, d, n, b) == Slice(column, d, b)
  {
    BlockFits(d, n, b);
  }

  function ColumnBlocks(column: seq<int>, d: nat, n: nat): (r: seq<Poly>)
    requires |column| == n * d
    ensures |r| == n && forall b :: 0 <= b < n ==> r[b] == BlockAt(column, d, n, b) && |r[b]| == d
  {
    seq(n, b requires 0 <= b < n => BlockAt(column, d, n, b))
  }

  /** generate_hint_column_from_query_ntts: products accumulated over the row blocks. */
  method HintColumn(q: int, d: nat, polys: seq<Poly>, column: seq<int>) returns (hint: Poly)
    requires q > 0 && d > 0 && |column| == |polys| * d && forall b :: 0 <= b < |polys| ==> |polys[b]| == d
    ensures hint == Dot(q, d, polys, ColumnBlocks(column, d, |polys|), |polys|)
  {
    hide *;
    var blocks := ColumnBlocks(column, d, |polys|);
    DotNil(q, d, polys, blocks);
    var acc := Zero(d);
    for b := 0 to |polys|
      invariant acc == Dot(q, d, polys, blocks, b)
    {
      DotStep(q, d, polys, blocks, b);
      acc := Add(q, acc, Mul(q, polys[b], blocks[b]));
    }
    hint := acc;
  }

  // ----- one block -----

  /** <D, a(X^-1) s> == <a D, s>: the block's masks are the hint's inner product with the secret. */
  lemma MaskInner(q: int, a: Poly, D: Poly, s: Poly)
    requires q > 0 && |a| == |D| == |s| > 0 && Canon(q, a) && Canon(q, D) && Canon(q, s)
    ensures Inner(D, Mul(q, ATilde(q, a), s), |s|) % q == Inner(Mul(q, a, D), s, |s|) % q
  {
    hide *;
    var ad, aa := ATilde(q, D), ATilde(q, a);
    EmbeddingInnerProduct(q, D, Mul(q, aa, s));
    MulAssoc(q, ad, aa, s);
    ATildeMul(q, D, a);
    MulComm(q, a, D);
    EmbeddingInnerProduct(q, Mul(q, a, D), s);
  }

  lemma ATildeMul(q: int, a: Poly, b: Poly)
    requires q > 0 && |a| == |b| > 0 && Canon(q, b)
    ensures Mul(q, ATilde(q, a), ATilde(q, b)) == ATilde(q, Mul(q, a, b))
  {
    hide Mul, Tau;
    TauMul(q, a, b, -1);
  }

  function Selector(delta: int, target: nat, base: nat, n: nat): (r: seq<int>)
    ensures |r| == n && forall j :: 0 <= j < n ==> r[j] == if base + j == target then delta else 0
  {
    seq(n, j requires 0 <= j < n => SelectorAt(delta, target, base, j))
  }

  function SelectorAt(delta: int, target: nat, base: nat, j: nat): (r: int) {
    if base + j == target then delta else 0
  }

  lemma {:induction false} SelectorInner(delta: int, target: nat, base: nat, D: seq<int>, n: nat)
    requires n <= |D|
    ensures Inner(Selector(delta, target, base, |D|), D, n) == if base <= target < base + n then delta * D[target - base] else 0
  {
    hide *;
    var x := Selector(delta, target, base, |D|);
    if n == 0 {
      InnerNil(x, D);
    } else {
      SelectorInner(delta, target, base, D, n - 1);
      InnerStep(x, D, n - 1);
    }
  }

  /** The selected entry of the column prefix, scaled. */
  function Chosen(delta: int, target: nat, column: seq<int>, n: nat): (r: int)
    requires n <= |column|
  {
    if target < n then delta * column[target] else 0
  }

  lemma BlockInner(q: int, d: nat, delta: int, target: nat, base: nat, query: seq<int>, errs: seq<int>, a: Poly, D: Poly, s: Poly)
    requires q > 0 && d > 0 && |query| == |errs| == |a| == |D| == |s| == d && Canon(q, a) && Canon(q, D) && Canon(q, s)
    requires BlockQuery(q, delta, target, base, query, errs, Mul(q, ATilde(q, a), s))
    ensures Same(q, Inner(query, D, d) + Inner(Mul(q, a, D), s, d),
                 (if base <= target < base + d then delta * D[target - base] else 0) + Inner(errs, D, d))
  {
    hide *;
    var inner, sel := Mul(q, ATilde(q, a), s), Selector(delta, target, base, d);
    forall j | 0 <= j < d
      ensures query[j] % q == (sel[j] + errs[j] - inner[j]) % q
    {
      BlockQueryAt(q, delta, target, base, query, errs, inner, j);
    }
    InnerLinear(q, query, sel, errs, inner, D, d);
    SelectorInner(delta, target, base, D, d);
    MaskInner(q, a, D, s);
    InnerComm(D, inner, d);
    CancelMask(Inner(query, D, d), Inner(sel, D, d), Inner(errs, D, d), Inner(inner, D, d), Inner(Mul(q, a, D), s, d), q);
  }

  lemma BlockQueryAt(q: int, delta: int, target: nat, base: nat, query: seq<int>, errs: seq<int>, inner: seq<int>, j: nat)
    requires q > 0 && |query| == |errs| == |inner| && BlockQuery(q, delta, target, base, query, errs, inner) && j < |query|
    ensures query[j] % q == ((if base + j == target then delta else 0) + errs[j] - inner[j]) % q
  {
    assert query[j] == Entry(q, delta, base + j == target, errs[j], inner[j]);
    ModAdd((if base + j == target then delta else 0) + errs[j] - inner[j], 0, q);
  }

  lemma CancelMask(x: int, sel: int, err: int, mask: int, hint: int, q: int)
    requires q > 0 && x % q == (sel + err - mask) % q && mask % q == hint % q
    ensures Same(q, x + hint, sel + err)
  {
    ModSum(x, sel + err - mask, hint, mask, q);
    assert sel + err - mask + mask == sel + err;
  }

  // ----- all blocks -----

  /** The hint of the first n blocks. */
  function HintTo(q: int, d: nat, polys: seq<Poly>, column: seq<int>, n: nat): (r: Poly)
    requires q > 0 && d > 0 && |column| == |polys| * d && n <= |polys| && forall b :: 0 <= b < |polys| ==> |polys[b]| == d
    ensures |r| == d && Canon(q, r)
  {
    Dot(q, d, polys, ColumnBlocks(column, d, |polys|), n)
  }

  lemma HintStep(q: int, d: nat, polys: seq<Poly>, column: seq<int>, n: nat)
    requires q > 0 && d > 0 && |column| == |polys| * d && n < |polys| && forall b :: 0 <= b < |polys| ==> |polys[b]| == d
    ensures n * d + d <= |column|
    ensures HintTo(q, d, polys, column, n + 1)
            == Add(q, HintTo(q, d, polys, column, n), Mul(q, polys[n], Slice(column, d, n)))
  {
    hide BlockAt, Mul, Dot;
    DotStep(q, d, polys, ColumnBlocks(column, d, |polys|), n);
    BlockAtIs(column, d, |polys|, n);
  }

  lemma {:induction false} InnerOfSum(q: int, x: Poly, y: Poly, s: Poly, n: nat)
    requires q > 0 && |x| == |y| && n <= |x| && n <= |s|
    ensures Same(q, Inner(Add(q, x, y), s, n), Inner(x, s, n) + Inner(y, s, n))
  {
    hide *;
    var r, z := Add(q, x, y), Zero(|x|);
    forall j | 0 <= j < n
      ensures r[j] % q == (x[j] + y[j] - z[j]) % q
    {
      AddEntry(q, x, y, j);
      ZeroEntry(|x|, j);
      ModAdd(x[j] + y[j], 0, q);
    }
    InnerLinear(q, r, x, y, z, s, n);
    InnerZero(|x|, s, n);
    SameIs(q, Inner(r, s, n), Inner(x, s, n) + Inner(y, s, n));
  }

  lemma {:induction false} InnerZero(d: nat, s: seq<int>, n: nat)
    requires n <= d && n <= |s|
    ensures Inner(Zero(d), s, n) == 0
  {
    if n > 0 {
      InnerZero(d, s, n - 1);
    }
  }

  predicate QueryHolds(q: int, d: nat, delta: int, target: nat, polys: seq<Poly>, s: Poly, query: seq<int>, errs: seq<int>)
    requires q > 0 && d > 0 && |s| == d
  {
    && |query| == |errs| == |polys| * d
    && (forall b :: 0 <= b < |polys| ==> |polys[b]| == d && Canon(q, polys[b]))
    && forall b :: 0 <= b < |polys| ==>
         b * d + d <= |query|
         && BlockQuery(q, delta, target, b * d, Slice(query, d, b), Slice(errs, d, b), Mul(q, ATilde(q, polys[b]), s))
  }

  lemma QueryFrom(q: int, d: nat, delta: int, target: nat, polys: seq<Poly>, s: Poly, query: seq<int>, errs: seq<int>)
    requires q > 0 && d > 0 && |s| == d && |query| == |errs| == |polys| * d
    requires forall b :: 0 <= b < |polys| ==> |polys[b]| == d && Canon(q, polys[b])
    requires forall b :: 0 <= b < |polys| ==> b * d + d <= |polys| * d
    requires forall b :: 0 <= b < |polys| ==>
               BlockQuery(q, delta, target, b * d, Slice(query, d, b), Slice(errs, d, b), Mul(q, ATilde(q, polys[b]), s))
    ensures QueryHolds(q, d, delta, target, polys, s, query, errs)
  {
    hide BlockQuery, Slice, Mul, ATilde, Canon;
  }

  lemma QueryAt(q: int, d: nat, delta: int, target: nat, polys: seq<Poly>, s: Poly, query: seq<int>, errs: seq<int>, b: nat)
    requires q > 0 && d > 0 && |s| == d && QueryHolds(q, d, delta, target, polys, s, query, errs) && b < |polys|
    ensures |query| == |errs| == |polys| * d && |polys[b]| == d && Canon(q, polys[b]) && b * d + d <= |query|
    ensures BlockQuery(q, delta, target, b * d, Slice(query, d, b), Slice(errs, d, b), Mul(q, ATilde(q, polys[b]), s))
  {
  }

  lemma QueryShape(q: int, d: nat, delta: int, target: nat, polys: seq<Poly>, s: Poly, query: seq<int>, errs: seq<int>)
    requires q > 0 && d > 0 && |s| == d && QueryHolds(q, d, delta, target, polys, s, query, errs)
    ensures |query| == |errs| == |polys| * d && forall b :: 0 <= b < |polys| ==> |polys[b]| == d
  {
  }

  /** The first n blocks of the query against a column, with the hint's inner product added. */
  lemma {:induction false} PrefixPhase(q: int, d: nat, delta: int, target: nat, polys: seq<Poly>, s: Poly,
                                       query: seq<int>, errs: seq<int>, column: seq<int>, n: nat)
    requires q > 0 && d > 0 && |s| == d && Canon(q, s) && QueryHolds(q, d, delta, target, polys, s, query, errs)
    requires |column| == |polys| * d && Canon(q, column) && n <= |polys|
    ensures n * d <= |column| == |query| == |errs| && 0 <= n * d
    ensures forall b :: 0 <= b < |polys| ==> |polys[b]| == d
    ensures Same(q, Inner(query, column, n * d) + Inner(HintTo(q, d, polys, column, n), s, d),
                 Chosen(delta, target, column, n * d) + Inner(errs, column, n * d))
  {
    hide *;
    QueryShape(q, d, delta, target, polys, s, query, errs);
    if n == 0 {
      InnerNil(query, column);
      InnerNil(errs, column);
      HintNil(q, d, polys, column);
      InnerZero(d, s, d);
      ChosenParts(delta, target, column, 0, 0);
      SameIs(q, 0, 0);
    } else {
      var m := n - 1;
      PrefixPhase(q, d, delta, target, polys, s, query, errs, column, m);
      BlockFits(d, |polys|, m);
      Distribute(m, 1, d);
      QueryAt(q, d, delta, target, polys, s, query, errs, m);
      SliceIs(query, d, m);
      SliceIs(errs, d, m);
      SliceIs(column, d, m);
      HintStep(q, d, polys, column, m);
      BlockStep(q, d, delta, target, polys[m], s, query, errs, column, m * d, HintTo(q, d, polys, column, m));
    }
  }

  /** One more block of rows, starting at row `at`. */
  lemma BlockStep(q: int, d: nat, delta: int, target: nat, a: Poly, s: Poly, query: seq<int>, errs: seq<int>,
                  column: seq<int>, at: nat, hint: Poly)
    requires q > 0 && d > 0 && |a| == |s| == |hint| == d && Canon(q, a) && Canon(q, s) && Canon(q, column)
    requires at + d <= |column| == |query| == |errs|
    requires BlockQuery(q, delta, target, at, query[at..at + d], errs[at..at + d], Mul(q, ATilde(q, a), s))
    requires Same(q, Inner(query, column, at) + Inner(hint, s, d), Chosen(delta, target, column, at) + Inner(errs, column, at))
    ensures Same(q, Inner(query, column, at + d) + Inner(Add(q, hint, Mul(q, a, column[at..at + d])), s, d),
                 Chosen(delta, target, column, at + d) + Inner(errs, column, at + d))
  {
    hide *;
    var D, next := column[at..at + d], Mul(q, a, column[at..at + d]);
    CanonSlice(q, column, at, at + d);
    BlockInner(q, d, delta, target, at, query[at..at + d], errs[at..at + d], a, D, s);
    InnerSplit(query, column, at, d);
    InnerSplit(errs, column, at, d);
    InnerOfSum(q, hint, next, s, d);
    ChosenParts(delta, target, column, at, d);
    JoinBlocks(Inner(query, column, at), Inner(query[at..at + d], D, d), Inner(hint, s, d), Inner(next, s, d),
               Inner(Add(q, hint, next), s, d), Chosen(delta, target, column, at),
               if at <= target < at + d then delta * D[target - at] else 0,
               Inner(errs, column, at), Inner(errs[at..at + d], D, d), q);
  }

  lemma CanonSlice(q: int, x: Poly, lo: nat, hi: nat)
    requires lo <= hi <= |x| && Canon(q, x)
    ensures Canon(q, x[lo..hi])
  {
  }

  lemma JoinBlocks(x: int, y: int, h: int, g: int, hg: int, c: int, e: int, u: int, v: int, q: int)
    requires Same(q, x + h, c + u) && Same(q, y + g, e + v) && Same(q, hg, h + g)
    ensures Same(q, x + y + hg, c + e + (u + v))
  {
    SameSum(q, x + h, c + u, y + g, e + v);
    SameSum(q, x + y, x + y, hg, h + g);
  }

  lemma HintNil(q: int, d: nat, polys: seq<Poly>, column: seq<int>)
    requires q > 0 && d > 0 && |column| == |polys| * d && forall b :: 0 <= b < |polys| ==> |polys[b]| == d
    ensures HintTo(q, d, polys, column, 0) == Zero(d)
  {
  }

  lemma SliceIs(x: seq<int>, d: nat, b: nat)
    requires b * d + d <= |x|
    ensures Slice(x, d, b) == x[b * d..b * d + d]
  {
  }

  lemma ChosenParts(delta: int, target: nat, column: seq<int>, m: nat, d: nat)
    requires m + d <= |column|
    ensures d == 0 && m == 0 ==> Chosen(delta, target, column, 0) == 0
    ensures Chosen(delta, target, column, m + d)
            == Chosen(delta, target, column, m) + if m <= target < m + d then delta * column[target] else 0
  {
  }

  /** Every column: b + <hint, s> == Delta * db[target] + sum of error * entry, modulo q. */
  lemma ColumnPhase(q: int, d: nat, delta: int, target: nat, polys: seq<Poly>, s: Poly,
                    query: seq<int>, errs: seq<int>, column: seq<int>)
    requires q > 0 && d > 0 && |s| == d && Canon(q, s) && QueryHolds(q, d, delta, target, polys, s, query, errs)
    requires |column| == |polys| * d && Canon(q, column) && target < |column|
    ensures |query| == |errs| == |column| && forall b :: 0 <= b < |polys| ==> |polys[b]| == d
    ensures (Inner(query, column, |column|) + Inner(HintTo(q, d, polys, column, |polys|), s, d)) % q
            == (delta * column[target] + Inner(errs, column, |column|)) % q
  {
    hide *;
    PrefixPhase(q, d, delta, target, polys, s, query, errs, column, |polys|);
    ChosenAll(delta, target, column);
    SameIs(q, Inner(query, column, |column|) + Inner(HintTo(q, d, polys, column, |polys|), s, d),
           delta * column[target] + Inner(errs, column, |column|));
  }

  lemma ChosenAll(delta: int, target: nat, column: seq<int>)
    requires target < |column|
    ensures Chosen(delta, target, column, |column|) == delta * column[target]
  {
  }
}
