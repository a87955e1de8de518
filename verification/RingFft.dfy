/** The in-place FFT over R_q whose twiddles are powers of X^2 (reinspiring/src/compile.rs). */
module RingFft {
  import opened Modular
  import opened MachineWords
  import opened Ring
  import opened Galois

  predicate Sized(d: nat, ys: seq<Poly>) {
    forall m :: 0 <= m < |ys| ==> |ys[m]| == d
  }

  /** Sum of X^(e m k) * ys[m] over m < n: the transform at (X^e)^k. */
  function Dft(q: int, d: nat, ys: seq<Poly>, e: int, k: int, n: nat): (r: Poly)
    requires q > 0 && d > 0 && Sized(d, ys) && n <= |ys|
    ensures |r| == d && Canon(q, r)
  {
    if n == 0 then Zero(d) else Add(q, Dft(q, d, ys, e, k, n - 1), Shift(q, ys[n - 1], e * (n - 1) * k))
  }

  lemma DftNil(q: int, d: nat, ys: seq<Poly>, e: int, k: int)
    requires q > 0 && d > 0 && Sized(d, ys)
    ensures Dft(q, d, ys, e, k, 0) == Zero(d)
  {
  }

  lemma DftStep(q: int, d: nat, ys: seq<Poly>, e: int, k: int, n: nat)
    requires q > 0 && d > 0 && Sized(d, ys) && n < |ys|
    ensures |ys[n]| == d
    ensures Dft(q, d, ys, e, k, n + 1) == Add(q, Dft(q, d, ys, e, k, n), Shift(q, ys[n], e * n * k))
  {
  }

  lemma Exponents(e: int, m: int, k: int)
    ensures e * (2 * m) * k == (2 * e) * m * k
    ensures e * (2 * m + 1) * k == (2 * e) * m * k + e * k
  {
    assert e * (2 * m) == (2 * e) * m;
    assert e * (2 * m + 1) == (2 * e) * m + e;
    Distribute((2 * e) * m, e, k);
  }

  /** ys interleaves ev and od. */
  predicate Interleaves(ys: seq<Poly>, ev: seq<Poly>, od: seq<Poly>) {
    |ev| == |od| && |ys| == 2 * |ev| && forall m :: 0 <= m < |ev| ==> ys[2 * m] == ev[m] && ys[2 * m + 1] == od[m]
  }

  lemma InterleavesAt(ys: seq<Poly>, ev: seq<Poly>, od: seq<Poly>, m: nat)
    requires Interleaves(ys, ev, od) && m < |ev|
    ensures |ys| == 2 * |ev| && |od| == |ev| && ys[2 * m] == ev[m] && ys[2 * m + 1] == od[m]
  {
  }

  /** Even and odd terms: the radix-2 step. */
  lemma {:induction false} DftEvenOdd(q: int, d: nat, ys: seq<Poly>, ev: seq<Poly>, od: seq<Poly>, e: int, k: int, n: nat)
    requires q > 0 && d > 0 && Sized(d, ys) && Sized(d, ev) && Sized(d, od) && Interleaves(ys, ev, od)
    requires n <= |ev| == |od| && |ys| == 2 * |ev|
    ensures Dft(q, d, ys, e, k, 2 * n)
            == Add(q, Dft(q, d, ev, 2 * e, k, n), Shift(q, Dft(q, d, od, 2 * e, k, n), e * k))
  {
    hide *;
    if n == 0 {
      DftNil(q, d, ys, e, k);
      DftNil(q, d, ev, 2 * e, k);
      DftNil(q, d, od, 2 * e, k);
      ShiftOfZero(q, d, e * k);
      ZeroCanon(q, d);
      AddZero(q, Zero(d));
    } else {
      var m := n - 1;
      DftEvenOdd(q, d, ys, ev, od, e, k, m);
      InterleavesAt(ys, ev, od, m);
      DftStep(q, d, ys, e, k, 2 * m);
      DftStep(q, d, ys, e, k, 2 * m + 1);
      DftStep(q, d, ev, 2 * e, k, m);
      DftStep(q, d, od, 2 * e, k, m);
      Exponents(e, m, k);
      var x := (2 * e) * m * k;
      ShiftShift(q, od[m], x, e * k);
      ShiftAdd(q, Dft(q, d, od, 2 * e, k, m), Shift(q, od[m], x), e * k);
      RadixStep(q, Dft(q, d, ev, 2 * e, k, m), Shift(q, Dft(q, d, od, 2 * e, k, m), e * k),
                Shift(q, ev[m], x), Shift(q, od[m], x + e * k));
    }
  }

  lemma RadixStep(q: int, a: Poly, b: Poly, x: Poly, y: Poly)
    requires q > 0 && |a| == |b| == |x| == |y|
    ensures Add(q, Add(q, Add(q, a, b), x), y) == Add(q, Add(q, a, x), Add(q, b, y))
  {
    hide *;
    AddAssoc(q, Add(q, a, b), x, y);
    AddSwap(q, a, b, x, y);
  }

  /** X^e has order dividing h. */
  lemma {:induction false} DftPeriod(q: int, d: nat, ys: seq<Poly>, e: int, k: int, h: int, n: nat)
    requires q > 0 && d > 0 && Sized(d, ys) && n <= |ys| && e * h == 2 * d
    ensures Dft(q, d, ys, e, k + h, n) == Dft(q, d, ys, e, k, n)
  {
    hide *;
    if n == 0 {
      DftNil(q, d, ys, e, k);
      DftNil(q, d, ys, e, k + h);
    } else {
      var m := n - 1;
      DftPeriod(q, d, ys, e, k, h, m);
      DftStep(q, d, ys, e, k, m);
      DftStep(q, d, ys, e, k + h, m);
      PeriodExponent(e, m, k, h, d);
      ShiftPeriod(q, ys[m], e * m * k, m);
    }
  }

  lemma PeriodExponent(e: int, m: int, k: int, h: int, d: int)
    requires e * h == 2 * d
    ensures e * m * (k + h) == e * m * k + m * (2 * d)
  {
    calc {
      e * m * (k + h);
      { Distribute(k, h, e * m); }
      e * m * k + e * m * h;
      { assert e * m * h == m * (e * h); }
      e * m * k + m * (2 * d);
    }
  }

  /** The butterfly: both outputs from the two half-size transforms. */
  lemma Butterfly(q: int, d: nat, ys: seq<Poly>, ev: seq<Poly>, od: seq<Poly>, e: int, k: int)
    requires q > 0 && d > 0 && Sized(d, ys) && Sized(d, ev) && Sized(d, od) && Interleaves(ys, ev, od)
    requires |ev| == |od| && |ys| == 2 * |ev| && e * |ev| == d
    ensures var n := |ev|;
            var u, v := Dft(q, d, ev, 2 * e, k, n), Shift(q, Dft(q, d, od, 2 * e, k, n), e * k);
            Dft(q, d, ys, e, k, 2 * n) == Add(q, u, v)
            && Dft(q, d, ys, e, k + n, 2 * n) == Add(q, u, Scale(q, -1, v))
  {
    hide *;
    var n := |ev|;
    DftEvenOdd(q, d, ys, ev, od, e, k, n);
    DftEvenOdd(q, d, ys, ev, od, e, k + n, n);
    assert (2 * e) * n == 2 * d by {
      assert (2 * e) * n == 2 * (e * n);
    }
    DftPeriod(q, d, ev, 2 * e, k, n, n);
    DftPeriod(q, d, od, 2 * e, k, n, n);
    assert e * (k + n) == e * k + d by {
      Distribute(k, n, e);
    }
    ShiftHalfTurn(q, Dft(q, d, od, 2 * e, k, n), e * k);
  }

  // ----- bit reversal -----

  /** The bits of x below the power of two s, reversed. */
  function Rev(s: nat, x: nat): (r: nat)
    ensures s > 0 ==> r < s
    decreases s
  {
    if s <= 1 then 0 else (if x % 2 == 1 then s / 2 else 0) + Rev(s / 2, x / 2)
  }

  /** The top bit of the index becomes the bottom bit of the reversal. */
  lemma {:induction false} RevTop(s: nat, x: nat)
    requires PowerOfTwo(s) && s > 1 && x < s / 2
    ensures Rev(s, x) == 2 * Rev(s / 2, x)
    ensures Rev(s, x + s / 2) == 1 + 2 * Rev(s / 2, x)
    decreases s
  {
    hide Rev;
    var h := s / 2;
    RevStep(s, x);
    RevStep(s, x + h);
    if h == 1 {
      RevOne(0);
    } else {
      var g := h / 2;
      assert h == 2 * g && (x + h) % 2 == x % 2 && (x + h) / 2 == x / 2 + g;
      RevStep(h, x);
      RevTop(h, x / 2);
    }
  }

  lemma RevStep(s: nat, x: nat)
    requires s > 1
    ensures Rev(s, x) == (if x % 2 == 1 then s / 2 else 0) + Rev(s / 2, x / 2)
  {
  }

  lemma RevOne(x: nat)
    ensures Rev(1, x) == 0
  {
  }

  /** Reversing twice gives the index back. */
  lemma {:induction false} RevInvolution(s: nat, x: nat)
    requires PowerOfTwo(s) && x < s
    ensures Rev(s, Rev(s, x)) == x
    decreases s
  {
    if s > 1 {
      RevInvolution(s / 2, x / 2);
      RevTop(s, Rev(s / 2, x / 2));
    }
  }

  /** Adding one at the reversed end: an odd x drops its top reversed bit and carries on below. */
  lemma RevIncrement(s: nat, x: nat)
    requires PowerOfTwo(s) && x + 1 < s
    ensures s > 1
    ensures x % 2 == 0 ==> Rev(s, x) < s / 2 && Rev(s, x + 1) == Rev(s, x) + s / 2
    ensures x % 2 == 1 ==> Rev(s, x) == s / 2 + Rev(s / 2, x / 2) && Rev(s, x + 1) == Rev(s / 2, x / 2 + 1)
                           && x / 2 + 1 < s / 2 && PowerOfTwo(s / 2)
  {
  }

  // ----- what each stage holds -----

  /** xs[r], xs[r + s], xs[r + 2s], ... */
  function Pick(xs: seq<Poly>, s: nat, r: nat, len: nat): (ys: seq<Poly>)
    requires forall m :: 0 <= m < len ==> r + s * m < |xs|
    ensures |ys| == len && forall m :: 0 <= m < len ==> ys[m] == xs[r + s * m]
  {
    seq(len, m requires 0 <= m < len => xs[r + s * m])
  }

  lemma PickInRange(n: nat, s: nat, r: nat, len: nat)
    requires r < s && s * len == n
    ensures forall m :: 0 <= m < len ==> r + s * m < n
  {
    forall m | 0 <= m < len
      ensures r + s * m < n
    {
      Distribute(len - 1, m, s);
      MulStrict(len - 1 - m, s);
      assert s * len == s * (len - 1) + s;
    }
  }

  lemma PickSized(d: nat, xs: seq<Poly>, s: nat, r: nat, len: nat)
    requires Sized(d, xs) && forall m :: 0 <= m < len ==> r + s * m < |xs|
    ensures Sized(d, Pick(xs, s, r, len))
  {
  }

  lemma PickInterleaves(xs: seq<Poly>, s: nat, r: nat, len: nat)
    requires r < s && s * (2 * len) == |xs|
    ensures (forall m :: 0 <= m < 2 * len ==> r + s * m < |xs|)
         && (forall m :: 0 <= m < len ==> r + (2 * s) * m < |xs|)
         && (forall m :: 0 <= m < len ==> (r + s) + (2 * s) * m < |xs|)
    ensures Interleaves(Pick(xs, s, r, 2 * len), Pick(xs, 2 * s, r, len), Pick(xs, 2 * s, r + s, len))
  {
    Regroup(s, len);
    PickInRange(|xs|, s, r, 2 * len);
    PickInRange(|xs|, 2 * s, r, len);
    PickInRange(|xs|, 2 * s, r + s, len);
    var ys, ev, od := Pick(xs, s, r, 2 * len), Pick(xs, 2 * s, r, len), Pick(xs, 2 * s, r + s, len);
    forall m | 0 <= m < len
      ensures ys[2 * m] == ev[m] && ys[2 * m + 1] == od[m]
    {
      Regroup(s, m);
    }
  }

  /** Block number b after the stage of length len, stride s: the transform of one residue class. */
  function BlockValue(q: int, d: nat, xs: seq<Poly>, s: nat, len: nat, b: nat, k: nat): (r: Poly)
    requires q > 0 && d > 0 && Sized(d, xs) && s > 0 && s * len == |xs|
    ensures |r| == d && Canon(q, r)
  {
    PickInRange(|xs|, s, Rev(s, b), len);
    Dft(q, d, Pick(xs, s, Rev(s, b), len), 2 * s, k, len)
  }

  lemma BlockValueIs(q: int, d: nat, xs: seq<Poly>, s: nat, len: nat, b: nat, k: nat)
    requires q > 0 && d > 0 && Sized(d, xs) && s > 0 && s * len == |xs|
    ensures forall m :: 0 <= m < len ==> Rev(s, b) + s * m < |xs|
    ensures Sized(d, Pick(xs, s, Rev(s, b), len))
    ensures BlockValue(q, d, xs, s, len, b, k) == Dft(q, d, Pick(xs, s, Rev(s, b), len), 2 * s, k, len)
  {
    PickInRange(|xs|, s, Rev(s, b), len);
    PickSized(d, xs, s, Rev(s, b), len);
  }

  lemma RevSplit(s: nat, b: nat)
    requires s > 0
    ensures Rev(2 * s, 2 * b) == Rev(s, b) && Rev(2 * s, 2 * b + 1) == Rev(s, b) + s
  {
  }

  lemma Regroup(s: int, len: int)
    ensures (2 * s) * len == s * (2 * len)
    ensures s * (2 * len + 1) == (2 * s) * len + s
  {
  }

  /** Two neighbouring blocks of length len merge into one of length 2 len. */
  lemma BlockButterfly(q: int, d: nat, xs: seq<Poly>, s: nat, len: nat, b: nat, k: nat)
    requires q > 0 && d > 0 && Sized(d, xs) && s > 0 && len > 0 && s * (2 * len) == |xs| == d
    ensures (2 * s) * len == |xs|
    ensures var u, v := BlockValue(q, d, xs, 2 * s, len, 2 * b, k),
                        Shift(q, BlockValue(q, d, xs, 2 * s, len, 2 * b + 1, k), 2 * s * k);
            BlockValue(q, d, xs, s, 2 * len, b, k) == Add(q, u, v)
            && BlockValue(q, d, xs, s, 2 * len, b, k + len) == Add(q, u, Scale(q, -1, v))
  {
    hide *;
    Regroup(s, len);
    var r := Rev(s, b);
    RevSplit(s, b);
    PickInterleaves(xs, s, r, len);
    BlockValueIs(q, d, xs, s, 2 * len, b, k);
    BlockValueIs(q, d, xs, s, 2 * len, b, k + len);
    BlockValueIs(q, d, xs, 2 * s, len, 2 * b, k);
    BlockValueIs(q, d, xs, 2 * s, len, 2 * b + 1, k);
    Butterfly(q, d, Pick(xs, s, r, 2 * len), Pick(xs, 2 * s, r, len), Pick(xs, 2 * s, r + s, len), 2 * s, k);
  }

  /** What slot x of the array holds after the stage of length len. */
  function StageAt(q: int, d: nat, xs: seq<Poly>, s: nat, len: nat, x: nat): (r: Poly)
    requires q > 0 && d > 0 && Sized(d, xs) && s > 0 && len > 0 && s * len == |xs|
    ensures |r| == d && Canon(q, r)
  {
    BlockValue(q, d, xs, s, len, x / len, x % len)
  }

  lemma FlatIndex(len: nat, b: nat, k: nat)
    requires k < len
    ensures (b * (2 * len) + k) / (2 * len) == b && (b * (2 * len) + k) % (2 * len) == k
    ensures (b * (2 * len) + k + len) / (2 * len) == b && (b * (2 * len) + k + len) % (2 * len) == k + len
    ensures (b * (2 * len) + k) / len == 2 * b && (b * (2 * len) + k) % len == k
    ensures (b * (2 * len) + k + len) / len == 2 * b + 1 && (b * (2 * len) + k + len) % len == k
  {
    var x := b * (2 * len) + k;
    RemainderUnique(x, b, k, 2 * len);
    RemainderUnique(x + len, b, k + len, 2 * len);
    assert x == (2 * b) * len + k && x + len == (2 * b + 1) * len + k by {
      Regroup(b, len);
      Distribute(2 * b, 1, len);
    }
    RemainderUnique(x, 2 * b, k, len);
    RemainderUnique(x + len, 2 * b + 1, k, len);
  }

  /** One butterfly of the stage of length 2 len, in array positions. */
  lemma StageButterfly(q: int, d: nat, xs: seq<Poly>, s: nat, len: nat, b: nat, k: nat)
    requires q > 0 && d > 0 && Sized(d, xs) && s > 0 && k < len && s * (2 * len) == |xs| == d
    ensures (2 * s) * len == |xs|
    ensures var x := b * (2 * len) + k;
            var u, v := StageAt(q, d, xs, 2 * s, len, x), Shift(q, StageAt(q, d, xs, 2 * s, len, x + len), 2 * s * k);
            StageAt(q, d, xs, s, 2 * len, x) == Add(q, u, v)
            && StageAt(q, d, xs, s, 2 * len, x + len) == Add(q, u, Scale(q, -1, v))
  {
    BlockButterfly(q, d, xs, s, len, b, k);
    FlatIndex(len, b, k);
    hide Add, Scale, Shift, BlockValue;
  }

  lemma FirstStage(q: int, d: nat, xs: seq<Poly>, x: nat)
    requires q > 0 && d > 0 && Sized(d, xs) && |xs| == d && x < d && forall m :: 0 <= m < d ==> Canon(q, xs[m])
    ensures StageAt(q, d, xs, d, 1, x) == xs[Rev(d, x)]
  {
    var r := Rev(d, x);
    assert x / 1 == x && x % 1 == 0;
    BlockValueIs(q, d, xs, d, 1, x, 0);
    var ys := Pick(xs, d, r, 1);
    DftNil(q, d, ys, 2 * d, 0);
    DftStep(q, d, ys, 2 * d, 0, 0);
    assert ys[0] == xs[r];
    ShiftZero(q, ys[0]);
    AddZero(q, ys[0]);
  }

  lemma LastStage(q: int, d: nat, xs: seq<Poly>, x: nat)
    requires q > 0 && d > 0 && Sized(d, xs) && |xs| == d && x < d
    ensures StageAt(q, d, xs, 1, d, x) == Dft(q, d, xs, 2, x, d)
  {
    ModSmall(x, d);
    RemainderUnique(x, 0, x, d);
    BlockValueIs(q, d, xs, 1, d, 0, x);
    RevOne(0);
    assert Pick(xs, 1, 0, d) == xs;
  }

  // ----- the program -----

  /** Positions below i, and the partners of those, already hold their reversed entry. */
  predicate PartlyReversed(ys: seq<Poly>, xs: seq<Poly>, i: nat) {
    |ys| == |xs| && forall x :: 0 <= x < |xs| ==> ys[x] == if x < i || Rev(|xs|, x) < i then xs[Rev(|xs|, x)] else xs[x]
  }

  lemma ReverseStep(ys: seq<Poly>, xs: seq<Poly>, i: nat)
    requires PowerOfTwo(|xs|) && i < |xs| && PartlyReversed(ys, xs, i)
    ensures var j := Rev(|xs|, i);
            PartlyReversed(if i < j then ys[i := ys[j]][j := ys[i]] else ys, xs, i + 1)
  {
    hide Rev, PowerOfTwo;
    var j := Rev(|xs|, i);
    var zs := if i < j then ys[i := ys[j]][j := ys[i]] else ys;
    RevPairs(|xs|, i);
    forall x | 0 <= x < |xs|
      ensures zs[x] == if x < i + 1 || Rev(|xs|, x) < i + 1 then xs[Rev(|xs|, x)] else xs[x]
    {
      assert x != i && x != j ==> Rev(|xs|, x) != i && zs[x] == ys[x];
    }
  }

  lemma ReverseStart(xs: seq<Poly>)
    requires PowerOfTwo(|xs|)
    ensures PartlyReversed(xs, xs, 1) && Rev(|xs|, 0) == 0 && |xs| > 0
  {
    RevZero(|xs|);
    RevPairs(|xs|, 0);
    hide Rev;
  }

  /** In-place bit reversal, driven by a counter that is incremented from its top bit. */
  method BitReverse(a: array<Poly>)
    requires PowerOfTwo(a.Length)
    modifies a
    ensures forall x :: 0 <= x < a.Length ==> a[x] == old(a[Rev(a.Length, x)])
  {
    hide *;
    var n := a.Length;
    var j: nat := 0;
    ghost var orig := a[..];
    ReverseStart(orig);
    for i := 1 to n
      invariant j == Rev(n, i - 1) && PartlyReversed(a[..], orig, i)
    {
      ghost var before := a[..];
      j := NextReversed(n, i, j);
      ReverseStep(before, orig, i);
      if i < j {
        a[i], a[j] := a[j], a[i];
        assert a[..] == before[i := before[j]][j := before[i]];
      }
    }
    ReverseEnd(a[..], orig);
  }

  lemma ReverseEnd(ys: seq<Poly>, xs: seq<Poly>)
    requires PartlyReversed(ys, xs, |xs|)
    ensures forall x :: 0 <= x < |xs| ==> ys[x] == xs[Rev(|xs|, x)]
  {
  }

  lemma {:induction false} RevZero(s: nat)
    ensures Rev(s, 0) == 0
  {
    if s > 1 {
      RevZero(s / 2);
    }
  }

  lemma RevPairs(n: nat, i: nat)
    requires PowerOfTwo(n) && i < n
    ensures Rev(n, Rev(n, i)) == i
    ensures forall x :: 0 <= x < n ==> (Rev(n, x) == i <==> x == Rev(n, i))
  {
    RevInvolution(n, i);
    forall x | 0 <= x < n
      ensures Rev(n, x) == i <==> x == Rev(n, i)
    {
      RevInvolution(n, x);
    }
  }

  method NextReversed(n: nat, i: nat, j0: nat) returns (j: nat)
    requires PowerOfTwo(n) && 0 < i < n && j0 == Rev(n, i - 1)
    ensures j == Rev(n, i)
  {
    hide Rev;
    j := j0;
    var bit: nat := n / 2;
    ghost var y: nat := i - 1;
    RevIncrement(n, y);
    assert n == 2 * bit;
    while (j / bit) % 2 == 1
      invariant bit >= 1 && PowerOfTwo(2 * bit) && y + 1 < 2 * bit
      invariant j == Rev(2 * bit, y) && Rev(n, i) == Rev(2 * bit, y + 1)
      decreases bit
    {
      RevIncrement(2 * bit, y);
      TopBit(bit, j);
      assert y % 2 == 1;
      j := j - bit;
      y := y / 2;
      HalfEven(bit, y);
      bit := bit / 2;
    }
    RevIncrement(2 * bit, y);
    TopBit(bit, j);
    assert y % 2 == 0;
    j := j + bit;
  }

  lemma TopBit(bit: nat, j: nat)
    requires bit >= 1 && j < 2 * bit
    ensures (j / bit) % 2 == 1 <==> j >= bit
  {
    if j >= bit {
      RemainderUnique(j, 1, j - bit, bit);
    } else {
      RemainderUnique(j, 0, j, bit);
    }
  }

  lemma HalfEven(bit: nat, y: nat)
    requires PowerOfTwo(bit) && y + 1 < bit
    ensures bit == 2 * (bit / 2) && bit / 2 >= 1
  {
  }

  /** Where coefficient i of p lands in X^e * p, and with which sign. */
  lemma RotateEntry(q: int, p: Poly, e: nat, i: nat)
    requires q > 0 && i < |p| && e < 2 * |p|
    ensures var d := |p|;
            var idx := if e < d then e else e - d;
            var flips := (if i + idx >= d then 1 else 0) + (if e < d then 0 else 1);
            Shift(q, p, e)[if i + idx >= d then i + idx - d else i + idx]
            == (if flips == 1 then -p[i] else p[i]) % q
  {
    var d := |p|;
    ExtInside(p, i);
    ExtAnti(p, i - d);
    ExtAnti(p, i - 2 * d);
  }

  lemma NegateWord(q: int, c: int)
    requires q > 0 && 0 <= c < q
    ensures (q - c) % q == (-c) % q && 0 <= (q - c) % q < q
  {
    ModMultiple(-c, 1, q);
  }

  /** A coefficient after its two possible negations. */
  lemma RotatedWord(q: int, x: int, wraps: bool, signPos: bool)
    requires q > 0
    ensures var c := if wraps then (q - x % q) % q else x % q;
            var e := if signPos then c else (q - c) % q;
            0 <= e < q && e == (if wraps == signPos then -x else x) % q
  {
    SubRight(0, x, q);
    NegateWord(q, x % q);
    var c := if wraps then (q - x % q) % q else x % q;
    NegateWord(q, c);
    SubRight(0, -x, q);
  }

  /** rotate_by_x_power. */
  method RotateByXPower(q: int, p: Poly, exp: nat) returns (out: array<int>)
    requires q > 0 && |p| > 0
    ensures fresh(out) && out[..] == Shift(q, p, exp)
  {
    var d := |p|;
    var e := exp % (2 * d);
    DivMod(exp, 2 * d);
    ShiftPeriod(q, p, e, exp / (2 * d));
    var idx := if e < d then e else e - d;
    var signPos := e < d;
    out := new int[d](_ => 0);
    ghost var want := Shift(q, p, e);
    for i := 0 to d
      invariant forall t :: 0 <= t < d ==>
                  out[t] == if idx <= t < idx + i || t < idx + i - d then want[t] else 0
    {
      RotateEntry(q, p, e, i);
      hide *;
      var wraps := i + idx >= d;
      var dst := WrapIndex(i + idx, d);
      RotatedWord(q, p[i], wraps, signPos);
      var c := p[i] % q;
      if wraps {
        c := (q - c) % q;
      }
      if !signPos {
        c := (q - c) % q;
      }
      ModSmall(c, q);
      out[dst] := (out[dst] + c) % q;
    }
    assert out[..] == want;
  }

  function WrapIndex(x: nat, d: nat): (r: nat)
    requires 0 < d && x < 2 * d
    ensures r == if x >= d then x - d else x
  {
    if x >= d then RemainderUnique(x, 1, x - d, d); x % d else RemainderUnique(x, 0, x, d); x % d
  }

  lemma SumDiffEntry(q: int, u: int, v: int)
    requires q > 0 && 0 <= v < q
    ensures (u + q - v) % q == (u + (-1 * v) % q) % q
  {
    ModMultiple(u - v, 1, q);
    ModAdd(u, -1 * v, q);
  }

  /** The butterfly for a general modulus. */
  method ButterflyGeneric(q: int, u: Poly, w: Poly, rot: nat) returns (x: Poly, y: Poly)
    requires q > 0 && |u| == |w| > 0
    ensures x == Add(q, u, Shift(q, w, rot)) && y == Add(q, u, Scale(q, -1, Shift(q, w, rot)))
  {
    var d := |u|;
    var v := RotateByXPower(q, w, rot);
    x, y := u, w;
    for t := 0 to d
      invariant |x| == |y| == d && v[..] == Shift(q, w, rot)
      invariant forall i :: 0 <= i < t ==> x[i] == Add(q, u, Shift(q, w, rot))[i]
      invariant forall i :: 0 <= i < t ==> y[i] == Add(q, u, Scale(q, -1, Shift(q, w, rot)))[i]
    {
      ghost var rotated := Shift(q, w, rot);
      assert v[t] == rotated[t];
      SumDiffEntry(q, u[t], v[t]);
      var sum := (u[t] + v[t]) % q;
      var diff := (u[t] + q - v[t]) % q;
      x := x[t := sum];
      y := y[t := diff];
    }
  }

  /** Machine-word arithmetic masked to a power-of-two modulus is arithmetic modulo q. */
  lemma MaskedWord(q: int, u: int, t: int, z: int)
    requires q > 0 && WORD % q == 0 && t % q == z % q
    ensures Wrap(u + t) % q == (u + z % q) % q
    ensures Wrap(u - t) % q == (u + (-1 * (z % q)) % q) % q
  {
    WrapMod(u + t, q);
    WrapMod(u - t, q);
    ModAdd(u, t, q);
    ModAdd(u, z, q);
    SubRight(u, t, q);
    SubRight(u, z, q);
    ModAdd(u, -1 * (z % q), q);
    ModAdd(u, -(z % q), q);
  }

  lemma ExtEntry(p: Poly, rot: nat, i: nat)
    requires i < |p| && rot < 2 * |p|
    ensures var src := (i + 2 * |p| - rot) % (2 * |p|);
            src < 2 * |p| && Ext(p, i - rot) == if src >= |p| then -p[src - |p|] else p[src]
  {
    ModMultiple(i - rot, 1, 2 * |p|);
  }

  function SourceIndex(i: nat, d: nat, rot: nat): (r: nat)
    requires i < d && rot < 2 * d
    ensures r < 2 * d
  {
    (i + 2 * d - rot) % (2 * d)
  }

  /** The word the masked butterfly rotates into place. */
  function RotatedTerm(w: Poly, rot: nat, i: nat): (r: int)
    requires i < |w| && rot < 2 * |w|
  {
    var src := SourceIndex(i, |w|, rot);
    if src >= |w| then Wrap(-w[src - |w|]) else w[src]
  }

  function Masked(x: int, q: int): (r: int)
    requires q > 0
  {
    Wrap(x) % q
  }

  /** The two entries the masked butterfly writes. */
  lemma MaskedEntries(q: int, u0: Poly, w: Poly, rot: nat, i: nat)
    requires q > 0 && WORD % q == 0 && |u0| == |w| && i < |w| && rot < 2 * |w|
    ensures Masked(u0[i] + RotatedTerm(w, rot, i), q) == Add(q, u0, Shift(q, w, rot))[i]
    ensures Masked(u0[i] - RotatedTerm(w, rot, i), q) == Add(q, u0, Scale(q, -1, Shift(q, w, rot)))[i]
  {
    hide Wrap, Ext;
    var d, src := |w|, SourceIndex(i, |w|, rot);
    ExtEntry(w, rot, i);
    WrapMod(if src >= d then -w[src - d] else w[src], q);
    MaskedWord(q, u0[i], RotatedTerm(w, rot, i), Ext(w, i - rot));
  }

  /** The butterfly for a power-of-two modulus, on wrapping 64-bit words. */
  method ButterflyMasked(q: int, u0: Poly, w: Poly, rot0: nat) returns (u: Poly, v: Poly)
    requires q > 0 && WORD % q == 0 && |u0| == |w| > 0
    ensures u == Add(q, u0, Shift(q, w, rot0)) && v == Add(q, u0, Scale(q, -1, Shift(q, w, rot0)))
  {
    hide *;
    var d := |w|;
    var rot := rot0 % (2 * d);
    DivMod(rot0, 2 * d);
    ShiftPeriod(q, w, rot, rot0 / (2 * d));
    u, v := u0, w;
    ghost var sum, diff := Add(q, u0, Shift(q, w, rot)), Add(q, u0, Scale(q, -1, Shift(q, w, rot)));
    for i := 0 to d
      invariant |u| == |v| == d
      invariant forall k :: i <= k < d ==> u[k] == u0[k]
      invariant forall k :: 0 <= k < i ==> u[k] == sum[k]
      invariant forall k :: 0 <= k < i ==> v[k] == diff[k]
    {
      MaskedEntries(q, u0, w, rot, i);
      var t := RotatedTerm(w, rot, i);
      v := v[i := Masked(u[i] - t, q)];
      u := u[i := Masked(u[i] + t, q)];
    }
  }

  predicate StageShape(q: int, d: nat, xs: seq<Poly>, s: nat, len: nat) {
    q > 0 && d > 0 && |xs| == d && Sized(d, xs) && s > 0 && len > 0 && s * len == d
  }

  /** Halfway through a stage: finished positions hold the next stage, the others still this one. */
  predicate Mixed(q: int, d: nat, ys: seq<Poly>, xs: seq<Poly>, s: nat, len: nat, base: nat, k: nat) {
    && StageShape(q, d, xs, s, 2 * len) && StageShape(q, d, xs, 2 * s, len)
    && |ys| == d
    && forall x :: 0 <= x < d ==>
         ys[x] == if x < base + k || base + len <= x < base + len + k then StageAt(q, d, xs, s, 2 * len, x)
                  else StageAt(q, d, xs, 2 * s, len, x)
  }

  predicate Staged(q: int, d: nat, ys: seq<Poly>, xs: seq<Poly>, s: nat, len: nat) {
    StageShape(q, d, xs, s, len) && |ys| == d && forall x :: 0 <= x < d ==> ys[x] == StageAt(q, d, xs, s, len, x)
  }

  lemma MixedAt(q: int, d: nat, ys: seq<Poly>, xs: seq<Poly>, s: nat, len: nat, base: nat, k: nat)
    requires Mixed(q, d, ys, xs, s, len, base, k) && k < len && base + 2 * len <= d
    ensures StageShape(q, d, xs, 2 * s, len) && |ys| == d && q > 0 && d > 0
    ensures (2 * s) * len == |xs|
    ensures |ys[base + k]| == d && |ys[base + k + len]| == d
    ensures ys[base + k] == StageAt(q, d, xs, 2 * s, len, base + k)
    ensures ys[base + k + len] == StageAt(q, d, xs, 2 * s, len, base + k + len)
  {
    hide StageAt;
  }

  lemma MixedWrite(q: int, d: nat, ys: seq<Poly>, xs: seq<Poly>, s: nat, len: nat, base: nat, k: nat, u: Poly, v: Poly)
    requires Mixed(q, d, ys, xs, s, len, base, k) && k < len && base + 2 * len <= d
    requires StageShape(q, d, xs, s, 2 * len)
    requires u == StageAt(q, d, xs, s, 2 * len, base + k) && v == StageAt(q, d, xs, s, 2 * len, base + k + len)
    ensures |ys| == d
    ensures Mixed(q, d, ys[base + k := u][base + k + len := v], xs, s, len, base, k + 1)
  {
    hide StageAt;
  }

  lemma MixedBlockDone(q: int, d: nat, ys: seq<Poly>, xs: seq<Poly>, s: nat, len: nat, base: nat)
    requires Mixed(q, d, ys, xs, s, len, base, len)
    ensures Mixed(q, d, ys, xs, s, len, base + 2 * len, 0)
  {
    hide StageAt;
  }

  lemma MixedStart(q: int, d: nat, ys: seq<Poly>, xs: seq<Poly>, s: nat, len: nat)
    requires Staged(q, d, ys, xs, 2 * s, len) && s > 0
    ensures Mixed(q, d, ys, xs, s, len, 0, 0)
  {
    Regroup(s, len);
    hide StageAt;
  }

  lemma MixedEnd(q: int, d: nat, ys: seq<Poly>, xs: seq<Poly>, s: nat, len: nat, base: nat)
    requires Mixed(q, d, ys, xs, s, len, base, 0) && base >= d
    ensures Staged(q, d, ys, xs, s, 2 * len)
  {
    hide StageAt;
  }

  lemma ShapeFacts(q: int, d: nat, xs: seq<Poly>, s: nat, len: nat)
    requires StageShape(q, d, xs, s, len)
    ensures q > 0 && d > 0 && |xs| == d && Sized(d, xs) && s > 0 && len > 0 && s * len == d
  {
  }

  lemma MixedShapes(q: int, d: nat, ys: seq<Poly>, xs: seq<Poly>, s: nat, len: nat, base: nat, k: nat)
    requires Mixed(q, d, ys, xs, s, len, base, k)
    ensures StageShape(q, d, xs, s, 2 * len) && StageShape(q, d, xs, 2 * s, len) && |ys| == d
  {
    hide StageAt;
  }

  /** One stage: every block, every butterfly, by the kernel the modulus calls for. */
  method RunStage(a: array<Poly>, q: int, masked: bool, step: nat, half: nat, ghost xs: seq<Poly>)
    requires Staged(q, a.Length, a[..], xs, 2 * step, half) && step > 0 && half > 0 && q > 0
    requires step * (2 * half) == a.Length && (masked ==> WORD % q == 0)
    modifies a
    ensures Staged(q, a.Length, a[..], xs, step, 2 * half)
  {
    hide *;
    var n := a.Length;
    var len := 2 * half;
    MixedStart(q, n, a[..], xs, step, half);
    var block: nat := 0;
    ghost var b: nat := 0;
    while block < n
      invariant block == b * len && b <= step
      invariant Mixed(q, n, a[..], xs, step, half, block, 0)
      decreases n - block
    {
      BlockFits(b, step, len, n);
      for k := 0 to half
        invariant Mixed(q, n, a[..], xs, step, half, block, k)
      {
        ghost var before := a[..];
        MixedAt(q, n, before, xs, step, half, block, k);
        MixedShapes(q, n, before, xs, step, half, block, k);
        ShapeFacts(q, n, xs, step, 2 * half);
        var rot := 2 * step * k;
        StageButterfly(q, n, xs, step, half, b, k);
        var u, v;
        if masked {
          u, v := ButterflyMasked(q, a[block + k], a[block + k + half], rot);
        } else {
          u, v := ButterflyGeneric(q, a[block + k], a[block + k + half], rot);
        }
        MixedWrite(q, n, before, xs, step, half, block, k, u, v);
        a[block + k] := u;
        a[block + k + half] := v;
        assert a[..] == before[block + k := u][block + k + half := v];
      }
      MixedBlockDone(q, n, a[..], xs, step, half, block);
      block := block + len;
      b := b + 1;
    }
    MixedEnd(q, n, a[..], xs, step, half, block);
  }

  lemma BlockFits(b: nat, step: nat, len: nat, n: nat)
    requires step * len == n && len > 0 && b * len < n
    ensures b < step && b * len + len <= n && (b + 1) * len == b * len + len
  {
    if b >= step {
      Distribute(b, step, len);
      MulStrict(b - step, len);
    }
    Distribute(step, b + 1, len);
    MulStrict(step - (b + 1), len);
    Distribute(b, 1, len);
  }

  /** ring_fft_inplace: bit reversal, then the stages of length 2, 4, ..., n. */
  method RingFftInPlace(a: array<Poly>, q: int)
    requires q > 0 && a.Length >= 2 && PowerOfTwo(a.Length)
    requires q <= WORD
    requires forall x :: 0 <= x < a.Length ==> |a[x]| == a.Length && Canon(q, a[x])
    modifies a
    ensures Sized(a.Length, old(a[..]))
    ensures forall x :: 0 <= x < a.Length ==> a[x] == Dft(q, a.Length, old(a[..]), 2, x, a.Length)
  {
    hide *;
    var n := a.Length;
    ghost var xs := a[..];
    if PowerOfTwo(q) {
      WordPower();
      PowerDivides(q, WORD);
    }
    SizedFrom(n, xs);
    BitReverse(a);
    StagedStart(q, n, a[..], xs);
    var len: nat := 2;
    ghost var stride: nat := n;
    while len <= n
      invariant len >= 2 && len % 2 == 0 && stride >= 1 && PowerOfTwo(stride)
      invariant stride * (len / 2) == n
      invariant Staged(q, n, a[..], xs, stride, len / 2)
      decreases 2 * n - len
    {
      var half := len / 2;
      var step := n / len;
      HalveStride(n, len, stride);
      RunStage(a, q, PowerOfTwo(q), step, half, xs);
      len := len * 2;
      stride := stride / 2;
    }
    StrideEnd(n, len, stride);
    StagedEnd(q, n, a[..], xs);
  }

  /** Smaller powers of two divide larger ones; so masking to q <= 2^64 commutes with word wrap-around. */
  lemma {:induction false} PowerDivides(q: int, m: int)
    requires PowerOfTwo(q) && PowerOfTwo(m) && q <= m
    ensures m % q == 0
    decreases m
  {
    if q == m {
      RemainderUnique(m, 1, 0, q);
    } else {
      assert PowerOfTwo(m / 2);
      SmallerPower(q, m);
      PowerDivides(q, m / 2);
      DivMod(m / 2, q);
      var k := (m / 2) / q;
      RemainderUnique(m, 2 * k, 0, q);
    }
  }

  lemma {:induction false} SmallerPower(q: int, m: int)
    requires PowerOfTwo(q) && PowerOfTwo(m) && q < m
    ensures q <= m / 2
    decreases m
  {
    if q > 1 {
      SmallerPower(q / 2, m / 2);
    }
  }

  lemma WordPower()
    ensures PowerOfTwo(WORD)
  {
    hide Pow, PowerOfTwo;
    BytePower();
    PowAdd(2, 8, 8);
    PowAdd(2, 16, 16);
    PowAdd(2, 32, 32);
    PowIsPower(64);
  }

  lemma {:induction false} PowIsPower(k: nat)
    ensures PowerOfTwo(Pow(2, k))
  {
    if k > 0 {
      PowIsPower(k - 1);
    }
  }

  lemma SizedFrom(d: nat, xs: seq<Poly>)
    requires forall x :: 0 <= x < |xs| ==> |xs[x]| == d
    ensures Sized(d, xs)
  {
  }

  lemma StagedStart(q: int, d: nat, ys: seq<Poly>, xs: seq<Poly>)
    requires q > 0 && d > 0 && |xs| == |ys| == d && Sized(d, xs)
    requires forall x :: 0 <= x < d ==> Canon(q, xs[x]) && ys[x] == xs[Rev(d, x)]
    ensures Staged(q, d, ys, xs, d, 1)
  {
    forall x | 0 <= x < d
      ensures StageAt(q, d, xs, d, 1, x) == ys[x]
    {
      FirstStage(q, d, xs, x);
    }
    hide StageAt, Rev;
  }

  lemma StagedEnd(q: int, d: nat, ys: seq<Poly>, xs: seq<Poly>)
    requires Staged(q, d, ys, xs, 1, d)
    ensures q > 0 && d > 0 && Sized(d, xs) && |xs| == d && |ys| == d
    ensures forall x :: 0 <= x < d ==> ys[x] == Dft(q, d, xs, 2, x, d)
  {
    forall x | 0 <= x < d
      ensures StageAt(q, d, xs, 1, d, x) == Dft(q, d, xs, 2, x, d)
    {
      LastStage(q, d, xs, x);
    }
    hide StageAt, Dft;
  }

  lemma HalveStride(n: nat, len: nat, stride: nat)
    requires len >= 2 && len % 2 == 0 && len <= n && PowerOfTwo(stride) && stride * (len / 2) == n
    ensures n / len == stride / 2 && stride == 2 * (stride / 2) && stride / 2 >= 1 && PowerOfTwo(stride / 2)
    ensures (stride / 2) * (2 * (len / 2)) == n && 2 * (len / 2) == len && len * 2 / 2 == len
  {
    var h := len / 2;
    assert 1 * h == h;
    assert stride != 1;
    var t := stride / 2;
    Regroup(t, h);
    RemainderUnique(n, t, 0, len);
  }

  lemma StrideEnd(n: nat, len: nat, stride: nat)
    requires len > n >= 1 && len % 2 == 0 && stride >= 1 && PowerOfTwo(stride) && stride * (len / 2) == n
    ensures stride == 1 && len / 2 == n
  {
    var h := len / 2;
    Distribute(stride, 1, h);
    MulStrict(stride - 1, h);
    assert 1 * h == h;
  }
}
