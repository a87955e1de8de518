/** LiftContext: products and sums with prepared operands (reinspiring/src/lift_ntt.rs).
    A prepared transform is modelled by the residue polynomial it is the transform of. */
module LiftOps {
  import opened Wrappers
  import opened Modular
  import opened MachineWords
  import opened Ring
  import opened RingLaws
  import opened Galois
  import opened RingFft
  import opened Lift

  datatype Context = Context(d: nat, q: int) {
    predicate Ok() {
      ParamsOk(d, q)
    }

    predicate Accepts(a: Poly) {
      |a| == d && Canon(q, a)
    }
  }

  /** LiftContext::new rejects exactly the unsupported sizes: the capacity and overflow checks never fire. */
  method New(d: nat, q: nat) returns (r: Result<Context>)
    ensures r.Ok? <==> 2 <= d <= 4096 && PowerOfTwo(d) && 2 <= q <= 0x100_0000_0000_0000
    ensures r.Ok? ==> r.value == Context(d, q) && r.value.Ok()
  {
    if !ParamsOk(d, q) {
      return Err(InvalidParams);
    }
    EnoughCapacity(d, q);
    var need := d * q * q;
    assert need < Capacity(3);
    return Ok(Context(d, q));
  }

  lemma ContextSizes(C: Context)
    requires C.Ok()
    ensures 2 <= C.d <= 4096 && 2 <= C.q <= WORD && C.q / 2 >= 1
  {
  }

  /** A canonical operand: d coefficients in [0, q). */
  lemma AcceptsMeans(C: Context, a: Poly)
    ensures C.Accepts(a) <==> |a| == C.d && forall i :: 0 <= i < C.d ==> 0 <= a[i] < C.q
  {
  }

  lemma AllAcceptedMeans(C: Context, xs: seq<Poly>)
    ensures AllAccepted(C, xs)
            <==> forall i :: 0 <= i < |xs| ==> |xs[i]| == C.d && forall k :: 0 <= k < C.d ==> 0 <= xs[i][k] < C.q
  {
  }

  lemma AcceptsParts(C: Context, a: Poly)
    requires C.Accepts(a)
    ensures |a| == C.d && Canon(C.q, a)
  {
  }

  /** Coefficient k of the exact integer product of the centred operands. */
  function Exact(C: Context, a: Poly, b: Poly, k: nat): (r: int)
    requires C.Ok() && C.Accepts(a) && C.Accepts(b)
  {
    Conv(Center(C.q, a), Center(C.q, b), k, C.d)
  }

  /** Reducing it gives the ring product, modulo q and modulo each auxiliary prime. */
  lemma ExactMeans(C: Context, a: Poly, b: Poly, k: nat)
    requires C.Ok() && C.Accepts(a) && C.Accepts(b) && k < C.d
    ensures C.q > 0 && |a| == |b| == C.d && Mul(C.q, a, b)[k] == Exact(C, a, b, k) % C.q
    ensures forall j :: 0 <= j < 3 ==>
              Mul(Prime(j), Residues(Prime(j), Center(C.q, a)), Residues(Prime(j), Center(C.q, b)))[k]
              == Exact(C, a, b, k) % Prime(j)
  {
    hide *;
    ContextSizes(C);
    AcceptsParts(C, a);
    AcceptsParts(C, b);
    ExactIs(C, a, b, k);
    var ca, cb := Center(C.q, a), Center(C.q, b);
    CenterAgrees(C.q, a);
    CenterAgrees(C.q, b);
    MulIsConv(C.q, ca, cb, a, b, k);
    forall j | 0 <= j < 3
      ensures Mul(Prime(j), Residues(Prime(j), ca), Residues(Prime(j), cb))[k] == Exact(C, a, b, k) % Prime(j)
    {
      ResiduesAgree(Prime(j), ca);
      ResiduesAgree(Prime(j), cb);
      MulIsConv(Prime(j), ca, cb, Residues(Prime(j), ca), Residues(Prime(j), cb), k);
    }
  }

  lemma ExactIs(C: Context, a: Poly, b: Poly, k: nat)
    requires C.Ok() && C.Accepts(a) && C.Accepts(b)
    ensures C.q > 0 && C.d > 0 && |Center(C.q, a)| == |Center(C.q, b)| == C.d
    ensures Exact(C, a, b, k) == Conv(Center(C.q, a), Center(C.q, b), k, C.d)
  {
  }

  /** d A floor(q/2) bounds every coefficient when A bounds the left operand. */
  lemma ExactBound(C: Context, a: Poly, b: Poly, A: int, k: nat)
    requires C.Ok() && C.Accepts(a) && C.Accepts(b) && C.q > 0 && Bounded(Center(C.q, a), A)
    ensures 2 * Abs(Exact(C, a, b, k)) <= 2 * C.d * A * (C.q / 2)
  {
    hide *;
    ExactIs(C, a, b, k);
    AcceptsParts(C, b);
    CenterAgrees(C.q, b);
    ConvBound(Center(C.q, a), Center(C.q, b), A, C.q / 2, k, C.d);
    FourFactors(C.d, A, C.q / 2);
  }

  lemma FourFactors(d: int, A: int, B: int)
    ensures 2 * (d * (A * B)) == 2 * d * A * B
  {
    assert d * (A * B) == d * A * B;
  }

  /** Three primes always suffice for one product. */
  lemma ThreeSuffice(C: Context)
    requires C.Ok()
    ensures 2 * C.d * (C.q / 2) * (C.q / 2) < Capacity(3)
  {
    EnoughCapacity(C.d, C.q);
    hide *;
    HalfSquares(C.d, C.q);
  }

  lemma HalfSquares(d: nat, q: int)
    requires q >= 0
    ensures 2 * d * (q / 2) * (q / 2) <= d * q * q
  {
    var h := q / 2;
    ProductGrows(h, 2 * h, q, q);
    assert h * (2 * h) == 2 * (h * h);
    ProductGrows(d, 2 * (h * h), d, q * q);
    assert d * (2 * (h * h)) == 2 * d * h * h;
    assert d * (q * q) == d * q * q;
  }

  /** The residues of one output coefficient. */
  function Across(residues: seq<Poly>, i: nat): (r: seq<int>)
    requires forall j :: 0 <= j < |residues| ==> i < |residues[j]|
    ensures |r| == |residues| && forall j :: 0 <= j < |r| ==> r[j] == residues[j][i]
  {
    seq(|residues|, j requires 0 <= j < |residues| => residues[j][i])
  }

  /** multiply: three residue products, Garner, reduce modulo q. */
  method Multiply(C: Context, a: Poly, b: Poly) returns (r: Result<Poly>)
    requires C.Ok()
    ensures r.Ok? <==> |a| == |b| == C.d && forall i :: 0 <= i < C.d ==> 0 <= a[i] < C.q && 0 <= b[i] < C.q
    ensures r.Ok? ==> C.q > 0 && |a| == |b| > 0 && r.value == Mul(C.q, a, b)
  {
    hide *;
    ContextSizes(C);
    AcceptsMeans(C, a);
    AcceptsMeans(C, b);
    if !C.Accepts(a) {
      return Err(LweShape);
    }
    if !C.Accepts(b) {
      return Err(LweShape);
    }
    AcceptsParts(C, a);
    AcceptsParts(C, b);
    var ca, cb := Center(C.q, a), Center(C.q, b);
    var residues := [];
    for j := 0 to 3
      invariant |residues| == j
      invariant forall t :: 0 <= t < j ==> residues[t] == Mul(Prime(t), Residues(Prime(t), ca), Residues(Prime(t), cb))
      invariant forall t :: 0 <= t < j ==> |residues[t]| == C.d
    {
      residues := residues + [Mul(Prime(j), Residues(Prime(j), ca), Residues(Prime(j), cb))];
    }
    var out := new int[C.d];
    ghost var want := Mul(C.q, a, b);
    CenterAgrees(C.q, a);
    ThreeSuffice(C);
    for i := 0 to C.d
      invariant forall k :: 0 <= k < i ==> out[k] == want[k]
    {
      ExactMeans(C, a, b, i);
      ExactBound(C, a, b, C.q / 2, i);
      var signed := Garner(Across(residues, i), Exact(C, a, b, i));
      out[i] := signed % C.q;
    }
    r := Ok(out[..]);
  }

  predicate AllAccepted(C: Context, xs: seq<Poly>) {
    forall i :: 0 <= i < |xs| ==> C.Accepts(xs[i])
  }

  lemma AcceptedAt(C: Context, xs: seq<Poly>, i: nat)
    requires AllAccepted(C, xs) && i < |xs|
    ensures C.Accepts(xs[i]) && |xs[i]| == C.d && Canon(C.q, xs[i])
  {
  }

  lemma AllSizes(C: Context, xs: seq<Poly>)
    requires AllAccepted(C, xs)
    ensures Sized(C.d, xs) && forall i :: 0 <= i < |xs| ==> |xs[i]| == C.d
  {
  }

  /** sum: independent exact products, each reduced before it is added. */
  method Sum(C: Context, xs: seq<Poly>, ys: seq<Poly>) returns (r: Result<Poly>)
    requires C.Ok()
    ensures r.Ok? <==> |xs| == |ys| > 0 && AllAccepted(C, xs) && AllAccepted(C, ys)
    ensures r.Ok? <==>
              && |xs| == |ys| > 0
              && (forall i :: 0 <= i < |xs| ==> |xs[i]| == C.d && forall k :: 0 <= k < C.d ==> 0 <= xs[i][k] < C.q)
              && (forall i :: 0 <= i < |ys| ==> |ys[i]| == C.d && forall k :: 0 <= k < C.d ==> 0 <= ys[i][k] < C.q)
    ensures r.Ok? ==> C.q > 0 && C.d > 0 && (forall i :: 0 <= i < |xs| ==> |xs[i]| == C.d && |ys[i]| == C.d)
                      && r.value == Dot(C.q, C.d, xs, ys, |xs|)
  {
    hide *;
    ContextSizes(C);
    AllAcceptedMeans(C, xs);
    AllAcceptedMeans(C, ys);
    if |xs| == 0 || |xs| != |ys| {
      return Err(LweShape);
    }
    var out := Zero(C.d);
    DotNil(C.q, C.d, xs, ys);
    for l := 0 to |xs|
      invariant |out| == C.d
      invariant forall i :: 0 <= i < l ==> C.Accepts(xs[i]) && C.Accepts(ys[i])
      invariant forall i :: 0 <= i < l ==> |xs[i]| == C.d && |ys[i]| == C.d
      invariant out == Dot(C.q, C.d, xs, ys, l)
    {
      var m := Multiply(C, xs[l], ys[l]);
      AcceptsMeans(C, xs[l]);
      AcceptsMeans(C, ys[l]);
      if !m.Ok? {
        NotAll(C, xs, l);
        NotAll(C, ys, l);
        return Err(LweShape);
      }
      AcceptsParts(C, xs[l]);
      AcceptsParts(C, ys[l]);
      DotStep(C.q, C.d, xs, ys, l);
      out := Add(C.q, out, m.value);
    }
    AllFrom(C, xs);
    AllFrom(C, ys);
    r := Ok(out);
  }

  lemma NotAll(C: Context, xs: seq<Poly>, l: nat)
    requires l < |xs|
    ensures !C.Accepts(xs[l]) ==> !AllAccepted(C, xs)
  {
  }

  lemma AllFrom(C: Context, xs: seq<Poly>)
    requires forall i :: 0 <= i < |xs| ==> C.Accepts(xs[i])
    ensures AllAccepted(C, xs)
  {
  }

  // ----- prepared operands -----

  /** The largest absolute coefficient. */
  function MaxAbs(p: Poly): (r: nat)
    ensures Bounded(p, r)
    ensures |p| > 0 ==> exists i :: 0 <= i < |p| && Abs(p[i]) == r
  {
    if |p| == 0 then 0
    else
      var n := |p| - 1;
      var rest := MaxAbs(p[..n]);
      assert p == p[..n] + [p[n]];
      assert n > 0 ==> exists i :: 0 <= i < n && Abs(p[..n][i]) == rest;
      if rest > Abs(p[n]) then rest else Abs(p[n])
  }

  lemma MaxBounded(p: Poly)
    ensures Bounded(p, MaxAbs(p))
  {
  }

  function Maxima(q: int, xs: seq<Poly>): (r: seq<int>)
    requires q > 0
    ensures |r| == |xs| && forall i :: 0 <= i < |xs| ==> r[i] == MaxAbs(Center(q, xs[i]))
  {
    seq(|xs|, i requires 0 <= i < |xs| => MaxAbs(Center(q, xs[i])))
  }

  datatype Operand = Operand(d: nat, q: int, limbs: seq<seq<Poly>>, sumFitsTwo: bool)

  /** The residues of the centred polynomial modulo the first n primes. */
  predicate Transforms(q: int, limb: seq<Poly>, a: Poly)
    requires q > 0
  {
    1 <= |limb| <= 3 && forall j :: 0 <= j < |limb| ==> limb[j] == Residues(Prime(j), Center(q, a))
  }

  lemma TransformsSize(q: int, limb: seq<Poly>, a: Poly)
    requires q > 0 && Transforms(q, limb, a)
    ensures 1 <= |limb| <= 3
  {
  }

  lemma TransformsAt(q: int, limb: seq<Poly>, a: Poly, j: nat)
    requires q > 0 && Transforms(q, limb, a) && j < |limb|
    ensures 1 <= |limb| <= 3 && limb[j] == Residues(Prime(j), Center(q, a)) && |limb[j]| == |a|
  {
  }

  /** Two primes exactly when they exceed twice the product bound. */
  predicate LimbHolds(C: Context, limb: seq<Poly>, a: Poly)
    requires C.Ok()
  {
    && Transforms(C.q, limb, a) && 2 <= |limb|
    && (|limb| == 2 <==> 2 * C.d * MaxAbs(Center(C.q, a)) * (C.q / 2) < Capacity(2))
  }

  lemma LimbParts(C: Context, limb: seq<Poly>, a: Poly)
    requires C.Ok() && LimbHolds(C, limb, a)
    ensures C.q > 0 && Transforms(C.q, limb, a) && 2 <= |limb| <= 3
    ensures |limb| == 2 <==> 2 * C.d * MaxAbs(Center(C.q, a)) * (C.q / 2) < Capacity(2)
  {
  }

  ghost predicate OperandHolds(C: Context, P: Operand, xs: seq<Poly>)
    requires C.Ok()
  {
    && P.d == C.d && P.q == C.q && |P.limbs| == |xs| > 0 && AllAccepted(C, xs)
    && (forall i :: 0 <= i < |xs| ==> LimbHolds(C, P.limbs[i], xs[i]))
    && (P.sumFitsTwo ==> BoundSum(Maxima(C.q, xs), |xs|) * (2 * C.d * (C.q / 2)) < Capacity(2))
  }

  lemma OperandParts(C: Context, P: Operand, xs: seq<Poly>)
    requires C.Ok() && OperandHolds(C, P, xs)
    ensures C.q > 0 && C.d > 0 && P.d == C.d && P.q == C.q && |P.limbs| == |xs| > 0 && AllAccepted(C, xs) && Sized(C.d, xs)
    ensures P.sumFitsTwo ==> BoundSum(Maxima(C.q, xs), |xs|) * (2 * C.d * (C.q / 2)) < Capacity(2)
    ensures forall i :: 0 <= i < |xs| ==> LimbHolds(C, P.limbs[i], xs[i])
    ensures forall i :: 0 <= i < |xs| ==> |xs[i]| == C.d
  {
  }

  method TransformAll(q: int, a: Poly, count: nat) returns (primes: seq<Poly>)
    requires q > 0 && 1 <= count <= 3
    ensures |primes| == count && Transforms(q, primes, a)
  {
    primes := [];
    for j := 0 to count
      invariant |primes| == j
      invariant forall t :: 0 <= t < j ==> primes[t] == Residues(Prime(t), Center(q, a))
    {
      primes := primes + [Residues(Prime(j), Center(q, a))];
    }
  }

  /** prepare_public: per limb two primes when they suffice, else three; and whether two cover the sum. */
  method PreparePublic(C: Context, xs: seq<Poly>) returns (r: Result<Operand>)
    requires C.Ok()
    ensures r.Ok? <==> |xs| > 0 && AllAccepted(C, xs)
    ensures r.Ok? ==> OperandHolds(C, r.value, xs)
    ensures r.Ok? ==> (r.value.sumFitsTwo <==> BoundSum(Maxima(C.q, xs), |xs|) * (2 * C.d * (C.q / 2)) < Capacity(2))
  {
    hide *;
    ContextSizes(C);
    if |xs| == 0 {
      return Err(LweShape);
    }
    var limbs := [];
    var sumMax := 0;
    ghost var maxima := Maxima(C.q, xs);
    BoundNil(maxima);
    for l := 0 to |xs|
      invariant |limbs| == l && sumMax == BoundSum(maxima, l)
      invariant forall i :: 0 <= i < l ==> C.Accepts(xs[i]) && LimbHolds(C, limbs[i], xs[i])
    {
      if !C.Accepts(xs[l]) {
        NotAll(C, xs, l);
        return Err(LweShape);
      }
      var max := MaxAbs(Center(C.q, xs[l]));
      BoundSumStep(maxima, l);
      sumMax := sumMax + max;
      var bound := 2 * C.d * max * (C.q / 2);
      var count := if Capacity(2) > bound then 2 else 3;
      var primes := TransformAll(C.q, xs[l], count);
      LimbFrom(C, primes, xs[l]);
      limbs := limbs + [primes];
    }
    AllFrom(C, xs);
    var fits := sumMax * (2 * C.d * (C.q / 2)) < Capacity(2);
    r := Ok(Operand(C.d, C.q, limbs, fits));
    OperandFrom(C, r.value, xs);
  }

  lemma LimbFrom(C: Context, limb: seq<Poly>, a: Poly)
    requires C.Ok() && C.q > 0 && Transforms(C.q, limb, a) && 2 <= |limb|
    requires |limb| == 2 <==> 2 * C.d * MaxAbs(Center(C.q, a)) * (C.q / 2) < Capacity(2)
    ensures LimbHolds(C, limb, a)
  {
  }

  lemma OperandFrom(C: Context, P: Operand, xs: seq<Poly>)
    requires C.Ok() && C.q > 0 && P.d == C.d && P.q == C.q && |P.limbs| == |xs| > 0 && AllAccepted(C, xs)
    requires forall i :: 0 <= i < |xs| ==> LimbHolds(C, P.limbs[i], xs[i])
    requires P.sumFitsTwo ==> BoundSum(Maxima(C.q, xs), |xs|) * (2 * C.d * (C.q / 2)) < Capacity(2)
    ensures OperandHolds(C, P, xs)
  {
  }

  /** Whichever prime count a limb carries, it covers the limb's product. */
  lemma LimbCovers(C: Context, limb: seq<Poly>, a: Poly, b: Poly, k: nat)
    requires C.Ok() && C.Accepts(a) && C.Accepts(b) && LimbHolds(C, limb, a)
    ensures 2 <= |limb| <= 3 && 2 * Abs(Exact(C, a, b, k)) < Capacity(|limb|)
  {
    hide *;
    LimbParts(C, limb, a);
    AcceptsParts(C, a);
    if |limb| == 2 {
      MaxBounded(Center(C.q, a));
      ExactBound(C, a, b, MaxAbs(Center(C.q, a)), k);
    } else {
      CenterAgrees(C.q, a);
      ExactBound(C, a, b, C.q / 2, k);
      ThreeSuffice(C);
    }
  }

  /** Products of the stored residues, one per prime of the left operand. */
  method LimbProducts(C: Context, left: seq<Poly>, right: seq<Poly>, ghost a: Poly, ghost b: Poly) returns (residues: seq<Poly>)
    requires C.Ok() && C.q > 0 && C.Accepts(a) && C.Accepts(b)
    requires Transforms(C.q, left, a) && Transforms(C.q, right, b) && |left| <= |right|
    ensures |residues| == |left| <= 3
    ensures forall j :: 0 <= j < |left| ==> |residues[j]| == C.d
    ensures forall j, k :: 0 <= j < |left| && 0 <= k < C.d ==> residues[j][k] == Exact(C, a, b, k) % Prime(j)
  {
    hide *;
    TransformsSize(C.q, left, a);
    TransformsSize(C.q, right, b);
    AcceptsParts(C, a);
    AcceptsParts(C, b);
    ContextSizes(C);
    residues := [];
    for j := 0 to |left|
      invariant |residues| == j
      invariant forall t :: 0 <= t < j ==> |residues[t]| == C.d
      invariant forall t, k :: 0 <= t < j && 0 <= k < C.d ==> residues[t][k] == Exact(C, a, b, k) % Prime(t)
    {
      TransformsAt(C.q, left, a, j);
      TransformsAt(C.q, right, b, j);
      var product := Mul(Prime(j), left[j], right[j]);
      forall k | 0 <= k < C.d
        ensures product[k] == Exact(C, a, b, k) % Prime(j)
      {
        ExactMeans(C, a, b, k);
      }
      residues := residues + [product];
    }
  }

  /** Adds one reconstructed product into the running result, masked or by remainder. */
  method AddLimb(C: Context, result: array<int>, left: seq<Poly>, right: seq<Poly>, masked: bool, ghost a: Poly, ghost b: Poly)
    requires C.Ok() && C.q > 0 && C.Accepts(a) && C.Accepts(b) && result.Length == C.d && Canon(C.q, result[..])
    requires LimbHolds(C, left, a) && Transforms(C.q, right, b) && |left| <= |right|
    requires masked ==> PowerOfTwo(C.q)
    modifies result
    ensures |a| == |b| == C.d > 0 && result[..] == Add(C.q, old(result[..]), Mul(C.q, a, b))
  {
    hide *;
    ContextSizes(C);
    LimbParts(C, left, a);
    AcceptsParts(C, a);
    AcceptsParts(C, b);
    var residues := LimbProducts(C, left, right, a, b);
    ghost var before, want := result[..], Add(C.q, result[..], Mul(C.q, a, b));
    for i := 0 to C.d
      invariant forall k :: 0 <= k < i ==> result[k] == want[k]
      invariant forall k :: i <= k < C.d ==> result[k] == before[k]
    {
      LimbCovers(C, left, a, b, i);
      var signed := Garner(Across(residues, i), Exact(C, a, b, i));
      ExactMeans(C, a, b, i);
      AddEntry(C.q, before, Mul(C.q, a, b), i);
      AddSigned(C.q, result[i], signed);
      if masked {
        result[i] := Wrap(result[i] + Wrap(signed)) % C.q;
      } else {
        result[i] := (result[i] + signed % C.q) % C.q;
      }
    }
    assert result[..] == want;
  }

  lemma AddSigned(q: int, x: int, v: int)
    requires 0 < q <= WORD
    ensures (x + v % q) % q == (x + v) % q
    ensures PowerOfTwo(q) ==> Wrap(x + Wrap(v)) % q == (x + v % q) % q
  {
    hide *;
    ModAdd(x, v, q);
    if PowerOfTwo(q) {
      MaskedSigned(v, q);
      MaskedSigned(x + Wrap(v), q);
      ModAdd(x, Wrap(v), q);
    }
  }

  /** sum_prepared: prepared public operands against canonical right operands. */
  method SumPrepared(C: Context, P: Operand, ys: seq<Poly>, ghost D: Context, ghost xs: seq<Poly>) returns (r: Result<Poly>)
    requires C.Ok() && D.Ok() && OperandHolds(D, P, xs)
    ensures r.Ok? <==> C == D && |xs| == |ys| && AllAccepted(C, ys)
    ensures r.Ok? ==> C.q > 0 && C.d > 0 && (forall i :: 0 <= i < |xs| ==> |xs[i]| == C.d && |ys[i]| == C.d)
                      && r.value == Dot(C.q, C.d, xs, ys, |xs|)
  {
    hide *;
    ContextSizes(C);
    OperandParts(D, P, xs);
    if P.d != C.d || P.q != C.q || |P.limbs| != |ys| {
      return Err(LweShape);
    }
    assert C == D;
    var result := new int[C.d](_ => 0);
    ZeroIs(C.q, result[..]);
    DotNil(C.q, C.d, xs, ys);
    for l := 0 to |ys|
      invariant forall i :: 0 <= i < l ==> C.Accepts(ys[i]) && |ys[i]| == C.d
      invariant result[..] == Dot(C.q, C.d, xs, ys, l)
    {
      if !C.Accepts(ys[l]) {
        NotAll(C, ys, l);
        return Err(LweShape);
      }
      AcceptedAt(C, xs, l);
      AcceptsParts(C, ys[l]);
      LimbParts(C, P.limbs[l], xs[l]);
      var right := TransformAll(C.q, ys[l], |P.limbs[l]|);
      AddLimb(C, result, P.limbs[l], right, PowerOfTwo(C.q), xs[l], ys[l]);
      DotStep(C.q, C.d, xs, ys, l);
    }
    AllFrom(C, ys);
    r := Ok(result[..]);
  }

  lemma ZeroIs(q: int, p: Poly)
    requires q > 0 && forall i :: 0 <= i < |p| ==> p[i] == 0
    ensures p == Zero(|p|) && Canon(q, p)
  {
  }

  // ----- both operands prepared -----

  datatype Right = Right(d: nat, q: int, limbs: seq<seq<Poly>>)

  ghost predicate RightHolds(C: Context, R: Right, ys: seq<Poly>)
    requires C.Ok()
  {
    && R.d == C.d && R.q == C.q && |R.limbs| == |ys| > 0 && AllAccepted(C, ys)
    && forall i :: 0 <= i < |ys| ==> Transforms(C.q, R.limbs[i], ys[i])
  }

  lemma RightParts(C: Context, R: Right, ys: seq<Poly>)
    requires C.Ok() && RightHolds(C, R, ys)
    ensures C.q > 0 && R.d == C.d && R.q == C.q && |R.limbs| == |ys| > 0 && AllAccepted(C, ys) && Sized(C.d, ys)
    ensures forall i :: 0 <= i < |ys| ==> Transforms(C.q, R.limbs[i], ys[i])
    ensures forall i :: 0 <= i < |ys| ==> |ys[i]| == C.d
  {
  }

  lemma RightFrom(C: Context, R: Right, ys: seq<Poly>)
    requires C.Ok() && C.q > 0 && R.d == C.d && R.q == C.q && |R.limbs| == |ys| > 0 && AllAccepted(C, ys)
    requires forall i :: 0 <= i < |ys| ==> Transforms(C.q, R.limbs[i], ys[i])
    ensures RightHolds(C, R, ys)
  {
  }

  /** prepare_right_primes. */
  method PrepareRightPrimes(C: Context, ys: seq<Poly>, count: nat) returns (r: Result<Right>)
    requires C.Ok() && 1 <= count <= 3
    ensures r.Ok? <==> |ys| > 0 && AllAccepted(C, ys)
    ensures r != Err(InvalidParams)
    ensures r.Ok? ==> RightHolds(C, r.value, ys) && forall i :: 0 <= i < |ys| ==> |r.value.limbs[i]| == count
  {
    hide *;
    ContextSizes(C);
    if |ys| == 0 {
      return Err(LweShape);
    }
    var limbs := [];
    for l := 0 to |ys|
      invariant |limbs| == l
      invariant forall i :: 0 <= i < l ==> C.Accepts(ys[i]) && |limbs[i]| == count && Transforms(C.q, limbs[i], ys[i])
    {
      if !C.Accepts(ys[l]) {
        NotAll(C, ys, l);
        return Err(LweShape);
      }
      var primes := TransformAll(C.q, ys[l], count);
      limbs := limbs + [primes];
    }
    AllFrom(C, ys);
    r := Ok(Right(C.d, C.q, limbs));
    RightFrom(C, r.value, ys);
  }

  /** prepare_bounded_right: the public left bound picks two or three primes for every block. */
  method PrepareBoundedRight(C: Context, ys: seq<Poly>, leftBound: nat) returns (r: Result<Right>)
    requires C.Ok()
    ensures r == Err(InvalidParams) <==> leftBound > C.q / 2
    ensures r.Ok? <==> leftBound <= C.q / 2 && |ys| > 0 && AllAccepted(C, ys)
    ensures r.Ok? ==> RightHolds(C, r.value, ys)
    ensures r.Ok? ==> forall i :: 0 <= i < |ys| ==>
              |r.value.limbs[i]| == if 2 * C.d * leftBound * (C.q / 2) < Capacity(2) then 2 else 3
  {
    hide *;
    if leftBound > C.q / 2 {
      return Err(InvalidParams);
    }
    var bound := 2 * C.d * leftBound * (C.q / 2);
    var count := if bound < Capacity(2) then 2 else 3;
    r := PrepareRightPrimes(C, ys, count);
    if r.Err? {
      return;
    }
    RightSize(C, r.value, ys);
  }

  lemma RightSize(C: Context, R: Right, ys: seq<Poly>)
    requires C.Ok() && RightHolds(C, R, ys)
    ensures |R.limbs| == |ys|
  {
  }

  /** A right operand prepared under a bound on the left covers every left operand within that bound. */
  lemma BoundedRightCovers(C: Context, P: Operand, xs: seq<Poly>, R: Right, ys: seq<Poly>, leftBound: nat, i: nat)
    requires C.Ok() && OperandHolds(C, P, xs) && RightHolds(C, R, ys) && |xs| == |ys| && i < |xs|
    requires MaxAbs(Center(C.q, xs[i])) <= leftBound <= C.q / 2
    requires |P.limbs| == |xs| && |R.limbs| == |ys|
    requires |R.limbs[i]| == if 2 * C.d * leftBound * (C.q / 2) < Capacity(2) then 2 else 3
    ensures |P.limbs[i]| <= |R.limbs[i]|
  {
    hide *;
    OperandParts(C, P, xs);
    LimbParts(C, P.limbs[i], xs[i]);
    ScaledBound(2 * C.d, MaxAbs(Center(C.q, xs[i])), leftBound, C.q / 2);
  }

  lemma ScaledBound(c: nat, x: int, y: int, h: int)
    requires x <= y && h >= 0
    ensures c * x * h <= c * y * h
  {
    assert c * x <= c * y;
  }

  /** sum_cached: per limb, or over the whole sum when two primes cover it. */
  method SumCached(C: Context, P: Operand, R: Right, ghost D: Context, ghost E: Context, ghost xs: seq<Poly>, ghost ys: seq<Poly>)
    returns (r: Result<Poly>)
    requires C.Ok() && D.Ok() && E.Ok() && OperandHolds(D, P, xs) && RightHolds(E, R, ys)
    ensures |P.limbs| == |xs| && |R.limbs| == |ys|
    ensures r.Ok? <==> C == D == E && |xs| == |ys| && forall i :: 0 <= i < |xs| ==> |P.limbs[i]| <= |R.limbs[i]|
    ensures r.Ok? ==> C.q > 0 && C.d > 0 && (forall i :: 0 <= i < |xs| ==> |xs[i]| == C.d && |ys[i]| == C.d)
                      && r.value == Dot(C.q, C.d, xs, ys, |xs|)
  {
    hide *;
    ContextSizes(C);
    OperandParts(D, P, xs);
    RightParts(E, R, ys);
    if P.d != C.d || R.d != C.d || P.q != C.q || R.q != C.q || |P.limbs| != |R.limbs| {
      return Err(LweShape);
    }
    assert C == D == E;
    if exists i :: 0 <= i < |P.limbs| && |P.limbs[i]| > |R.limbs[i]| {
      return Err(LweShape);
    }
    if P.sumFitsTwo {
      var sum := SumCachedTwo(C, P, R, xs, ys);
      return Ok(sum);
    }
    var result := new int[C.d](_ => 0);
    ZeroIs(C.q, result[..]);
    DotNil(C.q, C.d, xs, ys);
    for l := 0 to |P.limbs|
      invariant result[..] == Dot(C.q, C.d, xs, ys, l)
    {
      AcceptedAt(C, xs, l);
      AcceptedAt(C, ys, l);
      AddLimb(C, result, P.limbs[l], R.limbs[l], false, xs[l], ys[l]);
      DotStep(C.q, C.d, xs, ys, l);
    }
    r := Ok(result[..]);
  }

  /** Every coefficient of every left operand is at most the bound in magnitude. */
  predicate WithinBound(q: int, xs: seq<Poly>, bound: int)
    requires q > 0
  {
    forall i :: 0 <= i < |xs| ==> Bounded(Center(q, xs[i]), bound)
  }

  /** Left operands within the public bound and right operands prepared under it: sum_cached never refuses them,
      whichever prime counts the two sides chose, and returns the sum of ring products. */
  method SumBounded(C: Context, xs: seq<Poly>, ys: seq<Poly>, leftBound: nat) returns (r: Result<Poly>)
    requires C.Ok() && C.q > 0 && |xs| == |ys| > 0 && AllAccepted(C, xs) && AllAccepted(C, ys)
    requires leftBound <= C.q / 2 && WithinBound(C.q, xs, leftBound)
    ensures C.d > 0 && forall i :: 0 <= i < |xs| ==> |xs[i]| == C.d && |ys[i]| == C.d
    ensures r == Ok(Dot(C.q, C.d, xs, ys, |xs|))
  {
    hide *;
    ContextSizes(C);
    var left := PreparePublic(C, xs);
    var right := PrepareBoundedRight(C, ys, leftBound);
    OperandParts(C, left.value, xs);
    RightParts(C, right.value, ys);
    forall i | 0 <= i < |xs|
      ensures |left.value.limbs[i]| <= |right.value.limbs[i]|
    {
      WithinAt(C.q, xs, leftBound, i);
      BoundedRightCovers(C, left.value, xs, right.value, ys, leftBound, i);
    }
    r := SumCached(C, left.value, right.value, C, C, xs, ys);
  }

  lemma WithinAt(q: int, xs: seq<Poly>, bound: nat, i: nat)
    requires q > 0 && WithinBound(q, xs, bound) && i < |xs|
    ensures MaxAbs(Center(q, xs[i])) <= bound
  {
    MaxLeast(Center(q, xs[i]), bound);
  }

  lemma MaxLeast(p: Poly, bound: nat)
    requires Bounded(p, bound)
    ensures MaxAbs(p) <= bound
  {
    if |p| > 0 {
      var i :| 0 <= i < |p| && Abs(p[i]) == MaxAbs(p);
    }
  }

  function CenterAll(q: int, xs: seq<Poly>): (r: seq<Poly>)
    requires q > 0
    ensures |r| == |xs| && forall i :: 0 <= i < |xs| ==> r[i] == Center(q, xs[i]) && |r[i]| == |xs[i]|
  {
    seq(|xs|, i requires 0 <= i < |xs| => Center(q, xs[i]))
  }

  /** Coefficient k of the exact integer sum of products. */
  function ExactSum(C: Context, xs: seq<Poly>, ys: seq<Poly>, k: nat): (r: int)
    requires C.Ok() && AllAccepted(C, xs) && AllAccepted(C, ys) && |xs| == |ys|
  {
    AllSizes(C, xs);
    AllSizes(C, ys);
    ConvSum(C.d, CenterAll(C.q, xs), CenterAll(C.q, ys), k, |xs|)
  }

  lemma ExactSumIs(C: Context, xs: seq<Poly>, ys: seq<Poly>, k: nat)
    requires C.Ok() && AllAccepted(C, xs) && AllAccepted(C, ys) && |xs| == |ys|
    ensures C.q > 0 && C.d > 0 && Sized(C.d, CenterAll(C.q, xs)) && Sized(C.d, CenterAll(C.q, ys))
    ensures Sized(C.d, xs) && Sized(C.d, ys)
    ensures ExactSum(C, xs, ys, k) == ConvSum(C.d, CenterAll(C.q, xs), CenterAll(C.q, ys), k, |xs|)
  {
  }

  lemma ExactSumModQ(C: Context, xs: seq<Poly>, ys: seq<Poly>, k: nat)
    requires C.Ok() && AllAccepted(C, xs) && AllAccepted(C, ys) && |xs| == |ys| && k < C.d
    ensures C.q > 0 && (forall i :: 0 <= i < |xs| ==> |xs[i]| == C.d && |ys[i]| == C.d)
    ensures Dot(C.q, C.d, xs, ys, |xs|)[k] == ExactSum(C, xs, ys, k) % C.q
  {
    hide *;
    ExactSumIs(C, xs, ys, k);
    AllSizes(C, xs);
    AllSizes(C, ys);
    var cx, cy := CenterAll(C.q, xs), CenterAll(C.q, ys);
    forall i | 0 <= i < |xs|
      ensures Agree(C.q, cx[i], xs[i]) && Agree(C.q, cy[i], ys[i])
    {
      AcceptedAt(C, xs, i);
      AcceptedAt(C, ys, i);
      CenterAgrees(C.q, xs[i]);
      CenterAgrees(C.q, ys[i]);
    }
    DotIsConv(C.q, C.d, cx, cy, xs, ys, k, |xs|);
  }

  /** Residue limbs of both sides, summed in the auxiliary ring. */
  lemma ExactSumModPrime(C: Context, xs: seq<Poly>, ys: seq<Poly>, us: seq<Poly>, vs: seq<Poly>, p: int, k: nat)
    requires C.Ok() && AllAccepted(C, xs) && AllAccepted(C, ys) && |xs| == |ys| == |us| == |vs| && k < C.d && p > 0 && C.q > 0
    requires forall i :: 0 <= i < |xs| ==> us[i] == Residues(p, Center(C.q, xs[i])) && vs[i] == Residues(p, Center(C.q, ys[i]))
    ensures forall i :: 0 <= i < |us| ==> |us[i]| == C.d && |vs[i]| == C.d
    ensures Dot(p, C.d, us, vs, |xs|)[k] == ExactSum(C, xs, ys, k) % p
  {
    hide *;
    ExactSumIs(C, xs, ys, k);
    AllSizes(C, xs);
    AllSizes(C, ys);
    var cx, cy := CenterAll(C.q, xs), CenterAll(C.q, ys);
    forall i | 0 <= i < |xs|
      ensures Agree(p, cx[i], us[i]) && Agree(p, cy[i], vs[i]) && |us[i]| == C.d && |vs[i]| == C.d
    {
      ResiduesAgree(p, cx[i]);
      ResiduesAgree(p, cy[i]);
    }
    SizedFrom(C.d, us);
    SizedFrom(C.d, vs);
    DotIsConv(p, C.d, cx, cy, us, vs, k, |xs|);
  }

  /** d B (A_1 + ... + A_n) bounds the whole sum. */
  lemma ExactSumBound(C: Context, xs: seq<Poly>, ys: seq<Poly>, B: int, k: nat)
    requires C.Ok() && AllAccepted(C, xs) && AllAccepted(C, ys) && |xs| == |ys| && C.q > 0
    requires forall i :: 0 <= i < |ys| ==> Bounded(Center(C.q, ys[i]), B)
    ensures 2 * Abs(ExactSum(C, xs, ys, k)) <= BoundSum(Maxima(C.q, xs), |xs|) * C.d * B * 2
  {
    hide *;
    ExactSumIs(C, xs, ys, k);
    var cx, cy := CenterAll(C.q, xs), CenterAll(C.q, ys);
    forall i | 0 <= i < |xs|
      ensures Bounded(cx[i], Maxima(C.q, xs)[i])
    {
      MaxBounded(cx[i]);
    }
    ConvSumBound(C.d, cx, cy, Maxima(C.q, xs), B, k, |xs|);
    Regroup(C.d, BoundSum(Maxima(C.q, xs), |xs|), B);
  }

  lemma Regroup(d: int, s: int, B: int)
    ensures 2 * (d * (s * B)) == s * d * B * 2
  {
    assert d * (s * B) == s * d * B by {
      assert d * (s * B) == (d * s) * B;
    }
  }

  lemma SumShape(s: int, d: int, h: int)
    ensures s * (2 * d * h) == s * d * h * 2
  {
    assert s * (2 * (d * h)) == 2 * (s * (d * h));
    assert s * (d * h) == s * d * h;
    assert 2 * d * h == 2 * (d * h);
  }

  /** One prime's residues of the whole sum: products accumulated before the inverse transform. */
  method SumResidues(C: Context, us: seq<Poly>, vs: seq<Poly>, p: int) returns (sum: Poly)
    requires C.Ok() && p > 0 && C.d > 0 && |us| == |vs| && forall i :: 0 <= i < |us| ==> |us[i]| == C.d && |vs[i]| == C.d
    ensures sum == Dot(p, C.d, us, vs, |us|) && |sum| == C.d
  {
    hide *;
    DotNil(p, C.d, us, vs);
    sum := Zero(C.d);
    for l := 0 to |us|
      invariant sum == Dot(p, C.d, us, vs, l)
    {
      DotStep(p, C.d, us, vs, l);
      var product := Mul(p, us[l], vs[l]);
      var next := new int[C.d];
      ghost var want := Add(p, sum, product);
      for i := 0 to C.d
        invariant forall k :: 0 <= k < i ==> next[k] == want[k]
      {
        AddEntry(p, sum, product, i);
        CanonAt(p, sum, i);
        CanonAt(p, product, i);
        ReduceSum(sum[i], product[i], p);
        var value := sum[i] + product[i];
        next[i] := if value >= p then value - p else value;
      }
      sum := next[..];
    }
  }

  function Column(limbs: seq<seq<Poly>>, j: nat): (r: seq<Poly>)
    requires forall i :: 0 <= i < |limbs| ==> j < |limbs[i]|
    ensures |r| == |limbs| && forall i :: 0 <= i < |limbs| ==> r[i] == limbs[i][j]
  {
    seq(|limbs|, i requires 0 <= i < |limbs| => limbs[i][j])
  }

  /** sum_cached_two: reconstructs the whole integer sum once. */
  method SumCachedTwo(C: Context, P: Operand, R: Right, ghost xs: seq<Poly>, ghost ys: seq<Poly>) returns (r: Poly)
    requires C.Ok() && OperandHolds(C, P, xs) && RightHolds(C, R, ys) && |xs| == |ys| && P.sumFitsTwo
    requires |P.limbs| == |xs| && |R.limbs| == |ys| && forall i :: 0 <= i < |xs| ==> |P.limbs[i]| <= |R.limbs[i]|
    ensures C.q > 0 && C.d > 0 && (forall i :: 0 <= i < |xs| ==> |xs[i]| == C.d && |ys[i]| == C.d)
    ensures r == Dot(C.q, C.d, xs, ys, |xs|)
  {
    hide *;
    ContextSizes(C);
    OperandParts(C, P, xs);
    RightParts(C, R, ys);
    forall i | 0 <= i < |xs|
      ensures 2 <= |P.limbs[i]| <= |R.limbs[i]| <= 3
    {
      LimbParts(C, P.limbs[i], xs[i]);
      TransformsSize(C.q, R.limbs[i], ys[i]);
    }
    var residues: seq<Poly> := [];
    for j := 0 to 2
      invariant |residues| == j
      invariant forall t :: 0 <= t < j ==> |residues[t]| == C.d
      invariant forall t, k :: 0 <= t < j && 0 <= k < C.d ==> residues[t][k] == ExactSum(C, xs, ys, k) % Prime(t)
    {
      var us, vs := Column(P.limbs, j), Column(R.limbs, j);
      forall i | 0 <= i < |xs|
        ensures us[i] == Residues(Prime(j), Center(C.q, xs[i])) && vs[i] == Residues(Prime(j), Center(C.q, ys[i]))
        ensures |us[i]| == C.d && |vs[i]| == C.d
      {
        LimbParts(C, P.limbs[i], xs[i]);
        TransformsAt(C.q, P.limbs[i], xs[i], j);
        TransformsAt(C.q, R.limbs[i], ys[i], j);
      }
      var sum := SumResidues(C, us, vs, Prime(j));
      forall k | 0 <= k < C.d
        ensures sum[k] == ExactSum(C, xs, ys, k) % Prime(j)
      {
        ExactSumModPrime(C, xs, ys, us, vs, Prime(j), k);
      }
      residues := residues + [sum];
    }
    PrimeValues();
    forall i | 0 <= i < |ys|
      ensures Bounded(Center(C.q, ys[i]), C.q / 2)
    {
      AcceptedAt(C, ys, i);
      CenterAgrees(C.q, ys[i]);
    }
    SumShape(BoundSum(Maxima(C.q, xs), |xs|), C.d, C.q / 2);
    r := ReconstructAllTwo(C, residues[0], residues[1], xs, ys, C.q / 2);
  }

  lemma PrimeValues()
    ensures Prime(0) == P0 && Prime(1) == P1 && Prime(2) == P2
  {
  }

  method ReconstructAllTwo(C: Context, r0: Poly, r1: Poly, ghost xs: seq<Poly>, ghost ys: seq<Poly>, ghost B: int) returns (r: Poly)
    requires C.Ok() && AllAccepted(C, xs) && AllAccepted(C, ys) && |xs| == |ys| && C.q > 0
    requires |r0| == |r1| == C.d && forall i :: 0 <= i < |ys| ==> Bounded(Center(C.q, ys[i]), B)
    requires BoundSum(Maxima(C.q, xs), |xs|) * C.d * B * 2 < Capacity(2)
    requires forall k :: 0 <= k < C.d ==> r0[k] == ExactSum(C, xs, ys, k) % P0
    requires forall k :: 0 <= k < C.d ==> r1[k] == ExactSum(C, xs, ys, k) % P1
    ensures C.d > 0 && (forall i :: 0 <= i < |xs| ==> |xs[i]| == C.d && |ys[i]| == C.d)
    ensures r == Dot(C.q, C.d, xs, ys, |xs|)
  {
    hide *;
    ContextSizes(C);
    AllSizes(C, xs);
    AllSizes(C, ys);
    var out := new int[C.d];
    ghost var want := Dot(C.q, C.d, xs, ys, |xs|);
    for k := 0 to C.d
      invariant forall i :: 0 <= i < k ==> out[i] == want[i]
    {
      ExactSumBound(C, xs, ys, B, k);
      ExactSumModQ(C, xs, ys, k);
      ReconstructsTwo(C.q, ExactSum(C, xs, ys, k));
      out[k] := ReconstructTwo(C.q, r0[k], r1[k]);
    }
    r := out[..];
  }

  // ----- public dot products -----

  /** Transforms by prime, then by operand; the capacity covers the whole sum. */
  datatype PublicDot = PublicDot(d: nat, q: int, rightBound: nat, primes: seq<seq<Poly>>)

  ghost predicate DotHolds(C: Context, P: PublicDot, xs: seq<Poly>)
    requires C.Ok()
  {
    && P.d == C.d && P.q == C.q && P.rightBound <= C.q / 2 && |xs| > 0 && AllAccepted(C, xs) && 2 <= |P.primes| <= 3
    && (forall j :: 0 <= j < |P.primes| ==> |P.primes[j]| == |xs|)
    && (forall j, i :: 0 <= j < |P.primes| && 0 <= i < |xs| ==> P.primes[j][i] == Residues(Prime(j), Center(C.q, xs[i])))
    && BoundSum(Maxima(C.q, xs), |xs|) * C.d * P.rightBound * 2 < Capacity(|P.primes|)
  }

  lemma DotParts(C: Context, P: PublicDot, xs: seq<Poly>)
    requires C.Ok() && DotHolds(C, P, xs)
    ensures C.q > 0 && P.d == C.d && P.q == C.q && P.rightBound <= C.q / 2 && |xs| > 0 && AllAccepted(C, xs)
    ensures 2 <= |P.primes| <= 3 && forall j :: 0 <= j < |P.primes| ==> |P.primes[j]| == |xs|
    ensures forall j, i :: 0 <= j < |P.primes| && 0 <= i < |xs| ==> P.primes[j][i] == Residues(Prime(j), Center(C.q, xs[i]))
    ensures BoundSum(Maxima(C.q, xs), |xs|) * C.d * P.rightBound * 2 < Capacity(|P.primes|)
  {
  }

  lemma DotFrom(C: Context, P: PublicDot, xs: seq<Poly>)
    requires C.Ok() && C.q > 0
    requires P.d == C.d && P.q == C.q && P.rightBound <= C.q / 2 && |xs| > 0 && AllAccepted(C, xs) && 2 <= |P.primes| <= 3
    requires forall j :: 0 <= j < |P.primes| ==> |P.primes[j]| == |xs|
    requires forall j, i :: 0 <= j < |P.primes| && 0 <= i < |xs| ==> P.primes[j][i] == Residues(Prime(j), Center(C.q, xs[i]))
    requires BoundSum(Maxima(C.q, xs), |xs|) * C.d * P.rightBound * 2 < Capacity(|P.primes|)
    ensures DotHolds(C, P, xs)
  {
  }

  /** prepare_public_dot: accepted exactly when the shapes are right and some prime count covers the sum. */
  method PreparePublicDot(C: Context, xs: seq<Poly>, rightBound: nat) returns (r: Result<PublicDot>)
    requires C.Ok()
    ensures C.q > 0 && (r == Err(LweShape) <==> |xs| == 0 || rightBound > C.q / 2 || !AllAccepted(C, xs))
    ensures r.Ok? <==> |xs| > 0 && rightBound <= C.q / 2 && AllAccepted(C, xs)
                       && BoundSum(Maxima(C.q, xs), |xs|) * C.d * rightBound * 2 < Capacity(3)
    ensures r.Ok? ==> DotHolds(C, r.value, xs) && r.value.rightBound == rightBound
  {
    hide *;
    ContextSizes(C);
    if |xs| == 0 || rightBound > C.q / 2 {
      return Err(LweShape);
    }
    var maxima := 0;
    ghost var ms := Maxima(C.q, xs);
    BoundNil(ms);
    for l := 0 to |xs|
      invariant maxima == BoundSum(ms, l)
      invariant forall i :: 0 <= i < l ==> C.Accepts(xs[i])
    {
      if !C.Accepts(xs[l]) {
        NotAll(C, xs, l);
        return Err(LweShape);
      }
      BoundSumStep(ms, l);
      maxima := maxima + MaxAbs(Center(C.q, xs[l]));
    }
    AllFrom(C, xs);
    var need := maxima * C.d * rightBound * 2;
    var count: nat;
    CapacityGrows();
    if need < Capacity(2) {
      count := 2;
    } else if need < Capacity(3) {
      count := 3;
    } else {
      return Err(InvalidParams);
    }
    var primes: seq<seq<Poly>> := [];
    for j := 0 to count
      invariant |primes| == j
      invariant forall t :: 0 <= t < j ==> |primes[t]| == |xs|
      invariant forall t, i :: 0 <= t < j && 0 <= i < |xs| ==> primes[t][i] == Residues(Prime(t), Center(C.q, xs[i]))
    {
      var operands := [];
      for l := 0 to |xs|
        invariant |operands| == l
        invariant forall i :: 0 <= i < l ==> operands[i] == Residues(Prime(j), Center(C.q, xs[i]))
      {
        operands := operands + [Residues(Prime(j), Center(C.q, xs[l]))];
      }
      primes := primes + [operands];
    }
    r := Ok(PublicDot(C.d, C.q, rightBound, primes));
    DotFrom(C, r.value, xs);
  }

  lemma CapacityGrows()
    ensures Capacity(2) < Capacity(3)
  {
  }

  /** The right operand's residue, by one addition when the bound is below the prime. */
  lemma RightResidue(v: int, B: int, p: int)
    requires p > 0 && Abs(v) <= B
    ensures B < p ==> (if v < 0 then v + p else v) == v % p
  {
    if B < p {
      if v < 0 {
        ModMultiple(v, 1, p);
        ModSmall(v + p, p);
      } else {
        ModSmall(v, p);
      }
    }
  }

  /** The residues of one right-hand polynomial modulo p. */
  method RightResidues(q: int, y: Poly, bound: nat, p: int) returns (r: Poly)
    requires q > 0 && p > 0 && Bounded(Center(q, y), bound)
    ensures r == Residues(p, Center(q, y))
  {
    hide *;
    var c := Center(q, y);
    var raw := new int[|y|];
    ghost var want := Residues(p, c);
    for i := 0 to |y|
      invariant forall k :: 0 <= k < i ==> raw[k] == want[k]
    {
      BoundedAt(c, bound, i);
      RightResidue(c[i], bound, p);
      var signed := Centered(y[i], q);
      raw[i] := if bound < p then (if signed < 0 then signed + p else signed) else signed % p;
    }
    r := raw[..];
  }

  /** public_dot: exact for every right operand within the declared bound. */
  method EvalPublicDot(C: Context, P: PublicDot, ys: seq<Poly>, ghost D: Context, ghost xs: seq<Poly>) returns (r: Result<Poly>)
    requires C.Ok() && D.Ok() && DotHolds(D, P, xs)
    ensures C.q > 0
    ensures r.Ok? <==> C == D && |xs| == |ys| && AllAccepted(C, ys)
                       && forall i :: 0 <= i < |ys| ==> Bounded(Center(C.q, ys[i]), P.rightBound)
    ensures r.Ok? ==> C.d > 0 && (forall i :: 0 <= i < |xs| ==> |xs[i]| == C.d && |ys[i]| == C.d)
                      && r.value == Dot(C.q, C.d, xs, ys, |xs|)
  {
    hide *;
    ContextSizes(C);
    DotParts(D, P, xs);
    if P.d != C.d || P.q != C.q || |P.primes[0]| != |ys| {
      return Err(LweShape);
    }
    assert C == D;
    for l := 0 to |ys|
      invariant forall i :: 0 <= i < l ==> C.Accepts(ys[i]) && Bounded(Center(C.q, ys[i]), P.rightBound)
    {
      if !C.Accepts(ys[l]) {
        NotAll(C, ys, l);
        return Err(LweShape);
      }
      if !Bounded(Center(C.q, ys[l]), P.rightBound) {
        return Err(LweShape);
      }
    }
    AllFrom(C, ys);
    AllSizes(C, xs);
    AllSizes(C, ys);
    var residues: seq<Poly> := [];
    for j := 0 to |P.primes|
      invariant |residues| == j
      invariant forall t :: 0 <= t < j ==> |residues[t]| == C.d
      invariant forall t, k :: 0 <= t < j && 0 <= k < C.d ==> residues[t][k] == ExactSum(C, xs, ys, k) % Prime(t)
    {
      var us, vs := P.primes[j], [];
      for l := 0 to |ys|
        invariant |vs| == l
        invariant forall i :: 0 <= i < l ==> vs[i] == Residues(Prime(j), Center(C.q, ys[i]))
      {
        var v := RightResidues(C.q, ys[l], P.rightBound, Prime(j));
        vs := vs + [v];
      }
      forall i | 0 <= i < |xs|
        ensures |us[i]| == C.d && |vs[i]| == C.d
      {
        assert us[i] == Residues(Prime(j), Center(C.q, xs[i]));
      }
      var sum := SumResidues(C, us, vs, Prime(j));
      forall k | 0 <= k < C.d
        ensures sum[k] == ExactSum(C, xs, ys, k) % Prime(j)
      {
        ExactSumModPrime(C, xs, ys, us, vs, Prime(j), k);
      }
      residues := residues + [sum];
    }
    if |residues| == 2 {
      PrimeValues();
      var two := ReconstructAllTwo(C, residues[0], residues[1], xs, ys, P.rightBound);
      return Ok(two);
    }
    var out := new int[C.d];
    ghost var want := Dot(C.q, C.d, xs, ys, |xs|);
    for k := 0 to C.d
      invariant forall i :: 0 <= i < k ==> out[i] == want[i]
    {
      ExactSumBound(C, xs, ys, P.rightBound, k);
      ExactSumModQ(C, xs, ys, k);
      var signed := Garner(Across(residues, k), ExactSum(C, xs, ys, k));
      out[k] := signed % C.q;
    }
    r := Ok(out[..]);
  }
}
