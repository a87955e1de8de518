/** Transport rounding (ipir-sp/src/modulus_switch.rs, ipir-native-client/src/wire.rs). */
module Rounding {
  import opened Modular
  import opened MachineWords
  import opened Galois
  import opened Lift

  // ----- circular distance -----

  /** Distance between two residues on the circle Z_q. */
  function Distance(q: int, x: int, y: int): (r: int)
    requires q > 0
  {
    var up, down := (x - y) % q, (y - x) % q;
    if up < down then up else down
  }

  /** Any representative of the difference bounds the distance. */
  lemma DistanceAtMost(q: int, x: int, y: int, z: int)
    requires q > 0 && Same(q, x - y, z)
    ensures 0 <= Distance(q, x, y) <= Abs(z)
  {
    DivMod(z, q);
    DivMod(-z, q);
    SubRight(0, x - y, q);
    SubRight(0, z, q);
    assert y - x == 0 - (x - y);
    if z >= 0 {
      SmallRemainder(z, q);
    } else {
      SmallRemainder(-z, q);
    }
  }

  lemma SmallRemainder(z: int, q: int)
    requires q > 0 && z >= 0
    ensures 0 <= z % q <= z
  {
    DivMod(z, q);
    if z / q < 0 {
      MulStrict(z / q, q);
    }
    QuotientNonNegative(z / q, q);
  }

  lemma QuotientNonNegative(k: int, q: int)
    requires q > 0
    ensures k >= 0 ==> k * q >= 0
  {
  }

  // ----- nearest multiples -----

  /** Y is c * b / q rounded to nearest: |q Y - b c| is at most q / 2. */
  predicate Nearest(q: int, b: int, c: int, Y: int) {
    2 * Abs(q * Y - b * c) <= q
  }

  /** floor((n + floor(q/2)) / q) is a nearest multiple. */
  lemma FloorNearest(q: int, n: int)
    requires q > 0
    ensures var Y := (n + q / 2) / q; 2 * Abs(q * Y - n) <= q
  {
    DivMod(n + q / 2, q);
    assert ((n + q / 2) / q) * q == q * ((n + q / 2) / q);
  }

  /** Division truncating toward zero, as machine division does. */
  function Truncate(n: int, q: int): (r: int)
    requires q > 0
  {
    if n >= 0 then n / q else -((-n) / q)
  }

  /** value * qOut / qIn rounded to nearest, on centred residues, then reduced modulo qOut. */
  function RoundTo(value: int, qIn: int, qOut: int): (r: int)
    requires qIn > 0 && qOut > 0
    ensures 0 <= r < qOut
  {
    var v := value % qIn;
    var c := if v >= qIn / 2 then v - qIn else v;
    var n := c * qOut + (if c >= 0 then 1 else -1) * (qIn / 2);
    var t := Truncate(n, qIn);
    ((t + qIn / qOut * qOut + 2 * qOut) % qOut + qOut) % qOut
  }

  /** The centred residue and its rounded image. */
  lemma RoundParts(value: int, qIn: int, qOut: int) returns (c: int, Y: int)
    requires qIn > 0 && qOut > 0
    ensures Same(qIn, c, value) && Nearest(qIn, qOut, c, Y) && Same(qOut, RoundTo(value, qIn, qOut), Y)
  {
    var v := value % qIn;
    c := if v >= qIn / 2 then v - qIn else v;
    ModAdd(value, 0, qIn);
    ModMultiple(v, -1, qIn);
    var n := c * qOut + (if c >= 0 then 1 else -1) * (qIn / 2);
    Y := Truncate(n, qIn);
    TruncateNearest(qIn, qOut, c);
    ReduceResult(Y, qIn, qOut);
  }

  lemma TruncateNearest(q: int, b: int, c: int)
    requires q > 0 && b > 0
    ensures Nearest(q, b, c, Truncate(c * b + (if c >= 0 then 1 else -1) * (q / 2), q))
  {
    if c >= 0 {
      ProductNonNegative(c, b);
      FloorNearest(q, c * b);
      assert c * b == b * c;
    } else {
      ProductNonNegative(-c, b);
      FloorNearest(q, (-c) * b);
      var Y := ((-c) * b + q / 2) / q;
      assert (-c) * b == -(b * c);
      assert q * -Y == -(q * Y);
      TruncateNegative(c, b, q);
    }
  }

  lemma TruncateNegative(c: int, b: int, q: int)
    requires q > 0 && b > 0 && c < 0
    ensures Truncate(c * b + -1 * (q / 2), q) == -(((-c) * b + q / 2) / q)
  {
    ProductNonNegative(-c, b);
    assert -(c * b + -1 * (q / 2)) == (-c) * b + q / 2;
    MulStrict(c, b);
  }

  lemma ReduceResult(t: int, qIn: int, qOut: int)
    requires qOut > 0
    ensures Same(qOut, ((t + qIn / qOut * qOut + 2 * qOut) % qOut + qOut) % qOut, t)
  {
    var s := t + qIn / qOut * qOut + 2 * qOut;
    ModMultiple(t, qIn / qOut + 2, qOut);
    Distribute(qIn / qOut, 2, qOut);
    ModMultiple(s % qOut, 1, qOut);
    ModAdd(s, 0, qOut);
    ModAdd(s % qOut, 0, qOut);
    ModAdd((s % qOut + qOut) % qOut, 0, qOut);
  }

  lemma Difference(q: int, x: int, y: int) returns (k: int)
    requires Same(q, x, y)
    ensures x == y + k * q
  {
    k := Congruent(x, y, q);
  }

  /** The two roundings of a trip telescope. */
  lemma Telescope(q: int, b: int, c: int, Y: int, C2: int, Z: int, k: int)
    requires q > 0 && b > 0 && Nearest(q, b, c, Y) && Nearest(b, q, C2, Z) && C2 == Y + k * b
    ensures 2 * b * Abs(Z - k * q - c) <= q + b
  {
    hide *;
    var kb, kq, z := k * b, k * q, Z - k * q - c;
    LeftSum(q, Y, kb);
    SwapProducts(q, k, b);
    LeftDifference(b, Z, kq, c);
    NearestIs(q, b, c, Y);
    NearestIs(b, q, C2, Z);
    AbsSum(b * Z - q * C2, q * Y - b * c);
    AbsTimes(b, z);
    DoubleProduct(b, Abs(z));
  }

  lemma NearestIs(q: int, b: int, c: int, Y: int)
    ensures Nearest(q, b, c, Y) <==> 2 * Abs(q * Y - b * c) <= q
  {
  }

  lemma LeftSum(q: int, x: int, y: int)
    ensures q * (x + y) == q * x + q * y
  {
  }

  lemma LeftDifference(b: int, x: int, y: int, z: int)
    ensures b * (x - y - z) == b * x - b * y - b * z
  {
  }

  lemma SwapProducts(q: int, k: int, b: int)
    ensures q * (k * b) == b * (k * q)
  {
    assert q * (k * b) == q * k * b;
    assert b * (k * q) == k * q * b;
  }

  lemma DoubleProduct(b: int, x: int)
    ensures 2 * b * x == 2 * (b * x)
  {
  }

  lemma AbsTimes(b: int, z: int)
    requires b > 0
    ensures Abs(b * z) == b * Abs(z)
  {
    if z >= 0 {
      ProductNonNegative(z, b);
    } else {
      ProductNonNegative(-z, b);
      assert b * z == -(b * -z);
    }
  }

  lemma RoundTrip(x: int, q: int, b: int)
    requires q > 0 && b > 0
    ensures 2 * b * Distance(q, RoundTo(RoundTo(x, q, b), b, q), x) <= q + b
  {
    hide *;
    var y := RoundTo(x, q, b);
    var c, Y := RoundParts(x, q, b);
    var C2, Z := RoundParts(y, b, q);
    var back := RoundTo(y, b, q);
    SameTrans(b, C2, y, Y);
    var k := Difference(b, C2, Y);
    Telescope(q, b, c, Y, C2, Z, k);
    var z := Z - k * q - c;
    SameGap(q, back, Z, x, c, k);
    DistanceAtMost(q, back, x, z);
    ScaleOrder(2 * b, Distance(q, back, x), Abs(z));
  }

  lemma SameTrans(q: int, x: int, y: int, z: int)
    requires Same(q, x, y) && Same(q, y, z)
    ensures Same(q, x, z)
  {
  }

  lemma SameGap(q: int, back: int, Z: int, x: int, c: int, k: int)
    requires Same(q, back, Z) && Same(q, c, x)
    ensures Same(q, back - x, Z - k * q - c)
  {
    var u := Congruent(back, Z, q);
    var v := Congruent(c, x, q);
    Distribute(u, k, q);
    Distribute(u + k, v, q);
    GapShift(q, back - x, Z - k * q - c, u + k + v);
  }

  lemma GapShift(q: int, x: int, y: int, k: int)
    requires q > 0 && x == y + k * q
    ensures Same(q, x, y)
  {
    ModMultiple(y, k, q);
  }

  lemma ScaleOrder(a: int, x: int, y: int)
    requires a >= 0 && x <= y
    ensures a * x <= a * y
  {
  }

  lemma RoundIdempotent(y: int, q: int, b: int)
    requires 0 < b < q && 0 <= y < b
    ensures RoundTo(RoundTo(y, b, q), q, b) == y
  {
    hide *;
    var x := RoundTo(y, b, q);
    var C2, Z := RoundParts(y, b, q);
    var c, W := RoundParts(x, q, b);
    SameTrans(q, c, x, Z);
    var j := Difference(q, c, Z);
    Telescope(b, q, C2, Z, c, W, j);
    SmallGap(W - j * b - C2, q, b);
    SameShift(b, RoundTo(x, q, b), W, C2, y, j);
  }

  lemma SmallGap(z: int, q: int, b: int)
    requires 0 < b < q && 2 * q * Abs(z) <= b + q
    ensures z == 0
  {
    if z != 0 {
      ScaleOrder(2 * q, 1, Abs(z));
    }
  }

  lemma SameShift(b: int, r: int, W: int, C2: int, y: int, j: int)
    requires b > 0 && Same(b, r, W) && W - j * b - C2 == 0 && Same(b, C2, y) && 0 <= r < b && 0 <= y < b
    ensures r == y
  {
    ModMultiple(C2, j, b);
    ModSmall(r, b);
    ModSmall(y, b);
  }

  // ----- rescale on machine words -----

  /** Machine remainder: the sign of the dividend. */
  function Truncated(n: int, m: int): (r: int)
    requires m > 0
  {
    n - Truncate(n, m) * m
  }

  /** The modulus cast to a signed word, halved. */
  function HalfWord(qIn: int): (r: int) {
    Truncate(Signed(qIn), 2)
  }

  /** The residue cast to a signed word, less the cast modulus from its half up; the subtraction wraps. */
  function Centred(value: int, qIn: int): (c: int)
    requires qIn > 0
    ensures -HALF <= c < HALF
  {
    var v := Signed(value % qIn);
    if v >= HalfWord(qIn) then Signed(v - Signed(qIn)) else v
  }

  function Numerator(c: int, half: int, qOut: int): (r: int) {
    c * qOut + (if c >= 0 then 1 else -1) * half
  }

  /** The rounded quotient of a centred residue, moved up by multiples of qOut. */
  function Lifted(c: int, half: int, qIn: int, qOut: int): (r: int)
    requires qIn > 0 && qOut > 0
  {
    Truncate(Numerator(c, half, qOut), qIn) + qIn / qOut * qOut + 2 * qOut
  }

  /** rescale with its 64-bit casts; RescaleStepsFit says that its 128-bit steps are exact. */
  function Rescale(value: int, qIn: int, qOut: int): (r: int)
    requires 0 < qIn < WORD && 0 < qOut < WORD
    ensures 0 <= r < qOut
  {
    (Truncated(Lifted(Centred(value, qIn), HalfWord(qIn), qIn, qOut), qOut) + qOut) % qOut
  }

  lemma HalfWordRange(qIn: int)
    requires 0 < qIn < WORD
    ensures Abs(HalfWord(qIn)) <= HALF / 2 && Abs(HalfWord(qIn)) <= qIn
  {
    WrapSmall(qIn);
  }

  lemma CentredRange(value: int, qIn: int)
    requires 0 < qIn < WORD
    ensures Abs(Centred(value, qIn)) <= qIn
  {
    DivMod(value, qIn);
    var v := value % qIn;
    if qIn < HALF {
      SignedSmall(qIn);
      SignedSmall(v);
      SignedSmall(v - qIn);
    }
  }

  /** The numerator and the lifted quotient fit a signed 128-bit word, for every modulus of either kind. */
  lemma RescaleStepsFit(value: int, qIn: int, qOut: int)
    requires 0 < qIn < WORD && 0 < qOut < WORD
    ensures var c, half := Centred(value, qIn), HalfWord(qIn);
            Abs(Numerator(c, half, qOut)) < I128 && Abs(Lifted(c, half, qIn, qOut)) < I128
  {
    hide *;
    var c, half := Centred(value, qIn), HalfWord(qIn);
    CentredRange(value, qIn);
    HalfWordRange(qIn);
    NumeratorRange(c, half, qIn, qOut);
    TruncateRange(Numerator(c, half, qOut), qIn, qOut + 1);
    LiftedRange(c, half, qIn, qOut);
  }

  lemma NumeratorRange(c: int, half: int, qIn: int, qOut: int)
    requires 0 < qIn < WORD && 0 < qOut < WORD && -HALF <= c < HALF && Abs(c) <= qIn
    requires Abs(half) <= HALF / 2 && Abs(half) <= qIn
    ensures Abs(Numerator(c, half, qOut)) < I128 && Abs(Numerator(c, half, qOut)) <= (qOut + 1) * qIn
  {
    AbsTimes(qOut, c);
    Commute(qOut, c);
    ScaleOrder(qOut, Abs(c), qIn);
    ScaleOrder(qOut, Abs(c), HALF);
    ProductOrder(qOut, WORD - 1, HALF);
    assert (qOut + 1) * qIn == qOut * qIn + qIn;
  }

  lemma TruncateRange(n: int, q: int, b: int)
    requires q > 0 && b >= 0 && Abs(n) <= b * q
    ensures Abs(Truncate(n, q)) <= b
  {
    DivMod(Abs(n), q);
    var k := Abs(n) / q;
    if k < 0 {
      MulStrict(k, q);
    }
    if k > b {
      ProductOrder(b + 1, k, q);
      Distribute(b, 1, q);
    }
  }

  lemma LiftedRange(c: int, half: int, qIn: int, qOut: int)
    requires 0 < qIn < WORD && 0 < qOut < WORD && Abs(Truncate(Numerator(c, half, qOut), qIn)) <= qOut + 1
    ensures Abs(Lifted(c, half, qIn, qOut)) < I128
  {
    hide Truncate, Numerator;
    DivMod(qIn, qOut);
    if qIn / qOut < 0 {
      MulStrict(qIn / qOut, qOut);
    }
    ProductNonNegative(qIn / qOut, qOut);
  }

  /** Below 2^63 the machine form is the rounding, for every word and output modulus. */
  lemma RescaleIs(value: int, qIn: int, qOut: int)
    requires 0 < qIn < HALF && 0 < qOut < WORD
    ensures qIn < WORD && Rescale(value, qIn, qOut) == RoundTo(value, qIn, qOut)
  {
    hide *;
    WordOrder();
    CentredSmall(value, qIn);
    var v := value % qIn;
    var c := if v >= qIn / 2 then v - qIn else v;
    DivMod(value, qIn);
    LiftedNonNegative(c, qIn, qOut);
    RemainderAgrees(Lifted(c, qIn / 2, qIn, qOut), qOut);
    RoundToUnfold(value, v, c, qIn, qOut);
    RescaleUnfold(value, qIn, qOut);
  }

  lemma WordOrder()
    ensures 0 < HALF < WORD
  {
  }

  lemma CentredSmall(value: int, qIn: int)
    requires 0 < qIn < HALF
    ensures HalfWord(qIn) == qIn / 2
    ensures var v := value % qIn; Centred(value, qIn) == if v >= qIn / 2 then v - qIn else v
  {
    DivMod(value, qIn);
    var v := value % qIn;
    SignedSmall(qIn);
    SignedSmall(v);
    SignedSmall(v - qIn);
  }

  lemma LiftedNonNegative(c: int, qIn: int, qOut: int)
    requires qIn > 0 && qOut > 0 && -qIn <= c <= qIn
    ensures Lifted(c, qIn / 2, qIn, qOut) >= 0
  {
    hide Truncate, Numerator;
    QuotientRange(c, qIn, qOut);
    DivMod(qIn, qOut);
    ProductNonNegative(qIn / qOut, qOut);
  }

  lemma RemainderAgrees(t: int, m: int)
    requires t >= 0 && m > 0
    ensures Truncated(t, m) == t % m
  {
    DivMod(t, m);
  }

  /** The rounded quotient of a centred residue is at least -2 qOut, so the shifted sum is never negative. */
  lemma QuotientRange(c: int, q: int, b: int)
    requires q > 0 && b > 0 && -q <= c <= q
    ensures Truncate(Numerator(c, q / 2, b), q) + 2 * b >= 0
  {
    AbsTimes(b, c);
    Commute(b, c);
    ScaleOrder(b, Abs(c), q);
    Distribute(b, 1, q);
    TruncateRange(Numerator(c, q / 2, b), q, b + 1);
  }

  lemma RoundToUnfold(value: int, v: int, c: int, qIn: int, qOut: int)
    requires qIn > 0 && qOut > 0 && v == value % qIn && c == if v >= qIn / 2 then v - qIn else v
    ensures RoundTo(value, qIn, qOut) == (Lifted(c, qIn / 2, qIn, qOut) % qOut + qOut) % qOut
  {
    hide Truncate;
  }

  lemma RescaleUnfold(value: int, qIn: int, qOut: int)
    requires 0 < qIn < WORD && 0 < qOut < WORD
    ensures Rescale(value, qIn, qOut) == (Truncated(Lifted(Centred(value, qIn), HalfWord(qIn), qIn, qOut), qOut) + qOut) % qOut
  {
    hide Centred, HalfWord, Lifted, Truncated;
  }

  /** rescale takes the centred residue c to the integer Y nearest to c qOut / qIn, halves away from zero, modulo qOut. */
  lemma RescaleNearest(value: int, qIn: int, qOut: int) returns (c: int, Y: int)
    requires 0 < qIn < HALF && 0 < qOut < WORD
    ensures qIn < WORD && c % qIn == value % qIn && qIn / 2 - qIn <= c < qIn / 2
    ensures Rescale(value, qIn, qOut) == Y % qOut
    ensures if c >= 0 then -qIn < 2 * (qIn * Y - c * qOut) <= qIn else -qIn <= 2 * (qIn * Y - c * qOut) < qIn
  {
    hide *;
    WordOrder();
    RescaleIs(value, qIn, qOut);
    var v := value % qIn;
    c := if v >= qIn / 2 then v - qIn else v;
    DivMod(value, qIn);
    ModSmall(v, qIn);
    ModMultiple(v, -1, qIn);
    Y := Truncate(Numerator(c, qIn / 2, qOut), qIn);
    RoundToUnfold(value, v, c, qIn, qOut);
    LiftedSame(c, qIn, qOut);
    TruncateSides(qIn, qOut, c);
  }

  lemma LiftedSame(c: int, qIn: int, qOut: int)
    requires qIn > 0 && qOut > 0
    ensures (Lifted(c, qIn / 2, qIn, qOut) % qOut + qOut) % qOut == Truncate(Numerator(c, qIn / 2, qOut), qIn) % qOut
  {
    hide Truncate, Numerator;
    var t := Truncate(Numerator(c, qIn / 2, qOut), qIn);
    ReduceResult(t, qIn, qOut);
    var s := t + qIn / qOut * qOut + 2 * qOut;
    DivMod(s % qOut + qOut, qOut);
    SameIs(qOut, ((s % qOut) + qOut) % qOut, t);
    ModSmall(((s % qOut) + qOut) % qOut, qOut);
  }

  lemma TruncateSides(q: int, b: int, c: int)
    requires q > 0 && b > 0
    ensures var Y := Truncate(Numerator(c, q / 2, b), q);
            if c >= 0 then -q < 2 * (q * Y - c * b) <= q else -q <= 2 * (q * Y - c * b) < q
  {
    if c >= 0 {
      ProductNonNegative(c, b);
      var n := c * b + q / 2;
      DivMod(n, q);
      Commute(n / q, q);
    } else {
      ProductNonNegative(-c, b);
      TruncateNegative(c, b, q);
      var n := (-c) * b + q / 2;
      DivMod(n, q);
      Commute(n / q, q);
      assert (-c) * b == -(c * b);
      assert q * -(n / q) == -(q * (n / q));
    }
  }

  /** Down and up again moves a residue by at most (q + q') / (2 q') on the circle. */
  lemma RescaleTrip(x: int, q: int, b: int)
    requires 0 < q < HALF && 0 < b < HALF
    ensures 2 * b * Distance(q, Rescale(Rescale(x, q, b), b, q), x) <= q + b
  {
    hide *;
    WordOrder();
    RescaleIs(x, q, b);
    RescaleIs(Rescale(x, q, b), b, q);
    RoundTrip(x, q, b);
  }

  /** Re-rounding a rounded residue changes nothing, for a smaller transport modulus. */
  lemma RescaleIdempotent(y: int, q: int, b: int)
    requires 0 < b < q < HALF && 0 <= y < b
    ensures Rescale(Rescale(y, b, q), q, b) == y
  {
    hide *;
    WordOrder();
    RescaleIs(y, b, q);
    RescaleIs(Rescale(y, b, q), q, b);
    RoundIdempotent(y, q, b);
  }

  // ----- query coefficients -----

  /** The bit width of residues modulo m. */
  function ModulusBits(m: int): (r: nat)
    requires m > 1
  {
    BitLength(m - 1)
  }

  function BitLength(x: int): (r: nat)
    requires x >= 0
  {
    if x == 0 then 0 else 1 + BitLength(x / 2)
  }

  /** 2^(r-1) <= m - 1 < 2^r. */
  lemma {:induction false} BitLengthBounds(x: int)
    requires x >= 0
    ensures x < Pow(2, BitLength(x)) && (x > 0 ==> BitLength(x) > 0 && Pow(2, BitLength(x) - 1) <= x)
  {
    if x > 0 {
      BitLengthBounds(x / 2);
    }
  }

  /** The width of a modulus is the least one that holds every residue. */
  lemma ModulusBitsLeast(m: int, bits: nat)
    requires m > 1
    ensures m - 1 < Pow(2, bits) <==> ModulusBits(m) <= bits
  {
    hide Pow;
    BitLengthBounds(m - 1);
    if ModulusBits(m) <= bits {
      PowMonotone(ModulusBits(m), bits);
    } else {
      PowMonotone(bits, ModulusBits(m) - 1);
    }
  }

  /** Residues of a 64-bit modulus need at most 64 bits. */
  lemma WidthOfWord(m: int)
    requires 1 < m < WORD
    ensures 0 < ModulusBits(m) <= 64
  {
    hide Pow;
    BitLengthBounds(m - 1);
    WordPower64();
    if ModulusBits(m) > 64 {
      PowMonotone(64, ModulusBits(m) - 1);
    }
  }

  /** A narrower width means a smaller power of two than q. */
  lemma NarrowerPower(q: int, bits: nat)
    requires q > 1 && bits < ModulusBits(q)
    ensures 0 < Pow(2, bits) < q
  {
    BitLengthBounds(q - 1);
    PowMonotone(bits, ModulusBits(q) - 1);
  }

  function CoeffDown(coeff: int, q: int, bits: nat): (r: int)
    requires q > 1 && 0 <= coeff < q
  {
    PowPositive(2, bits);
    if bits >= ModulusBits(q) then coeff
    else ((coeff * Pow(2, bits) + q / 2) / q) % Pow(2, bits)
  }

  function CoeffUp(coeff: int, q: int, bits: nat): (r: int)
    requires q > 1 && coeff >= 0 && bits >= 1
  {
    PowPositive(2, bits);
    if bits >= ModulusBits(q) then coeff
    else
      var lifted := (coeff * q + Pow(2, bits - 1)) / Pow(2, bits);
      if lifted >= q then lifted - q else lifted
  }

  lemma DownParts(x: int, q: int, bits: nat) returns (Y: int)
    requires q > 1 && 0 <= x < q && bits < ModulusBits(q)
    ensures Pow(2, bits) > 0 && Nearest(q, Pow(2, bits), x, Y) && Same(Pow(2, bits), CoeffDown(x, q, bits), Y)
    ensures 0 <= CoeffDown(x, q, bits) < Pow(2, bits)
  {
    hide Pow, ModulusBits;
    PowPositive(2, bits);
    var b := Pow(2, bits);
    FloorNearest(q, x * b);
    Y := (x * b + q / 2) / q;
    Commute(x, b);
    ModAdd(Y, 0, b);
  }

  lemma HalfPower(bits: nat)
    requires bits >= 1
    ensures Pow(2, bits) == 2 * Pow(2, bits - 1) && Pow(2, bits) / 2 == Pow(2, bits - 1) && Pow(2, bits) > 0
  {
    PowPositive(2, bits - 1);
  }

  lemma UpParts(y: int, q: int, bits: nat) returns (Z: int)
    requires q > 1 && 1 <= bits < ModulusBits(q) && 0 <= y < Pow(2, bits)
    ensures Pow(2, bits) > 0 && Nearest(Pow(2, bits), q, y, Z) && Same(q, CoeffUp(y, q, bits), Z)
    ensures 0 <= CoeffUp(y, q, bits) < q
  {
    hide Pow, ModulusBits;
    HalfPower(bits);
    NarrowerPower(q, bits);
    var b := Pow(2, bits);
    FloorNearest(b, y * q);
    Z := (y * q + b / 2) / b;
    Commute(y, q);
    LiftedBelow(y, q, b, Z);
    ModMultiple(Z - q, 1, q);
  }

  lemma LiftedBelow(y: int, q: int, b: int, Z: int)
    requires 0 <= y < b && b > 0 && q > 0 && Z == (y * q + b / 2) / b
    ensures 0 <= Z <= q
  {
    var n := y * q + b / 2;
    DivMod(n, b);
    ProductNonNegative(y, q);
    BelowTop(y, b, q);
    if Z > q {
      ScaleOrder(b, q + 1, Z);
      Distribute(q, 1, b);
      Commute(q + 1, b);
      Commute(Z, b);
    } else if Z < 0 {
      MulStrict(Z, b);
    }
  }

  lemma BelowTop(y: int, b: int, q: int)
    requires y < b && q > 0
    ensures y * q + q <= q * b
  {
    Distribute(y, 1, q);
    ScaleOrder(q, y + 1, b);
    Commute(y + 1, q);
  }

  /** A query coefficient goes to the nearest multiple of q / 2^k, halves upwards, modulo 2^k. */
  lemma CoeffDownNearest(x: int, q: int, bits: nat) returns (Y: int)
    requires q > 1 && 0 <= x < q && bits < ModulusBits(q)
    ensures Pow(2, bits) > 0 && CoeffDown(x, q, bits) == Y % Pow(2, bits)
    ensures -q < 2 * (q * Y - x * Pow(2, bits)) <= q
  {
    hide Pow, ModulusBits;
    PowPositive(2, bits);
    var n := x * Pow(2, bits) + q / 2;
    Y := n / q;
    DivMod(n, q);
    Commute(Y, q);
  }

  /** And comes back as the nearest multiple of 2^-k q, halves upwards, modulo q. */
  lemma CoeffUpNearest(y: int, q: int, bits: nat) returns (Z: int)
    requires q > 1 && 1 <= bits < ModulusBits(q) && 0 <= y < Pow(2, bits)
    ensures CoeffUp(y, q, bits) == Z % q
    ensures -Pow(2, bits) < 2 * (Pow(2, bits) * Z - y * q) <= Pow(2, bits)
  {
    hide Pow, ModulusBits, CoeffUp;
    HalfPower(bits);
    var b := Pow(2, bits);
    var n := y * q + b / 2;
    Z := n / b;
    DivMod(n, b);
    Commute(Z, b);
    Commute(y, q);
    LiftedBelow(y, q, b, Z);
    CoeffUpIs(y, q, bits);
    if Z == q {
      RemainderUnique(q, 1, 0, q);
    } else {
      ModSmall(Z, q);
    }
  }

  lemma CoeffUpIs(y: int, q: int, bits: nat)
    requires q > 1 && 1 <= bits < ModulusBits(q) && y >= 0
    ensures Pow(2, bits) > 0
    ensures var Z := (y * q + Pow(2, bits) / 2) / Pow(2, bits); CoeffUp(y, q, bits) == if Z >= q then Z - q else Z
  {
    hide Pow, ModulusBits;
    HalfPower(bits);
  }

  /** Query coefficients: down to 2^k and up again moves by at most (q + 2^k) / 2^(k+1). */
  lemma CoeffTrip(x: int, q: int, bits: nat)
    requires q > 1 && 0 <= x < q && bits >= 1
    ensures CoeffDown(x, q, bits) >= 0
    ensures bits < ModulusBits(q) ==>
              2 * Pow(2, bits) * Distance(q, CoeffUp(CoeffDown(x, q, bits), q, bits), x) <= q + Pow(2, bits)
    ensures bits >= ModulusBits(q) ==> CoeffUp(CoeffDown(x, q, bits), q, bits) == x
  {
    hide Pow, ModulusBits, Distance;
    if bits < ModulusBits(q) {
      CoeffTripNarrow(x, q, bits);
    }
  }

  lemma CoeffTripNarrow(x: int, q: int, bits: nat)
    requires q > 1 && 0 <= x < q && 1 <= bits < ModulusBits(q)
    ensures CoeffDown(x, q, bits) >= 0
    ensures 2 * Pow(2, bits) * Distance(q, CoeffUp(CoeffDown(x, q, bits), q, bits), x) <= q + Pow(2, bits)
  {
    hide *;
    var b, y := Pow(2, bits), CoeffDown(x, q, bits);
    var Y := DownParts(x, q, bits);
    var Z := UpParts(y, q, bits);
    var back := CoeffUp(y, q, bits);
    var k := Difference(b, y, Y);
    Telescope(q, b, x, Y, y, Z, k);
    SameIs(q, x, x);
    SameGap(q, back, Z, x, x, k);
    DistanceAtMost(q, back, x, Z - k * q - x);
    ScaleOrder(2 * b, Distance(q, back, x), Abs(Z - k * q - x));
  }

  /** Rounding a lifted query coefficient gives it back. */
  lemma CoeffIdempotent(y: int, q: int, bits: nat)
    requires q > 1 && bits >= 1 && 0 <= y < (if bits < ModulusBits(q) then Pow(2, bits) else q)
    ensures 0 <= CoeffUp(y, q, bits) < q && CoeffDown(CoeffUp(y, q, bits), q, bits) == y
  {
    hide Pow, ModulusBits;
    if bits < ModulusBits(q) {
      CoeffIdempotentNarrow(y, q, bits);
    }
  }

  lemma CoeffIdempotentNarrow(y: int, q: int, bits: nat)
    requires q > 1 && 1 <= bits < ModulusBits(q) && 0 <= y < Pow(2, bits)
    ensures 0 <= CoeffUp(y, q, bits) < q && CoeffDown(CoeffUp(y, q, bits), q, bits) == y
  {
    hide *;
    NarrowerPower(q, bits);
    var b := Pow(2, bits);
    var Z := UpParts(y, q, bits);
    var x := CoeffUp(y, q, bits);
    var W := DownParts(x, q, bits);
    var j := Difference(q, x, Z);
    Telescope(b, q, y, Z, x, W, j);
    SmallGap(W - j * b - y, q, b);
    SameIs(b, y, y);
    SameShift(b, CoeffDown(x, q, bits), W, y, y, j);
  }

  // ----- native widths: q a power of two -----

  /** down: add half a unit, shift, mask.  shift is log2 q - bits. */
  function NativeDown(x: int, shift: nat, bits: nat): (r: int)
    requires x >= 0
  {
    PowPositive(2, shift);
    PowPositive(2, bits);
    if shift == 0 then x else ((x + Pow(2, shift - 1)) / Pow(2, shift)) % Pow(2, bits)
  }

  /** down_dithered with one draw. */
  function NativeDithered(x: int, shift: nat, bits: nat, draw: int): (r: int)
    requires x >= 0 && draw >= 0
  {
    PowPositive(2, shift);
    PowPositive(2, bits);
    var up := if draw % Pow(2, shift) < x % Pow(2, shift) then 1 else 0;
    (x / Pow(2, shift) + up) % Pow(2, bits)
  }

  function NativeUp(y: int, shift: nat): (r: int) {
    y * Pow(2, shift)
  }

  lemma UnitProduct(bits: nat, shift: nat)
    ensures Pow(2, bits + shift) == Pow(2, bits) * Pow(2, shift) && Pow(2, bits) > 0 && Pow(2, shift) > 0
  {
    PowAdd(2, bits, shift);
    PowPositive(2, bits);
    PowPositive(2, shift);
  }

  /** Lifting a masked quotient is lifting the quotient, modulo q. */
  lemma LiftMasked(y: int, M: int, u: int)
    requires M > 0 && u > 0
    ensures M * u > 0 && Same(M * u, (y % M) * u, y * u)
  {
    NonNegativeProduct(M, u);
    DivMod(y, M);
    Distribute((y / M) * M, y % M, u);
    assert (y / M) * M * u == (y / M) * (M * u);
    ModMultiple((y % M) * u, y / M, M * u);
  }

  lemma NonNegativeProduct(x: int, y: int)
    requires x > 0 && y > 0
    ensures x * y > 0
  {
  }

  /** Lifting a masked quotient. */
  lemma MaskedLift(y: int, shift: nat, bits: nat)
    ensures Pow(2, bits) > 0 && Pow(2, bits + shift) > 0
    ensures NativeUp(y % Pow(2, bits), shift) == (y * Pow(2, shift)) % Pow(2, bits + shift)
  {
    hide Pow;
    UnitProduct(bits, shift);
    var M, u := Pow(2, bits), Pow(2, shift);
    NonNegativeProduct(M, u);
    LiftMasked(y, M, u);
    DivMod(y, M);
    ProductNonNegative(y % M, u);
    ProductOrder(y % M + 1, M, u);
    Distribute(y % M, 1, u);
    SameIs(M * u, (y % M) * u, y * u);
    ModSmall((y % M) * u, M * u);
  }

  /** Nearest rounding, down and up, gives the nearest multiple of the unit modulo q, halves upwards. */
  lemma NativeNearest(x: int, shift: nat, bits: nat)
    requires 0 <= x < Pow(2, bits + shift)
    ensures Pow(2, bits + shift) > 0 && Pow(2, shift) > 0
    ensures NativeUp(NativeDown(x, shift, bits), shift)
            == ((x + Pow(2, shift) / 2) / Pow(2, shift) * Pow(2, shift)) % Pow(2, bits + shift)
  {
    hide Pow;
    PowPositive(2, shift);
    if shift == 0 {
      PowZero();
      ModSmall(x, Pow(2, bits + shift));
    } else {
      HalfPower(shift);
      MaskedLift((x + Pow(2, shift) / 2) / Pow(2, shift), shift, bits);
    }
  }

  /** Nearest rounding moves by at most half a unit. */
  lemma NativeTrip(x: int, shift: nat, bits: nat)
    requires 0 <= x < Pow(2, bits + shift)
    ensures Pow(2, bits + shift) > 0
    ensures 2 * Distance(Pow(2, bits + shift), NativeUp(NativeDown(x, shift, bits), shift), x) <= Pow(2, shift)
  {
    hide Pow, Distance;
    UnitProduct(bits, shift);
    NonNegativeProduct(Pow(2, bits), Pow(2, shift));
    var q, u, M := Pow(2, bits + shift), Pow(2, shift), Pow(2, bits);
    if shift == 0 {
      PowZero();
      SameIs(q, x * 1 - x, 0);
      DistanceAtMost(q, NativeUp(x, 0), x, 0);
    } else {
      HalfPower(shift);
      FloorNearest(u, x);
      var Y := (x + u / 2) / u;
      LiftMasked(Y, M, u);
      Commute(Y, u);
      GapSame(q, (Y % M) * u, Y * u, x);
      DistanceAtMost(q, (Y % M) * u, x, Y * u - x);
    }
  }

  lemma PowZero()
    ensures Pow(2, 0) == 1
  {
  }

  lemma GapSame(q: int, a: int, b: int, x: int)
    requires Same(q, a, b)
    ensures Same(q, a - x, b - x)
  {
    SameIs(q, -x, -x);
    SameSum(q, a, b, -x, -x);
  }

  /** Dithered rounding moves by less than one unit, whatever the draw. */
  lemma DitheredTrip(x: int, shift: nat, bits: nat, draw: int)
    requires 0 <= x < Pow(2, bits + shift) && draw >= 0
    ensures Pow(2, bits + shift) > 0
    ensures Distance(Pow(2, bits + shift), NativeUp(NativeDithered(x, shift, bits, draw), shift), x) < Pow(2, shift)
  {
    hide Pow, Distance;
    UnitProduct(bits, shift);
    NonNegativeProduct(Pow(2, bits), Pow(2, shift));
    var q, u, M := Pow(2, bits + shift), Pow(2, shift), Pow(2, bits);
    var up := if draw % u < x % u then 1 else 0;
    var Y := x / u + up;
    DivMod(x, u);
    DivMod(draw, u);
    Distribute(x / u, up, u);
    LiftMasked(Y, M, u);
    GapSame(q, (Y % M) * u, Y * u, x);
    DistanceAtMost(q, (Y % M) * u, x, Y * u - x);
  }

  /** What one draw does: the multiple of the unit above x when the draw's low bits are below the dropped ones, the one at
      or below x otherwise, modulo q.  Only the draw's low bits matter. */
  lemma DitheredExact(x: int, shift: nat, bits: nat, draw: int)
    requires 0 <= x < Pow(2, bits + shift) && draw >= 0
    ensures Pow(2, bits + shift) > 0 && Pow(2, shift) > 0 && draw % Pow(2, shift) >= 0
    ensures NativeUp(NativeDithered(x, shift, bits, draw), shift)
            == (x - x % Pow(2, shift) + if draw % Pow(2, shift) < x % Pow(2, shift) then Pow(2, shift) else 0) % Pow(2, bits + shift)
    ensures NativeDithered(x, shift, bits, draw) == NativeDithered(x, shift, bits, draw % Pow(2, shift))
  {
    hide Pow;
    PowPositive(2, shift);
    var u := Pow(2, shift);
    var up := if draw % u < x % u then 1 else 0;
    DivMod(x, u);
    DivMod(draw, u);
    ModSmall(draw % u, u);
    Distribute(x / u, up, u);
    MaskedLift(x / u + up, shift, bits);
  }

  /** The lift below and the lift above x. */
  lemma Neighbours(x: int, shift: nat, bits: nat)
    requires 0 <= x < Pow(2, bits + shift) && bits >= 1
    ensures var u, q := Pow(2, shift), Pow(2, bits + shift);
            u > 0 && q > 0 && 0 <= x - x % u && x - x % u + u <= q && u < q
            && (x - x % u) % q == x - x % u
            && (x - x % u + u) % q == if x - x % u + u == q then 0 else x - x % u + u
  {
    hide Pow;
    UnitProduct(bits, shift);
    var u, q, M := Pow(2, shift), Pow(2, bits + shift), Pow(2, bits);
    HalfPower(bits);
    PowPositive(2, bits - 1);
    ProductOrder(2, M, u);
    DivMod(x, u);
    var k := x / u;
    if k < 0 {
      MulStrict(k, u);
    }
    if k >= M {
      ProductOrder(M, k, u);
    }
    ProductOrder(k + 1, M, u);
    Distribute(k, 1, u);
    ProductNonNegative(k, u);
    ModSmall(k * u, q);
    if k * u + u == q {
      RemainderUnique(q, 1, 0, q);
    } else {
      ModSmall(k * u + u, q);
    }
  }

  /** Exact unbiasedness by counting: of the 2^shift equally likely low parts of a draw, exactly as many lift x upwards as
      x lies above the multiple below it, and all others lift it to that multiple. */
  lemma DitheredCount(x: int, shift: nat, bits: nat)
    requires 0 <= x < Pow(2, bits + shift) && bits >= 1
    ensures Pow(2, shift) > 0 && Pow(2, bits + shift) > 0
    ensures |set draw: nat | draw < Pow(2, shift)
              && NativeUp(NativeDithered(x, shift, bits, draw), shift) == (x - x % Pow(2, shift) + Pow(2, shift)) % Pow(2, bits + shift)|
            == x % Pow(2, shift)
    ensures forall draw: nat :: draw < Pow(2, shift) ==>
              NativeUp(NativeDithered(x, shift, bits, draw), shift) == x - x % Pow(2, shift)
              || NativeUp(NativeDithered(x, shift, bits, draw), shift) == (x - x % Pow(2, shift) + Pow(2, shift)) % Pow(2, bits + shift)
  {
    hide Pow, NativeDithered, NativeUp;
    var u, q := Pow(2, shift), Pow(2, bits + shift);
    Neighbours(x, shift, bits);
    DivMod(x, u);
    forall draw: nat | draw < u
      ensures NativeUp(NativeDithered(x, shift, bits, draw), shift) == if draw < x % u then (x - x % u + u) % q else x - x % u
    {
      DitheredExact(x, shift, bits, draw);
      ModSmall(draw, u);
    }
    NumbersBelowSize(x % u);
    assert (set draw: nat | draw < u && NativeUp(NativeDithered(x, shift, bits, draw), shift) == (x - x % u + u) % q)
        == NumbersBelow(x % u);
  }

  /** The lifts of the first n low parts, added up. */
  function LiftSum(x: int, shift: nat, bits: nat, n: nat): (r: int)
    requires x >= 0
  {
    if n == 0 then 0 else LiftSum(x, shift, bits, n - 1) + NativeUp(NativeDithered(x, shift, bits, n - 1), shift)
  }

  lemma {:induction false} LiftSumTo(x: int, shift: nat, bits: nat, n: nat)
    requires 0 <= x < Pow(2, bits + shift) && bits >= 1 && n <= Pow(2, shift)
    ensures var u, q := Pow(2, shift), Pow(2, bits + shift);
            u > 0 && q > 0
            && LiftSum(x, shift, bits, n)
               == n * (x - x % u) + (if n < x % u then n else x % u) * ((x - x % u + u) % q - (x - x % u))
  {
    hide Pow, NativeDithered, NativeUp;
    var u, q := Pow(2, shift), Pow(2, bits + shift);
    Neighbours(x, shift, bits);
    DivMod(x, u);
    if n > 0 {
      LiftSumTo(x, shift, bits, n - 1);
      DitheredExact(x, shift, bits, n - 1);
      ModSmall(n - 1, u);
      Distribute(n - 1, 1, x - x % u);
      Distribute(n - 1, 1, (x - x % u + u) % q - (x - x % u));
    }
  }

  /** Over all 2^shift low parts the lifts average to x, but for the wrap at q when x lies above the last multiple. */
  lemma DitheredMean(x: int, shift: nat, bits: nat)
    requires 0 <= x < Pow(2, bits + shift) && bits >= 1
    ensures var u, q := Pow(2, shift), Pow(2, bits + shift);
            u > 0 && LiftSum(x, shift, bits, u) == x * u - if x - x % u + u == q then (x % u) * q else 0
  {
    hide Pow, LiftSum;
    var u, q := Pow(2, shift), Pow(2, bits + shift);
    Neighbours(x, shift, bits);
    LiftSumTo(x, shift, bits, u);
    DivMod(x, u);
    MeanTerms(x, u, x % u, q);
  }

  lemma MeanTerms(x: int, u: int, r: int, q: int)
    ensures u * (x - r) + r * u == x * u
    ensures x - r + u == q ==> u * (x - r) + r * (0 - (x - r)) == x * u - r * q
  {
    if x - r + u == q {
      assert r * (0 - (x - r)) == r * u - r * q;
    }
  }

  /** Rounding a lifted coefficient gives it back, nearest or dithered. */
  lemma NativeIdempotent(y: int, shift: nat, bits: nat, draw: int)
    requires 0 <= y < Pow(2, bits) && draw >= 0
    ensures NativeUp(y, shift) >= 0
    ensures NativeDown(NativeUp(y, shift), shift, bits) == y
    ensures NativeDithered(NativeUp(y, shift), shift, bits, draw) == y
  {
    hide Pow;
    PowPositive(2, shift);
    ProductNonNegative(y, Pow(2, shift));
    var u := Pow(2, shift);
    RemainderUnique(y * u, y, 0, u);
    DivMod(draw, u);
    ModSmall(y, Pow(2, bits));
    if shift == 0 {
      PowZero();
    } else {
      HalfPower(shift);
      PowPositive(2, shift - 1);
      RemainderUnique(y * u + Pow(2, shift - 1), y, Pow(2, shift - 1), u);
    }
  }
}
