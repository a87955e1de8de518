/** The rejection sampler for public randomness (ipir-sp/src/sampling.rs), for 64-bit and 32-bit draws. */
module Sampling {
  import opened Modular
  import opened Galois

  /** Leading zeros of a non-zero w-bit word. */
  function LeadingZeros(bound: int, w: nat): (z: nat)
    requires 0 < bound < Pow(2, w)
    decreases Pow(2, w) - bound
  {
    if 2 * bound >= Pow(2, w) then 0 else 1 + LeadingZeros(2 * bound, w)
  }

  /** Shifting by the leading zeros fills the word: 2^(w-1) <= bound << z < 2^w. */
  lemma {:induction false} LeadingZerosFill(bound: int, w: nat)
    requires 0 < bound < Pow(2, w)
    ensures var s := bound * Pow(2, LeadingZeros(bound, w)); Pow(2, w) <= 2 * s && 0 < s < Pow(2, w)
    decreases Pow(2, w) - bound
  {
    if 2 * bound < Pow(2, w) {
      LeadingZerosFill(2 * bound, w);
      var z := LeadingZeros(2 * bound, w);
      Regroup(bound, Pow(2, z));
    }
  }

  lemma Regroup(b: int, p: int)
    ensures 2 * b * p == b * (2 * p)
  {
  }

  /** The largest low word that is accepted, plus one: bound << leading zeros. */
  function Zone(bound: int, w: nat): (r: int)
    requires 0 < bound < Pow(2, w)
  {
    bound * Pow(2, LeadingZeros(bound, w))
  }

  /** A draw is accepted when the low word of draw * bound is inside the zone. */
  predicate Accepted(draw: int, bound: int, w: nat)
    requires 0 < bound < Pow(2, w)
  {
    (draw * bound) % Pow(2, w) <= Zone(bound, w) - 1
  }

  /** The high word of draw * bound. */
  function Output(draw: int, bound: int, w: nat): (r: int)
    requires 0 < bound < Pow(2, w)
  {
    draw * bound / Pow(2, w)
  }

  datatype Drawn = Drawn(value: int, used: nat) | Exhausted

  /** uniform_u64_below and uniform_u32_below over a stream of draws: the high word of the first accepted
      draw, and always below the bound. */
  method UniformBelow(draws: seq<int>, bound: int, w: nat) returns (r: Drawn)
    requires 0 < bound < Pow(2, w) && forall i :: 0 <= i < |draws| ==> 0 <= draws[i] < Pow(2, w)
    ensures r.Exhausted? <==> forall i :: 0 <= i < |draws| ==> !Accepted(draws[i], bound, w)
    ensures r.Drawn? ==> 0 < r.used <= |draws| && Accepted(draws[r.used - 1], bound, w)
                         && (forall i :: 0 <= i < r.used - 1 ==> !Accepted(draws[i], bound, w))
                         && r.value == Output(draws[r.used - 1], bound, w) && 0 <= r.value < bound
  {
    hide *;
    var zone := Zone(bound, w) - 1;
    for i := 0 to |draws|
      invariant forall k :: 0 <= k < i ==> !Accepted(draws[k], bound, w)
    {
      OutputIs(draws[i], bound, w);
      var product := draws[i] * bound;
      var low := product % Pow(2, w);
      if low <= zone {
        OutputBelow(draws[i], bound, w);
        return Drawn(product / Pow(2, w), i + 1);
      }
    }
    return Exhausted;
  }

  lemma OutputIs(draw: int, bound: int, w: nat)
    requires 0 < bound < Pow(2, w)
    ensures Output(draw, bound, w) == draw * bound / Pow(2, w)
    ensures Accepted(draw, bound, w) <==> (draw * bound) % Pow(2, w) <= Zone(bound, w) - 1
  {
  }

  lemma OutputBelow(draw: int, bound: int, w: nat)
    requires 0 < bound < Pow(2, w) && 0 <= draw < Pow(2, w)
    ensures 0 <= Output(draw, bound, w) < bound
  {
    hide *;
    OutputIs(draw, bound, w);
    var W, p := Pow(2, w), draw * bound;
    DivMod(p, W);
    ProductOrder(0, draw, bound);
    StrictOrder(draw, W, bound);
    if p / W < 0 {
      MulStrict(p / W, W);
    } else if p / W >= bound {
      ProductOrder(bound, p / W, W);
      Commute(bound, W);
    }
  }

  lemma StrictOrder(x: int, y: int, c: int)
    requires x < y && c > 0
    ensures x * c < y * c
  {
    ProductOrder(x + 1, y, c);
    Distribute(x, 1, c);
  }

  /** The first draw whose product reaches v 2^w. */
  function FirstDraw(v: int, bound: int, w: nat): (r: int)
    requires 0 < bound < Pow(2, w)
  {
    (v * Pow(2, w) + bound - 1) / bound
  }

  lemma FirstDrawIs(v: int, bound: int, w: nat, x: int)
    requires 0 < bound < Pow(2, w)
    ensures x * bound >= v * Pow(2, w) <==> x >= FirstDraw(v, bound, w)
  {
    var n := v * Pow(2, w);
    var f := (n + bound - 1) / bound;
    DivMod(n + bound - 1, bound);
    if x >= f {
      ProductOrder(f, x, bound);
    } else {
      ProductOrder(x, f - 1, bound);
      Distribute(f, 1, bound);
    }
  }

  /** Exactly uniform: output v comes from the 2^z consecutive draws starting at FirstDraw(v), and no other,
      where z is the number of leading zeros of the bound: shifted by z, the bound fills the word. */
  lemma ExactlyUniform(v: int, bound: int, w: nat, x: int)
    requires 0 < bound < Pow(2, w) && 0 <= v < bound
    ensures bound * Pow(2, LeadingZeros(bound, w)) < Pow(2, w) <= 2 * (bound * Pow(2, LeadingZeros(bound, w)))
    ensures 0 <= FirstDraw(v, bound, w) && FirstDraw(v, bound, w) + Pow(2, LeadingZeros(bound, w)) <= Pow(2, w)
    ensures (Accepted(x, bound, w) && Output(x, bound, w) == v)
            <==> FirstDraw(v, bound, w) <= x < FirstDraw(v, bound, w) + Pow(2, LeadingZeros(bound, w))
  {
    hide *;
    var W, k := Pow(2, w), Pow(2, LeadingZeros(bound, w));
    LeadingZerosFill(bound, w);
    OutputIs(x, bound, w);
    ZoneIs(bound, w);
    WindowOf(v, bound, w, x, k);
    FirstDrawIs(v, bound, w, x);
    ShiftedWindow(v, bound, w, x, k);
    DrawRange(v, bound, w, k);
  }

  lemma ZoneIs(bound: int, w: nat)
    requires 0 < bound < Pow(2, w)
    ensures Zone(bound, w) == bound * Pow(2, LeadingZeros(bound, w))
  {
  }

  /** Accepted with output v means the product lies in a window of length bound * k from v 2^w. */
  lemma WindowOf(v: int, bound: int, w: nat, x: int, k: int)
    requires 0 < bound < Pow(2, w) && 0 < bound * k < Pow(2, w)
    ensures ((x * bound) % Pow(2, w) <= bound * k - 1 && x * bound / Pow(2, w) == v)
            <==> v * Pow(2, w) <= x * bound < v * Pow(2, w) + bound * k
  {
    var W, p := Pow(2, w), x * bound;
    DivMod(p, W);
    if v * W <= p < v * W + bound * k {
      RemainderUnique(p, v, p - v * W, W);
    }
  }

  lemma ShiftedWindow(v: int, bound: int, w: nat, x: int, k: int)
    requires 0 < bound < Pow(2, w)
    ensures x * bound >= v * Pow(2, w) + bound * k <==> x >= FirstDraw(v, bound, w) + k
  {
    hide *;
    FirstDrawIs(v, bound, w, x - k);
    Distribute(x, k, bound);
    Commute(k, bound);
  }

  lemma DrawRange(v: int, bound: int, w: nat, k: int)
    requires 0 < bound < Pow(2, w) && 0 <= v < bound && 0 < bound * k < Pow(2, w)
    ensures 0 <= FirstDraw(v, bound, w) && FirstDraw(v, bound, w) + k <= Pow(2, w)
  {
    hide *;
    var W := Pow(2, w);
    FirstDrawIs(v, bound, w, -1);
    ProductNonNegative(v, W);
    ShiftedWindow(v, bound, w, W, k);
    ProductOrder(v + 1, bound, W);
    Distribute(v, 1, W);
    Commute(bound, W);
  }
}
