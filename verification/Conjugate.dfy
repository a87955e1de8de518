/** Reversing bit-reversed evaluations is the automorphism X -> X^-1 (reinspiring/src/lift_ntt.rs). */
module Conjugate {
  import opened Ring
  import opened Galois
  import opened RingFft
  import opened Ntt

  /** Slot s evaluates at the bit-reversed odd power. */
  predicate BitReversed(N: Slots)
    requires N.Ok()
  {
    forall s :: 0 <= s < N.d ==> N.es[s] == 2 * Rev(N.d, s) + 1
  }

  /** Complementing every index bit complements every reversed bit. */
  lemma {:induction false} RevComplement(n: nat, x: nat)
    requires PowerOfTwo(n) && x < n
    ensures Rev(n, n - 1 - x) == n - 1 - Rev(n, x)
    decreases n
  {
    if n == 1 {
      RevOne(0);
    } else {
      var h, y := n / 2, n - 1 - x;
      RevStep(n, x);
      RevStep(n, y);
      Halves(n, x);
      RevComplement(h, x / 2);
    }
  }

  lemma Halves(n: nat, x: nat)
    requires n % 2 == 0 && x < n
    ensures x / 2 < n / 2 && (n - 1 - x) / 2 == n / 2 - 1 - x / 2 && (n - 1 - x) % 2 == 1 - x % 2
  {
  }

  function Reversed(v: seq<int>): (r: seq<int>)
    ensures |r| == |v| && forall s :: 0 <= s < |v| ==> r[s] == v[|v| - 1 - s]
  {
    seq(|v|, s requires 0 <= s < |v| => v[|v| - 1 - s])
  }

  /** The reversed transform of p is the transform of p(X^-1). */
  lemma ReversalConjugates(N: Slots, p: Poly)
    requires N.Ok() && BitReversed(N) && |p| == N.d
    ensures N.q > 0 && N.d > 0 && Reversed(Forward(N, p)) == Forward(N, Tau(N.q, p, -1))
  {
    hide *;
    SlotsSizes(N);
    var r, want := Reversed(Forward(N, p)), Forward(N, Tau(N.q, p, -1));
    forall s | 0 <= s < N.d
      ensures r[s] == want[s]
    {
      SlotOdd(N, s);
      OppositeSlot(N, s);
      AtTau(N, p, -1, N.es[s]);
      EvalPeriod(N, p, -1 * N.es[s], 1, N.d);
      AtIs(N, p, -1 * N.es[s]);
      AtIs(N, p, N.es[N.d - 1 - s]);
    }
    assert r == want;
  }

  /** Opposite slots hold opposite exponents. */
  lemma OppositeSlot(N: Slots, s: nat)
    requires N.Ok() && BitReversed(N) && s < N.d && |N.es| == N.d
    ensures N.es[N.d - 1 - s] == -1 * N.es[s] + 1 * (2 * N.d)
  {
    hide Rev, PowerOfTwo, Pow;
    RevComplement(N.d, s);
  }
}
