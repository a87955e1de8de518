/** Slot permutation tables for the automorphisms (inspiring/src/automorph.rs). */
module Automorph {
  import opened Wrappers
  import opened Modular
  import opened Ring
  import opened Galois
  import opened Ntt

  /** Output slot s reads input slot indices[s]. */
  datatype Table = Table(exponent: int, indices: seq<nat>)

  // ----- permutations -----

  predicate InRange(t: seq<nat>, d: nat) {
    forall s :: 0 <= s < |t| ==> t[s] < d
  }

  predicate Distinct(t: seq<nat>) {
    forall r, s :: 0 <= r < s < |t| ==> t[r] != t[s]
  }

  /** t is a bijection on 0..d. */
  predicate Bijection(t: seq<nat>, d: nat) {
    |t| == d && InRange(t, d) && Distinct(t) && forall v :: 0 <= v < d ==> v in t
  }

  function Values(t: seq<nat>): (r: set<nat>) {
    set x | x in t
  }

  lemma {:induction false} ValuesSize(t: seq<nat>)
    requires Distinct(t)
    ensures |Values(t)| == |t|
  {
    if |t| == 0 {
      assert Values(t) == {};
    } else {
      var rest, last := t[..|t| - 1], t[|t| - 1];
      ValuesSize(rest);
      assert t == rest + [last];
      assert Values(t) == Values(rest) + {last};
    }
  }

  lemma SameSize(a: set<nat>, b: set<nat>)
    requires a <= b && |a| == |b|
    ensures a == b
  {
    assert b == a + (b - a);
    assert |b - a| == |b| - |a|;
  }

  /** d distinct slots below d are all of them. */
  lemma Pigeonhole(t: seq<nat>, d: nat)
    requires |t| == d && InRange(t, d) && Distinct(t)
    ensures Bijection(t, d)
  {
    ValuesSize(t);
    NumbersBelowSize(d);
    SameSize(Values(t), NumbersBelow(d));
    forall v | 0 <= v < d
      ensures v in t
    {
      assert v in NumbersBelow(d);
    }
  }

  /** validate_permutation accepts exactly the bijections on 0..d. */
  method ValidatePermutation(t: seq<nat>, d: nat) returns (ok: bool)
    ensures ok <==> Bijection(t, d)
  {
    if |t| != d {
      return false;
    }
    var seen := new bool[d](_ => false);
    for i := 0 to |t|
      invariant forall s :: 0 <= s < i ==> t[s] < d
      invariant forall r, s :: 0 <= r < s < i ==> t[r] != t[s]
      invariant forall s :: 0 <= s < i ==> seen[t[s]]
      invariant forall v :: 0 <= v < d && seen[v] ==> exists s :: 0 <= s < i && t[s] == v
    {
      if t[i] >= d || seen[t[i]] {
        return false;
      }
      seen[t[i]] := true;
    }
    Pigeonhole(t, d);
    return true;
  }

  // ----- what a table means -----

  /** The table is X -> X^exponent on slots. */
  predicate Realises(N: Slots, T: Table)
    requires N.Ok()
  {
    && |T.indices| == N.d && OddBelow(T.exponent, N.d)
    && forall s :: 0 <= s < N.d ==> T.indices[s] < N.d && N.es[T.indices[s]] == (T.exponent * N.es[s]) % (2 * N.d)
  }

  lemma RealisesAt(N: Slots, T: Table, s: nat)
    requires N.Ok() && Realises(N, T) && s < N.d
    ensures |T.indices| == N.d && T.indices[s] < N.d && OddBelow(T.exponent, N.d)
    ensures |N.es| == N.d && N.es[T.indices[s]] == (T.exponent * N.es[s]) % (2 * N.d)
  {
  }

  /** Reading slots through the table is applying the automorphism. */
  lemma TableApplies(N: Slots, T: Table, p: Poly, s: nat)
    requires N.Ok() && Realises(N, T) && |p| == N.d && s < N.d
    ensures N.q > 0 && N.d > 0 && |T.indices| == N.d && T.indices[s] < N.d
    ensures Forward(N, Tau(N.q, p, T.exponent))[s] == Forward(N, p)[T.indices[s]]
  {
    hide *;
    SlotsSizes(N);
    RealisesAt(N, T, s);
    SlotOdd(N, s);
    AtTau(N, p, T.exponent, N.es[s]);
    AtMod(N, p, T.exponent * N.es[s]);
  }

  /** apply_tau_ntt_into, on one polynomial. */
  method ApplyTau(N: Slots, T: Table, input: seq<int>, ghost p: Poly) returns (out: array<int>)
    requires N.Ok() && Realises(N, T) && |p| == N.d && input == Forward(N, p)
    ensures N.q > 0 && N.d > 0 && fresh(out) && out[..] == Forward(N, Tau(N.q, p, T.exponent))
  {
    hide *;
    SlotsSizes(N);
    RealisesAt(N, T, 0);
    out := new int[N.d];
    ghost var want := Forward(N, Tau(N.q, p, T.exponent));
    for dst := 0 to N.d
      invariant forall s :: 0 <= s < dst ==> out[s] == want[s]
    {
      TableApplies(N, T, p, dst);
      out[dst] := input[T.indices[dst]];
    }
  }

  /** Odd factors cancel modulo a power of two. */
  lemma {:induction false} OddCancels(t: int, x: int, n: int)
    requires PowerOfTwo(n) && t % 2 == 1 && (t * x) % n == 0
    ensures x % n == 0
    decreases n
  {
    if n == 1 {
      RemainderUnique(x, x, 0, 1);
    } else {
      HalveProduct(t, x, n);
      OddCancels(t, x / 2, n / 2);
      DivMod(x / 2, n / 2);
      DoubleMultiple(x, x / 2 / (n / 2), n);
    }
  }

  lemma HalveProduct(t: int, x: int, n: int)
    requires n > 1 && n % 2 == 0 && t % 2 == 1 && (t * x) % n == 0
    ensures x == 2 * (x / 2) && (t * (x / 2)) % (n / 2) == 0
  {
    var m, k, h := n / 2, (t * x) / n, t / 2;
    DivMod(t * x, n);
    assert t * x == 2 * (h * x) + x by {
      assert t == 2 * h + 1;
    }
    assert k * n == 2 * (k * m);
    var y := k * m - h * x;
    assert x == 2 * y;
    assert t * x == 2 * (t * y) by {
      assert t * (2 * y) == 2 * (t * y);
    }
    RemainderUnique(t * y, k, 0, m);
  }

  lemma DoubleMultiple(x: int, k: int, n: int)
    requires n > 1 && n % 2 == 0 && x == 2 * (k * (n / 2))
    ensures x % n == 0
  {
    assert x == k * n + 0;
    RemainderUnique(x, k, 0, n);
  }

  lemma DifferenceDivides(x: int, y: int, n: int)
    requires n > 0 && x % n == y % n
    ensures (x - y) % n == 0
  {
    var k := Congruent(x, y, n);
    RemainderUnique(x - y, k, 0, n);
  }

  lemma ExponentsDiffer(t: int, e: int, f: int, d: nat)
    requires d > 0 && PowerOfTwo(d) && t % 2 == 1 && 0 <= e < 2 * d && 0 <= f < 2 * d
    requires (t * e) % (2 * d) == (t * f) % (2 * d)
    ensures e == f
  {
    hide *;
    DifferenceDivides(t * e, t * f, 2 * d);
    LeftDistribute(t, e, f);
    DoublePower(d);
    OddCancels(t, e - f, 2 * d);
    SmallMultiple(e - f, 2 * d);
  }

  lemma LeftDistribute(t: int, e: int, f: int)
    ensures t * (e - f) == t * e - t * f
  {
  }

  lemma DoublePower(d: nat)
    requires PowerOfTwo(d)
    ensures PowerOfTwo(2 * d)
  {
  }

  lemma SmallMultiple(x: int, n: int)
    requires n > 0 && -n < x < n && x % n == 0
    ensures x == 0
  {
    DivMod(x, n);
    MulStrict(x / n, n);
  }

  /** Every realised table is a bijection, so the construction-time check cannot fail. */
  lemma RealisesBijection(N: Slots, T: Table)
    requires N.Ok() && Realises(N, T)
    ensures Bijection(T.indices, N.d)
  {
    hide *;
    SlotsSizes(N);
    RealisesAt(N, T, 0);
    var t := T.indices;
    forall s | 0 <= s < N.d
      ensures t[s] < N.d
    {
      RealisesAt(N, T, s);
    }
    forall r, s | 0 <= r < s < N.d
      ensures t[r] != t[s]
    {
      if t[r] == t[s] {
        RealisesAt(N, T, r);
        RealisesAt(N, T, s);
        SlotOdd(N, r);
        SlotOdd(N, s);
        OddExponent(T.exponent, N.d);
        ExponentsDiffer(T.exponent, N.es[r], N.es[s], N.d);
        SameSlot(N, r, s);
      }
    }
    RangeFrom(t, N.d);
    Pigeonhole(t, N.d);
  }

  lemma OddExponent(e: int, d: nat)
    requires OddBelow(e, d)
    ensures e % 2 == 1 && 0 < e < 2 * d
  {
  }

  lemma RangeFrom(t: seq<nat>, d: nat)
    requires forall s :: 0 <= s < |t| ==> t[s] < d
    requires forall r, s :: 0 <= r < s < |t| ==> t[r] != t[s]
    ensures InRange(t, d) && Distinct(t)
  {
  }

  /** Two slots with one exponent are one slot. */
  lemma SameSlot(N: Slots, r: nat, s: nat)
    requires N.Ok() && r < N.d && s < N.d && |N.es| == N.d && N.es[r] == N.es[s]
    ensures r == s
  {
  }

  // ----- composition -----

  function Identity(d: nat): (r: Table) {
    Table(1, seq(d, i => i))
  }

  lemma IdentityRealises(N: Slots)
    requires N.Ok()
    ensures Realises(N, Identity(N.d))
  {
    forall s | 0 <= s < N.d
      ensures N.es[s] == (1 * N.es[s]) % (2 * N.d)
    {
      ModSmall(N.es[s], 2 * N.d);
    }
  }

  /** compose_tables with the exponent product the callers pass. */
  function Compose(d: nat, first: Table, second: Table): (r: Table)
    requires d > 0 && |first.indices| == |second.indices| == d && InRange(second.indices, d)
    ensures |r.indices| == d
  {
    Table((first.exponent * second.exponent) % (2 * d), seq(d, i requires 0 <= i < d => first.indices[second.indices[i]]))
  }

  lemma ComposedExponent(t: int, u: int, e: int, n: int)
    requires n > 0
    ensures (t * ((u * e) % n)) % n == (((t * u) % n) * e) % n
  {
    MulRight(t, u * e, n);
    MulLeft(t * u, e, n);
    assert t * (u * e) == (t * u) * e;
  }

  lemma OddProductBelow(t: int, u: int, d: nat)
    requires OddBelow(t, d) && OddBelow(u, d)
    ensures OddBelow((t * u) % (2 * d), d)
  {
    hide *;
    OddExponent(t, d);
    OddExponent(u, d);
    OddProduct(t, u);
    OddMod(t * u, d);
    OddFrom((t * u) % (2 * d), d);
  }

  lemma OddFrom(e: int, d: nat)
    requires 0 <= e < 2 * d && e % 2 == 1
    ensures OddBelow(e, d)
  {
  }

  /** The composition realises the product of the exponents. */
  lemma ComposeRealises(N: Slots, first: Table, second: Table)
    requires N.Ok() && Realises(N, first) && Realises(N, second)
    ensures |first.indices| == |second.indices| == N.d && InRange(second.indices, N.d) && N.d > 0
    ensures Realises(N, Compose(N.d, first, second))
  {
    var r := Compose(N.d, first, second);
    OddProductBelow(first.exponent, second.exponent, N.d);
    forall s | 0 <= s < N.d
      ensures N.es[r.indices[s]] == (r.exponent * N.es[s]) % (2 * N.d)
    {
      ComposedExponent(first.exponent, second.exponent, N.es[s], 2 * N.d);
    }
  }

  lemma NextStored(d: nat, i: nat)
    requires d > 0
    ensures (LeftExp(d, i) * (5 % (2 * d))) % (2 * d) == LeftExp(d, i + 1)
    ensures (LeftExp(d, i) * (2 * d - 1)) % (2 * d) == RightExp(d, i)
  {
    hide Pow;
    ModMul(Pow(5, i), 5, 2 * d);
    PowStep(5, i);
    assert Pow(5, i) * 5 == 5 * Pow(5, i);
  }

  lemma FirstStored(d: nat)
    requires d > 0
    ensures LeftExp(d, 0) == 1
  {
    ModSmall(1, 2 * d);
  }

  /** tau_g_power_tables: repeated composition gives X -> X^(5^i) and X -> X^(5^i (2d-1)), under the
      exponents tau_g_pow stores, and every table is a bijection. */
  method TauGPowerTables(N: Slots, g: Table, h: Table, count: nat) returns (left: seq<Table>, right: seq<Table>)
    requires N.Ok() && Realises(N, g) && Realises(N, h)
    requires N.d > 0 && g.exponent == 5 % (2 * N.d) && h.exponent == 2 * N.d - 1
    ensures |left| == |right| == count
    ensures forall i :: 0 <= i < count ==> left[i].exponent == LeftExp(N.d, i) && right[i].exponent == RightExp(N.d, i)
    ensures forall i :: 0 <= i < count ==> Realises(N, left[i]) && Realises(N, right[i])
    ensures forall i :: 0 <= i < count ==> Bijection(left[i].indices, N.d) && Bijection(right[i].indices, N.d)
  {
    hide *;
    var current := Identity(N.d);
    IdentityRealises(N);
    IdentityExponent(N.d);
    FirstStored(N.d);
    left, right := [], [];
    for i := 0 to count
      invariant |left| == |right| == i
      invariant Realises(N, current) && current.exponent == LeftExp(N.d, i)
      invariant forall k :: 0 <= k < i ==> left[k].exponent == LeftExp(N.d, k) && right[k].exponent == RightExp(N.d, k)
      invariant forall k :: 0 <= k < i ==> Realises(N, left[k]) && Realises(N, right[k])
    {
      NextStored(N.d, i);
      ComposeRealises(N, current, h);
      ComposeRealises(N, current, g);
      ComposeExponent(N.d, current, h);
      ComposeExponent(N.d, current, g);
      left := left + [current];
      right := right + [Compose(N.d, current, h)];
      current := Compose(N.d, current, g);
    }
    forall i | 0 <= i < count
      ensures Bijection(left[i].indices, N.d) && Bijection(right[i].indices, N.d)
    {
      RealisesBijection(N, left[i]);
      RealisesBijection(N, right[i]);
    }
  }

  lemma IdentityExponent(d: nat)
    ensures Identity(d).exponent == 1
  {
  }

  lemma ComposeExponent(d: nat, first: Table, second: Table)
    requires d > 0 && |first.indices| == |second.indices| == d && InRange(second.indices, d)
    ensures Compose(d, first, second).exponent == (first.exponent * second.exponent) % (2 * d)
  {
  }

  // ----- discovering a table from probes -----

  /** Two slots hold the same pair of probe values. */
  predicate Collide(a: seq<int>, b: seq<int>)
    requires |a| == |b|
  {
    exists i, j :: 0 <= i < j < |a| && a[i] == a[j] && b[i] == b[j]
  }

  predicate Missing(a: seq<int>, b: seq<int>, x: int, y: int)
    requires |a| == |b|
  {
    forall i :: 0 <= i < |a| ==> (a[i], b[i]) != (x, y)
  }

  /** match_probe_slots: fails on a collision or a missing pair, otherwise finds each pair's only slot. */
  method MatchProbeSlots(a: seq<int>, b: seq<int>, autoA: seq<int>, autoB: seq<int>) returns (r: Option<seq<nat>>)
    requires |a| == |b| == |autoA| == |autoB|
    ensures r.None? <==> Collide(a, b) || exists k :: 0 <= k < |a| && Missing(a, b, autoA[k], autoB[k])
    ensures r.Some? ==> |r.value| == |a|
                        && forall k :: 0 <= k < |a| ==>
                             r.value[k] < |a| && a[r.value[k]] == autoA[k] && b[r.value[k]] == autoB[k]
  {
    var d := |a|;
    var positions: map<(int, int), nat> := map[];
    for idx := 0 to d
      invariant forall i :: 0 <= i < idx ==> (a[i], b[i]) in positions && positions[(a[i], b[i])] == i
      invariant forall p :: p in positions ==> positions[p] < idx && (a[positions[p]], b[positions[p]]) == p
    {
      if (a[idx], b[idx]) in positions {
        ghost var i := positions[(a[idx], b[idx])];
        assert a[i] == a[idx] && b[i] == b[idx];
        return None;
      }
      positions := positions[(a[idx], b[idx]) := idx];
    }
    forall i, j | 0 <= i < j < d
      ensures !(a[i] == a[j] && b[i] == b[j])
    {
      assert positions[(a[i], b[i])] == i && positions[(a[j], b[j])] == j;
    }
    var indices: seq<nat> := [];
    for k := 0 to d
      invariant |indices| == k
      invariant forall i :: 0 <= i < k ==> indices[i] < d && a[indices[i]] == autoA[i] && b[indices[i]] == autoB[i]
    {
      if (autoA[k], autoB[k]) !in positions {
        assert Missing(a, b, autoA[k], autoB[k]);
        return None;
      }
      ghost var i := positions[(autoA[k], autoB[k])];
      assert (a[i], b[i]) == (autoA[k], autoB[k]);
      indices := indices + [positions[(autoA[k], autoB[k])]];
    }
    r := Some(indices);
  }

  /** The slot that X -> X^t reads for output slot s. */
  function SourceSlot(N: Slots, t: int, s: nat): (r: nat)
    requires N.Ok() && OddBelow(t, N.d) && s < N.d
    ensures r < N.d && N.es[r] == (t * N.es[s]) % (2 * N.d)
  {
    SourceOdd(N, t, s);
    N.at[((t * N.es[s]) % (2 * N.d) - 1) / 2]
  }

  lemma SourceOdd(N: Slots, t: int, s: nat)
    requires N.Ok() && OddBelow(t, N.d) && s < N.d
    ensures OddBelow((t * N.es[s]) % (2 * N.d), N.d)
    ensures 2 * (((t * N.es[s]) % (2 * N.d) - 1) / 2) + 1 == (t * N.es[s]) % (2 * N.d)
  {
    hide *;
    SlotsSizes(N);
    SlotOdd(N, s);
    OddProductBelow(t, N.es[s], N.d);
    OddExponent((t * N.es[s]) % (2 * N.d), N.d);
    OddHalf((t * N.es[s]) % (2 * N.d));
  }

  lemma OddHalf(x: int)
    requires x % 2 == 1
    ensures 2 * ((x - 1) / 2) + 1 == x
  {
  }

  /** When the probes do not collide, the matched table is the automorphism's. */
  lemma MatchedRealises(N: Slots, t: int, pa: Poly, pb: Poly, indices: seq<nat>)
    requires N.Ok() && OddBelow(t, N.d) && |pa| == |pb| == N.d && !Collide(Forward(N, pa), Forward(N, pb))
    requires |indices| == N.d && N.q > 0
    requires forall k :: 0 <= k < N.d ==> indices[k] < N.d
    requires forall k :: 0 <= k < N.d ==> Forward(N, pa)[indices[k]] == Forward(N, Tau(N.q, pa, t))[k]
    requires forall k :: 0 <= k < N.d ==> Forward(N, pb)[indices[k]] == Forward(N, Tau(N.q, pb, t))[k]
    ensures Realises(N, Table(t, indices))
  {
    hide *;
    SlotsSizes(N);
    forall s | 0 <= s < N.d
      ensures N.es[indices[s]] == (t * N.es[s]) % (2 * N.d)
    {
      ProbeAgrees(N, t, pa, s);
      ProbeAgrees(N, t, pb, s);
      NoCollision(Forward(N, pa), Forward(N, pb), indices[s], SourceSlot(N, t, s));
    }
    RealisesFrom(N, t, indices);
  }

  lemma RealisesFrom(N: Slots, t: int, indices: seq<nat>)
    requires N.Ok() && OddBelow(t, N.d) && |indices| == N.d
    requires forall s :: 0 <= s < N.d ==> indices[s] < N.d && N.es[indices[s]] == (t * N.es[s]) % (2 * N.d)
    ensures Realises(N, Table(t, indices))
  {
  }

  lemma NoCollision(a: seq<int>, b: seq<int>, i: nat, j: nat)
    requires |a| == |b| && !Collide(a, b) && i < |a| && j < |a| && a[i] == a[j] && b[i] == b[j]
    ensures i == j
  {
    assert !(i < j) && !(j < i);
  }

  lemma ProbeAgrees(N: Slots, t: int, p: Poly, s: nat)
    requires N.Ok() && OddBelow(t, N.d) && |p| == N.d && s < N.d
    ensures N.q > 0 && N.d > 0 && Forward(N, Tau(N.q, p, t))[s] == Forward(N, p)[SourceSlot(N, t, s)]
  {
    hide *;
    SlotsSizes(N);
    SlotOdd(N, s);
    AtTau(N, p, t, N.es[s]);
    AtMod(N, p, t * N.es[s]);
  }

  lemma Present(a: seq<int>, b: seq<int>, i: nat)
    requires |a| == |b| && i < |a|
    ensures !Missing(a, b, a[i], b[i])
  {
    assert (a[i], b[i]) == (a[i], b[i]);
  }

  datatype Built = Built(table: Table) | EvenExponent | AllCollided

  /** ntt_automorph_table over a stream of probe pairs: it fails only on an even exponent or when every
      pair collides, and the table it returns realises the exponent. */
  method AutomorphTable(N: Slots, exponent: nat, probes: seq<(Poly, Poly)>) returns (r: Built)
    requires N.Ok() && forall i :: 0 <= i < |probes| ==> |probes[i].0| == |probes[i].1| == N.d
    ensures N.d > 0
    ensures r.EvenExponent? <==> exponent % 2 == 0
    ensures r.AllCollided? ==> forall i :: 0 <= i < |probes| ==> Collide(Forward(N, probes[i].0), Forward(N, probes[i].1))
    ensures r.Built? ==> exists i :: 0 <= i < |probes| && !Collide(Forward(N, probes[i].0), Forward(N, probes[i].1))
    ensures r.Built? ==> r.table.exponent == exponent % (2 * N.d) && Realises(N, r.table)
    ensures r.Built? ==> Bijection(r.table.indices, N.d)
  {
    hide *;
    SlotsSizes(N);
    var e := exponent % (2 * N.d);
    ParityKept(exponent, N.d);
    if e % 2 != 1 {
      return EvenExponent;
    }
    OddFrom(e, N.d);
    for attempt := 0 to |probes|
      invariant forall i :: 0 <= i < attempt ==> Collide(Forward(N, probes[i].0), Forward(N, probes[i].1))
    {
      var pa, pb := probes[attempt].0, probes[attempt].1;
      var a, b := Forward(N, pa), Forward(N, pb);
      var autoA, autoB := Forward(N, Tau(N.q, pa, e)), Forward(N, Tau(N.q, pb, e));
      var m := MatchProbeSlots(a, b, autoA, autoB);
      forall k | 0 <= k < N.d
        ensures !Missing(a, b, autoA[k], autoB[k])
      {
        ProbeAgrees(N, e, pa, k);
        ProbeAgrees(N, e, pb, k);
        Present(a, b, SourceSlot(N, e, k));
      }
      if m.Some? {
        MatchedRealises(N, e, pa, pb, m.value);
        RealisesBijection(N, Table(e, m.value));
        return Built(Table(e, m.value));
      }
    }
    r := AllCollided;
  }

  lemma ParityKept(x: nat, d: nat)
    requires d > 0
    ensures (x % (2 * d)) % 2 == x % 2
  {
    DivMod(x, 2 * d);
    var k := x / (2 * d);
    assert k * (2 * d) == (k * d) * 2;
    ModMultiple(x % (2 * d), k * d, 2);
  }
}
