/** Flat row-major tables. */
module Layout {
  import opened Modular

  /** Index of row i, column s in a flat table of k rows of d entries. */
  function Lane(k: nat, d: nat, i: nat, s: nat): (r: nat)
    requires i < k && s < d
    ensures r < k * d && r == i * d + s
  {
    NextRow(i, k, d);
    i * d + s
  }

  lemma NextRow(i: int, k: int, d: nat)
    requires i < k
    ensures i * d + d <= k * d
  {
    Distribute(i, 1, d);
    LargerProduct(k, i + 1, d);
  }

  lemma LaneIs(k: nat, d: nat, i: nat, s: nat)
    requires i < k && s < d
    ensures Lane(k, d, i, s) == i * d + s
  {
  }

  lemma LaneApart(k: nat, d: nat, i: nat, j: nat, s: nat)
    requires i < k && j < k && s < d
    ensures Lane(k, d, i, 0) + d <= k * d
    ensures Lane(k, d, i, s) == Lane(k, d, i, 0) + s
    ensures j < i ==> Lane(k, d, j, s) < Lane(k, d, i, 0)
    ensures j > i ==> Lane(k, d, j, s) >= Lane(k, d, i, 0) + d
  {
    hide *;
    NextRow(i, k, d);
    LaneIs(k, d, i, 0);
    LaneIs(k, d, i, s);
    LaneIs(k, d, j, s);
    if j < i {
      NextRow(j, i, d);
    } else if j > i {
      NextRow(i, j, d);
    }
  }

  lemma LaneOf(k: nat, d: nat, x: nat) returns (i: nat, s: nat)
    requires d > 0 && x < k * d
    ensures i < k && s < d && x == Lane(k, d, i, s)
  {
    DivMod(x, d);
    i, s := x / d, x % d;
    if i >= k {
      LargerProduct(i, k, d);
    }
  }

  lemma LargerProduct(i: int, k: int, d: nat)
    requires i >= k
    ensures i * d >= k * d
  {
  }
}
