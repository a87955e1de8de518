/** Machine words as integers: wrap-around, the signed reading of a word and the limits of the widths the program uses. */
module MachineWords {
  import opened Modular

  /** 2^64, 2^63, 2^128 and 2^127. */
  const WORD: int := 0x1_0000_0000_0000_0000
  const HALF: int := 0x8000_0000_0000_0000
  const U128: int := 0x1_0000_0000_0000_0000_0000_0000_0000_0000
  const I128: int := 0x8000_0000_0000_0000_0000_0000_0000_0000

  function Wrap(x: int): (r: int)
    ensures 0 <= r < WORD
  {
    x % WORD
  }

  lemma WrapSmall(x: int)
    requires 0 <= x < WORD
    ensures Wrap(x) == x
  {
    ModSmall(x, WORD);
  }

  lemma WrapOnce(x: int)
    requires WORD <= x < 2 * WORD
    ensures Wrap(x) == x - WORD
  {
    RemainderUnique(x, 1, x - WORD, WORD);
  }

  lemma WrapMod(x: int, q: int)
    requires q > 0 && WORD % q == 0
    ensures Wrap(x) % q == x % q
  {
    DivMod(x, WORD);
    DivMod(WORD, q);
    var k := -((x / WORD) * (WORD / q));
    assert Wrap(x) == x + k * q by {
      assert WORD == (WORD / q) * q;
      assert (x / WORD) * WORD == (x / WORD) * (WORD / q) * q;
    }
    ModMultiple(x, k, q);
  }

  /** A word read as a signed one. */
  function Signed(x: int): (r: int)
    ensures -HALF <= r < HALF
  {
    if Wrap(x) < HALF then Wrap(x) else Wrap(x) - WORD
  }

  lemma SignedSmall(x: int)
    requires -HALF <= x < HALF
    ensures Signed(x) == x
  {
    if x >= 0 {
      WrapSmall(x);
    } else {
      RemainderUnique(x, -1, x + WORD, WORD);
    }
  }

  /** A 64-bit sum of two residues, then one conditional subtraction: always a residue, and the modular sum exactly when
      the sum does not wrap. */
  function WordSum(x: int, y: int, q: int): (r: int)
    requires 0 <= x < q < WORD && 0 <= y < q
    ensures 0 <= r < q && (r == (x + y) % q <==> x + y < WORD)
  {
    WordSumParts(x, y, q);
    var sum := Wrap(x + y);
    if sum >= q then sum - q else sum
  }

  lemma WordSumParts(x: int, y: int, q: int)
    requires 0 <= x < q < WORD && 0 <= y < q
    ensures Wrap(x + y) == if x + y < WORD then x + y else x + y - WORD
    ensures (x + y) % q == if x + y < q then x + y else x + y - q
  {
    ReduceSum(x, y, q);
    if x + y < WORD {
      WrapSmall(x + y);
    } else {
      WrapOnce(x + y);
    }
  }

  /** Residues up to 2^63 add without wrapping. */
  lemma SumFits(x: int, y: int, q: int)
    requires 0 <= x < q <= HALF && 0 <= y < q
    ensures x + y < WORD && Wrap(x + y) == x + y
  {
    WrapSmall(x + y);
  }

  /** A 64-bit sum, reduced by a division. */
  function ReducedSum(x: int, y: int, q: int): (r: int)
    requires q > 0
    ensures 0 <= r < q
  {
    Wrap(x + y) % q
  }

  lemma ReducedSumIs(x: int, y: int, q: int)
    requires 0 <= x < q <= HALF && 0 <= y < q
    ensures ReducedSum(x, y, q) == (x + y) % q
  {
    SumFits(x, y, q);
  }

  /** A reduced accumulator plus a product of two words fits 128 bits. */
  lemma StepFits(acc: int, x: int, y: int, q: int)
    requires 0 <= acc < q < WORD && 0 <= x < WORD && 0 <= y < WORD
    ensures acc + x * y < U128
  {
    ProductOrder(x, WORD - 1, y);
    ProductOrder(y, WORD - 1, WORD - 1);
    Commute(y, WORD - 1);
  }
}
