/** The prepared packing state file (inspiring/src/prepared.rs).  A state is its polynomials in file order
    and its permutation tables. */
module Prepared {
  import opened Wrappers
  import opened Modular
  import opened MachineWords
  import opened Galois
  import opened Bits
  import A = Automorph
  import Ntt
  import S = Snapshot

  datatype Params = Params(d: nat, q: nat, p: nat, ell: nat, bits: nat, moduli: seq<nat>) {
    predicate Ok() {
      && d >= 2 && d % 2 == 0 && ell >= 1 && |moduli| >= 1
      && (forall i :: 0 <= i < |moduli| ==> 0 < moduli[i] < WORD)
      && d < 0x1_0000_0000 && q < WORD && p < WORD && ell < WORD && bits < WORD && |moduli| < WORD
    }
  }

  datatype Table = Table(exponent: nat, indices: seq<nat>)

  datatype State = State(polys: seq<seq<nat>>, tables: seq<Table>)

  // ----- little-endian words -----

  function LeBytes(w: nat): (r: seq<nat>)
    ensures |r| == 8 && Bytes(r)
  {
    seq(8, j requires 0 <= j < 8 => S.ByteOf(w, j))
  }

  lemma LeBytesBit(w: nat, pos: nat)
    requires pos < 64
    ensures BitAt(LeBytes(w), pos) == BitOf(w, pos)
  {
    S.ByteOfBits(w, pos / 8, pos % 8);
    assert LeBytes(w)[pos / 8] == S.ByteOf(w, pos / 8);
    assert 8 * (pos / 8) + pos % 8 == pos;
  }

  lemma {:induction false} LeWordBound(bytes: seq<nat>)
    requires Bytes(bytes)
    ensures S.LeWord(bytes) < Pow(2, 8 * |bytes|)
    decreases |bytes|
  {
    if |bytes| > 0 {
      var rest := bytes[1..];
      LeWordBound(rest);
      BytePower();
      assert 8 * |bytes| == 8 + 8 * |rest|;
      PowAdd(2, 8, 8 * |rest|);
    }
  }

  lemma LeRoundTrip(w: nat)
    requires w < WORD
    ensures S.LeWord(LeBytes(w)) == w
  {
    hide Pow, BitOf, LeBytes;
    WordPower64();
    LeWordBound(LeBytes(w));
    forall k | 0 <= k < 64
      ensures BitOf(S.LeWord(LeBytes(w)), k) == BitOf(w, k)
    {
      S.LeWordBits(LeBytes(w), k);
      LeBytesBit(w, k);
    }
    BitsDetermine(S.LeWord(LeBytes(w)), w, 64);
  }

  lemma LeInjective(x: seq<nat>, y: seq<nat>)
    requires |x| == |y| && Bytes(x) && Bytes(y) && S.LeWord(x) == S.LeWord(y)
    ensures x == y
  {
    hide BitOf;
    forall pos | 0 <= pos < 8 * |x|
      ensures BitAt(x, pos) == BitAt(y, pos)
    {
      S.LeWordBits(x, pos);
      S.LeWordBits(y, pos);
    }
    SameBits(x, y);
  }

  // ----- the layout -----

  function Magic(): (m: seq<nat>)
    ensures |m| == 16 && Bytes(m)
  {
    [73, 78, 83, 80, 45, 80, 82, 69, 80, 45, 118, 49, 0, 0, 0, 0]
  }

  function Header(P: Params, blocks: nat): (h: seq<nat>)
    ensures |h| == 7 + |P.moduli|
  {
    [P.d, P.q, P.p, P.ell, P.bits, |P.moduli|, blocks] + P.moduli
  }

  function PolyWords(P: Params): (r: nat) {
    P.d * |P.moduli|
  }

  function Repeat(n: nat, x: nat): (r: seq<nat>)
    ensures |r| == n && forall i :: 0 <= i < n ==> r[i] == x
  {
    seq(n, _ => x)
  }

  /** Lengths of the polynomials of the first n blocks: c1, then d - 1 digit columns. */
  function BlockLens(P: Params, n: nat): (r: seq<nat>)
    requires P.d >= 1
  {
    if n == 0 then [] else BlockLens(P, n - 1) + [PolyWords(P)] + Repeat(P.d - 1, P.ell * PolyWords(P))
  }

  /** All polynomials: the blocks, then the d - 1 key images. */
  function Lens(P: Params, blocks: nat): (r: seq<nat>)
    requires P.d >= 1
  {
    BlockLens(P, blocks) + Repeat(P.d - 1, P.ell * PolyWords(P))
  }

  function SumTo(ls: seq<nat>, n: nat): (r: nat)
    requires n <= |ls|
  {
    if n == 0 then 0 else SumTo(ls, n - 1) + ls[n - 1]
  }

  lemma SumToStep(ls: seq<nat>, n: nat)
    requires n < |ls|
    ensures SumTo(ls, n + 1) == SumTo(ls, n) + ls[n]
  {
  }

  lemma SumToNil(ls: seq<nat>)
    ensures SumTo(ls, 0) == 0
  {
  }

  lemma {:induction false} SumToConcat(x: seq<nat>, y: seq<nat>, n: nat)
    requires n <= |y|
    ensures SumTo(x + y, |x| + n) == SumTo(x, |x|) + SumTo(y, n)
  {
    if n == 0 {
      SumToPrefix(x, x + y, |x|);
    } else {
      SumToConcat(x, y, n - 1);
      SumToStep(x + y, |x| + n - 1);
      SumToStep(y, n - 1);
    }
  }

  lemma {:induction false} SumToPrefix(x: seq<nat>, y: seq<nat>, n: nat)
    requires n <= |x| && n <= |y| && forall i :: 0 <= i < n ==> x[i] == y[i]
    ensures SumTo(x, n) == SumTo(y, n)
  {
    if n > 0 {
      SumToPrefix(x, y, n - 1);
    }
  }

  lemma {:induction false} SumToRepeat(k: nat, x: nat, n: nat)
    requires n <= k
    ensures SumTo(Repeat(k, x), n) == n * x
  {
    if n > 0 {
      SumToRepeat(k, x, n - 1);
      SumToStep(Repeat(k, x), n - 1);
      Distribute(n - 1, 1, x);
    } else {
      SumToNil(Repeat(k, x));
    }
  }

  /** Words before the first table. */
  function TableStart(P: Params, blocks: nat): (r: nat)
    requires P.d >= 1
  {
    |Header(P, blocks)| + SumTo(Lens(P, blocks), |Lens(P, blocks)|)
  }

  function TableCount(P: Params): (r: int) {
    2 * (P.d / 2 - 1)
  }

  /** All words after the magic. */
  function TotalWords(P: Params, blocks: nat): (r: nat)
    requires P.d >= 2
  {
    TableStart(P, blocks) + TableCount(P) * (P.d + 1)
  }

  /** encoded_len. */
  function EncodedLen(P: Params, blocks: nat): (r: int)
    requires P.d >= 2
  {
    8 * (P.d * |P.moduli| * (blocks * (1 + (P.d - 1) * P.ell) + (P.d - 1) * P.ell) + (P.d - 2) * (P.d + 1) + |Header(P, blocks)|) + 16
  }

  lemma {:induction false} BlockLensSum(P: Params, n: nat)
    requires P.d >= 1
    ensures SumTo(BlockLens(P, n), |BlockLens(P, n)|) == n * (PolyWords(P) + (P.d - 1) * (P.ell * PolyWords(P)))
  {
    hide Repeat, PolyWords, SumTo;
    var w := PolyWords(P);
    if n == 0 {
      SumToNil(BlockLens(P, 0));
    } else {
      BlockLensSum(P, n - 1);
      var x, y := BlockLens(P, n - 1) + [w], Repeat(P.d - 1, P.ell * w);
      SumToConcat(x, y, |y|);
      SumToRepeat(P.d - 1, P.ell * w, P.d - 1);
      SumToConcat(BlockLens(P, n - 1), [w], 1);
      SumToStep([w], 0);
      SumToNil([w]);
      Distribute(n - 1, 1, w + (P.d - 1) * (P.ell * w));
    }
  }

  /** The computed length is the length of the layout. */
  lemma EncodedLenIs(P: Params, blocks: nat)
    requires P.d >= 2 && P.d % 2 == 0
    ensures EncodedLen(P, blocks) == 16 + 8 * TotalWords(P, blocks)
  {
    hide SumTo, Repeat, BlockLens, Header;
    var w, e := PolyWords(P), P.d - 1;
    BlockLensSum(P, blocks);
    SumToConcat(BlockLens(P, blocks), Repeat(e, P.ell * w), e);
    SumToRepeat(e, P.ell * w, e);
    assert |Repeat(e, P.ell * w)| == e;
    Factor(w, blocks, e, P.ell);
  }

  lemma Factor(w: int, blocks: int, e: int, ell: int)
    ensures blocks * (w + e * (ell * w)) + e * (ell * w) == w * (blocks * (1 + e * ell) + e * ell)
  {
    var f := e * ell;
    assert e * (ell * w) == f * w;
    assert blocks * (w + f * w) == w * (blocks * (1 + f)) by {
      assert w + f * w == (1 + f) * w;
      assert blocks * ((1 + f) * w) == (blocks * (1 + f)) * w;
    }
    assert w * (blocks * (1 + f) + f) == w * (blocks * (1 + f)) + w * f;
  }

  /** encoded_len with its checked operations: it fails exactly when the length does not fit a 64-bit word. */
  method EncodedLenChecked(P: Params, blocks: nat) returns (r: Result<nat>)
    requires P.Ok() && 1 + (P.d - 1) * P.ell < WORD && (P.d - 2) * (P.d + 1) < WORD
    ensures r.Ok? <==> EncodedLen(P, blocks) < WORD
    ensures r.Ok? ==> r.value == EncodedLen(P, blocks)
  {
    var words, digits, tables, header := P.d * |P.moduli|, (P.d - 1) * P.ell, (P.d - 2) * (P.d + 1), |Header(P, blocks)|;
    LengthParts(P, blocks, words, digits, tables, header);
    r := CheckedLength(words, digits, tables, header, blocks);
  }

  function Length(words: int, digits: int, tables: int, header: int, blocks: int): (r: int) {
    8 * (words * (blocks * (1 + digits) + digits) + tables + header) + 16
  }

  lemma LengthParts(P: Params, blocks: nat, words: int, digits: int, tables: int, header: int)
    requires P.Ok() && words == P.d * |P.moduli| && digits == (P.d - 1) * P.ell && tables == (P.d - 2) * (P.d + 1)
    requires header == |Header(P, blocks)|
    ensures words >= 1 && digits >= 1 && tables >= 0 && header >= 0
    ensures EncodedLen(P, blocks) == Length(words, digits, tables, header, blocks)
  {
    hide Header;
    ProductOrder(1, P.d, |P.moduli|);
    ProductOrder(1, P.d - 1, P.ell);
    ProductNonNegative(P.d - 2, P.d + 1);
  }

  method CheckedLength(words: int, digits: int, tables: int, header: int, blocks: nat) returns (r: Result<nat>)
    requires words >= 1 && digits >= 1 && tables >= 0 && header >= 0
    ensures r.Ok? <==> Length(words, digits, tables, header, blocks) < WORD
    ensures r.Ok? ==> r.value == Length(words, digits, tables, header, blocks)
  {
    var scaled := blocks * (1 + digits);
    ProductNonNegative(blocks, 1 + digits);
    var polys := scaled + digits;
    AtLeastFactor(words, polys);
    AtLeastFactor(polys, words);
    Commute(words, polys);
    if words >= WORD || scaled >= WORD || polys >= WORD {
      return Err(InvalidState);
    }
    var total := words * polys;
    if total >= WORD || total + tables >= WORD || total + tables + header >= WORD {
      return Err(InvalidState);
    }
    total := total + tables + header;
    if 8 * total >= WORD || 8 * total + 16 >= WORD {
      return Err(InvalidState);
    }
    r := Result.Ok(8 * total + 16);
  }

  /** A product of positive words is at least each of them. */
  lemma AtLeastFactor(x: int, y: int)
    requires x >= 1 && y >= 0
    ensures x * y >= y
  {
    ProductOrder(1, x, y);
  }

  // ----- what a file says -----

  /** Word i after the magic. */
  function WordAt(bytes: seq<nat>, i: nat): (r: nat)
    requires 16 + 8 * (i + 1) <= |bytes|
  {
    S.LeWord(bytes[16 + 8 * i..16 + 8 * (i + 1)])
  }

  predicate Residue(P: Params, j: nat, n: nat)
    requires P.Ok()
  {
    n < P.moduli[(j / P.d) % |P.moduli|]
  }

  function PolyOffset(P: Params, blocks: nat, k: nat): (r: nat)
    requires P.d >= 1 && k <= |Lens(P, blocks)|
  {
    |Header(P, blocks)| + SumTo(Lens(P, blocks), k)
  }

  /** Table t starts at this word. */
  function TableOffset(P: Params, blocks: nat, t: nat): (r: nat)
    requires P.d >= 1
  {
    TableStart(P, blocks) + t * (P.d + 1)
  }

  lemma TableInside(P: Params, blocks: nat, t: nat, j: nat)
    requires P.d >= 2 && t < TableCount(P) && j <= P.d
    ensures TableOffset(P, blocks, t) + j < TableOffset(P, blocks, t + 1) <= TotalWords(P, blocks)
  {
    hide SumTo, Lens, Header, TableStart;
    Distribute(t, 1, P.d + 1);
    ProductOrder(t + 1, TableCount(P), P.d + 1);
  }

  /** The bytes spell the state, word by word. */
  ghost predicate Spells(P: Params, blocks: nat, st: State, bytes: seq<nat>)
    requires P.Ok()
  {
    && |bytes| == 16 + 8 * TotalWords(P, blocks) && Bytes(bytes) && bytes[..16] == Magic()
    && HeaderSpelled(P, blocks, bytes) && PolysSpelled(P, blocks, st.polys, bytes, |Lens(P, blocks)|)
    && TablesSpelled(P, blocks, st.tables, bytes, TableCount(P))
  }

  ghost predicate HeaderSpelled(P: Params, blocks: nat, bytes: seq<nat>)
    requires P.Ok()
  {
    forall i :: 0 <= i < |Header(P, blocks)| ==> HeaderWord(P, blocks, bytes, i)
  }

  ghost predicate HeaderWord(P: Params, blocks: nat, bytes: seq<nat>, i: nat)
    requires P.Ok() && i < |Header(P, blocks)|
  {
    16 + 8 * (i + 1) <= |bytes| && WordAt(bytes, i) == Header(P, blocks)[i]
  }

  ghost predicate PolySpelled(P: Params, blocks: nat, poly: seq<nat>, bytes: seq<nat>, k: nat, n: nat)
    requires P.Ok() && k < |Lens(P, blocks)|
  {
    n <= |poly| && n <= Lens(P, blocks)[k] && forall j :: 0 <= j < n ==> PolyWord(P, blocks, poly[j], bytes, k, j)
  }

  ghost predicate PolyWord(P: Params, blocks: nat, x: nat, bytes: seq<nat>, k: nat, j: nat)
    requires P.Ok() && k < |Lens(P, blocks)|
  {
    16 + 8 * (PolyOffset(P, blocks, k) + j + 1) <= |bytes| && x == WordAt(bytes, PolyOffset(P, blocks, k) + j)
  }

  ghost predicate PolysSpelled(P: Params, blocks: nat, polys: seq<seq<nat>>, bytes: seq<nat>, n: nat)
    requires P.Ok() && n <= |Lens(P, blocks)|
  {
    |polys| == n && forall k :: 0 <= k < n ==> |polys[k]| == Lens(P, blocks)[k] && PolySpelled(P, blocks, polys[k], bytes, k, |polys[k]|)
  }

  ghost predicate TableSpelled(P: Params, blocks: nat, t: Table, bytes: seq<nat>, i: nat)
    requires P.Ok()
  {
    && |t.indices| == P.d && TableWord(P, blocks, t.exponent, bytes, i, 0)
    && forall j :: 0 <= j < P.d ==> TableWord(P, blocks, t.indices[j], bytes, i, j + 1)
  }

  ghost predicate TableWord(P: Params, blocks: nat, x: nat, bytes: seq<nat>, i: nat, j: nat)
    requires P.Ok()
  {
    16 + 8 * (TableOffset(P, blocks, i) + j + 1) <= |bytes| && x == WordAt(bytes, TableOffset(P, blocks, i) + j)
  }

  ghost predicate TablesSpelled(P: Params, blocks: nat, tables: seq<Table>, bytes: seq<nat>, n: int)
    requires P.Ok()
  {
    |tables| == n && forall i :: 0 <= i < n ==> TableSpelled(P, blocks, tables[i], bytes, i)
  }

  /** What write checks: shapes, residues, permutations. */
  ghost predicate Writable(P: Params, blocks: nat, st: State)
    requires P.Ok()
  {
    && |st.polys| == |Lens(P, blocks)| && |st.tables| == TableCount(P) && blocks < WORD
    && (forall k :: 0 <= k < |st.polys| ==> PolyOk(P, st.polys[k], Lens(P, blocks)[k]))
    && (forall t :: 0 <= t < |st.tables| ==> A.Bijection(st.tables[t].indices, P.d) && st.tables[t].exponent < WORD)
  }

  predicate PolyOk(P: Params, poly: seq<nat>, len: nat)
    requires P.Ok()
  {
    |poly| == len && forall j :: 0 <= j < len ==> Residue(P, j, poly[j])
  }

  /** What read checks on top: odd exponents below 2d. */
  predicate ExponentsOdd(P: Params, st: State) {
    forall t :: 0 <= t < |st.tables| ==> st.tables[t].exponent < 2 * P.d && st.tables[t].exponent % 2 == 1
  }

  /** Both checks together: what a round trip needs. */
  ghost predicate Readable(P: Params, blocks: nat, st: State)
    requires P.Ok()
  {
    Writable(P, blocks, st) && ExponentsOdd(P, st)
  }

  // ----- the layout in numbers -----

  /** A word is eight bytes, least significant first. */
  lemma WordBytes(bytes: seq<nat>, i: nat)
    requires 16 + 8 * (i + 1) <= |bytes|
    ensures var b := bytes[16 + 8 * i..16 + 8 * (i + 1)];
            WordAt(bytes, i) == b[0] + 0x100 * b[1] + 0x1_0000 * b[2] + 0x100_0000 * b[3] + 0x1_0000_0000 * b[4]
                                + 0x100_0000_0000 * b[5] + 0x1_0000_0000_0000 * b[6] + 0x100_0000_0000_0000 * b[7]
  {
    var b := bytes[16 + 8 * i..16 + 8 * (i + 1)];
    FirstByte(b);
    FirstByte(b[1..]);
    FirstByte(b[2..]);
    FirstByte(b[3..]);
    FirstByte(b[4..]);
    FirstByte(b[5..]);
    FirstByte(b[6..]);
    FirstByte(b[7..]);
    NoBytes(b[8..]);
  }

  lemma FirstByte(b: seq<nat>)
    requires |b| > 0
    ensures S.LeWord(b) == b[0] + 0x100 * S.LeWord(b[1..])
    ensures forall k :: 0 <= k < |b| ==> b[1..][k..] == b[k + 1..]
  {
    forall k | 0 <= k < |b|
      ensures b[1..][k..] == b[k + 1..]
    {
    }
  }

  lemma NoBytes(b: seq<nat>)
    requires |b| == 0
    ensures S.LeWord(b) == 0
  {
  }

  /** The magic INSP-PREP-v1 and the header words in order. */
  lemma HeaderLayout(P: Params, blocks: nat, bytes: seq<nat>)
    requires P.Ok() && |bytes| >= 16 && bytes[..16] == Magic() && HeaderSpelled(P, blocks, bytes)
    ensures |bytes| >= 16 + 8 * (7 + |P.moduli|)
    ensures bytes[..16] == [73, 78, 83, 80, 45, 80, 82, 69, 80, 45, 118, 49, 0, 0, 0, 0]
    ensures WordAt(bytes, 0) == P.d && WordAt(bytes, 1) == P.q && WordAt(bytes, 2) == P.p && WordAt(bytes, 3) == P.ell
    ensures WordAt(bytes, 4) == P.bits && WordAt(bytes, 5) == |P.moduli| && WordAt(bytes, 6) == blocks
    ensures forall i :: 0 <= i < |P.moduli| ==> WordAt(bytes, 7 + i) == P.moduli[i]
  {
    hide WordAt;
    assert HeaderWord(P, blocks, bytes, 7 + |P.moduli| - 1);
    assert HeaderWord(P, blocks, bytes, 0) && HeaderWord(P, blocks, bytes, 1) && HeaderWord(P, blocks, bytes, 2);
    assert HeaderWord(P, blocks, bytes, 3) && HeaderWord(P, blocks, bytes, 4) && HeaderWord(P, blocks, bytes, 5);
    assert HeaderWord(P, blocks, bytes, 6);
    forall i | 0 <= i < |P.moduli|
      ensures WordAt(bytes, 7 + i) == P.moduli[i]
    {
      assert HeaderWord(P, blocks, bytes, 7 + i);
    }
  }

  /** Words of one block: c1, then d - 1 digit columns of ell polynomials. */
  function BlockWords(P: Params): (r: nat)
    requires P.d >= 1
  {
    P.d * |P.moduli| + (P.d - 1) * (P.ell * (P.d * |P.moduli|))
  }

  lemma {:induction false} BlockLensSize(P: Params, n: nat)
    requires P.d >= 1
    ensures |BlockLens(P, n)| == n * P.d
  {
    hide Repeat, PolyWords;
    if n > 0 {
      BlockLensSize(P, n - 1);
      Distribute(n - 1, 1, P.d);
      assert |Repeat(P.d - 1, P.ell * PolyWords(P))| == P.d - 1;
    }
  }

  lemma {:induction false} BlockLensPrefix(P: Params, m: nat, n: nat)
    requires P.d >= 1 && m <= n
    ensures BlockLens(P, m) <= BlockLens(P, n)
  {
    hide Repeat, PolyWords;
    if m < n {
      BlockLensPrefix(P, m, n - 1);
    }
  }

  /** Where polynomial m of block b starts, and its length. */
  lemma BlockPlace(P: Params, blocks: nat, b: nat, m: nat)
    requires P.d >= 1 && b < blocks && m < P.d
    ensures |Lens(P, blocks)| == blocks * P.d + (P.d - 1) && 0 <= b * P.d && b * P.d + m < blocks * P.d
    ensures Lens(P, blocks)[b * P.d + m] == if m == 0 then PolyWords(P) else P.ell * PolyWords(P)
    ensures SumTo(Lens(P, blocks), b * P.d + m)
            == b * BlockWords(P) + if m == 0 then 0 else PolyWords(P) + (m - 1) * (P.ell * PolyWords(P))
  {
    hide Repeat, PolyWords, SumTo, BlockLens;
    var w, e, ls := PolyWords(P), P.d - 1, Lens(P, blocks);
    var before, digits := BlockLens(P, b), Repeat(e, P.ell * w);
    BlockLensSize(P, b);
    BlockLensSize(P, b + 1);
    BlockLensSize(P, blocks);
    BlockLensNext(P, b);
    BlockLensPrefix(P, b + 1, blocks);
    BlockLensSum(P, b);
    RepeatSize(e, P.ell * w);
    PolyWordsIs(P);
    var block := before + [w] + digits;
    ProductOrder(b + 1, blocks, P.d);
    Distribute(b, 1, P.d);
    assert block <= ls;
    SumToPrefix(block, ls, b * P.d + m);
    if m == 0 {
      SumToPrefix(before, block, b * P.d);
      assert block[b * P.d] == w;
    } else {
      SumToConcat(before + [w], digits, m - 1);
      SumToRepeat(e, P.ell * w, m - 1);
      SumToConcat(before, [w], 1);
      SumToStep([w], 0);
      SumToNil([w]);
      assert block[b * P.d + m] == digits[m - 1];
    }
    assert ls[b * P.d + m] == block[b * P.d + m];
  }

  lemma BlockLensNext(P: Params, b: nat)
    requires P.d >= 1
    ensures BlockLens(P, b + 1) == BlockLens(P, b) + [PolyWords(P)] + Repeat(P.d - 1, P.ell * PolyWords(P))
  {
  }

  lemma RepeatSize(n: nat, x: nat)
    ensures |Repeat(n, x)| == n && forall i :: 0 <= i < n ==> Repeat(n, x)[i] == x
  {
  }

  lemma PolyWordsIs(P: Params)
    requires P.d >= 1
    ensures PolyWords(P) == P.d * |P.moduli| && BlockWords(P) == PolyWords(P) + (P.d - 1) * (P.ell * PolyWords(P))
  {
  }

  /** Where key image i starts, and its length. */
  lemma ImagePlace(P: Params, blocks: nat, i: nat)
    requires P.d >= 1 && i < P.d - 1
    ensures |Lens(P, blocks)| == blocks * P.d + (P.d - 1) && 0 <= blocks * P.d
    ensures Lens(P, blocks)[blocks * P.d + i] == P.ell * PolyWords(P)
    ensures SumTo(Lens(P, blocks), blocks * P.d + i) == blocks * BlockWords(P) + i * (P.ell * PolyWords(P))
  {
    hide Repeat, PolyWords, SumTo, BlockLens;
    var w, e := PolyWords(P), P.d - 1;
    BlockLensSize(P, blocks);
    BlockLensSum(P, blocks);
    RepeatSize(e, P.ell * w);
    PolyWordsIs(P);
    SumToConcat(BlockLens(P, blocks), Repeat(e, P.ell * w), i);
    SumToRepeat(e, P.ell * w, i);
  }

  lemma HeaderSize(P: Params, blocks: nat)
    ensures |Header(P, blocks)| == 7 + |P.moduli|
  {
  }

  /** Word j of polynomial m of block b, c1 first and then the d - 1 digit columns: 7 header words and the moduli come
      before the blocks. */
  lemma BlockLayout(P: Params, blocks: nat, st: State, bytes: seq<nat>, b: nat, m: nat, j: nat)
    requires P.Ok() && Spells(P, blocks, st, bytes) && b < blocks && m < P.d
    ensures |st.polys| == blocks * P.d + (P.d - 1) && 0 <= b * P.d && b * P.d + m < |st.polys|
    ensures var w, k := P.d * |P.moduli|, b * P.d + m;
            && |st.polys[k]| == (if m == 0 then w else P.ell * w)
            && (j < |st.polys[k]| ==>
                  var at := 7 + |P.moduli| + b * (w + (P.d - 1) * (P.ell * w)) + (if m == 0 then 0 else w + (m - 1) * (P.ell * w)) + j;
                  at >= 0 && 16 + 8 * (at + 1) <= |bytes| && WordAt(bytes, at) == st.polys[k][j])
  {
    hide WordAt, Header, Lens, SumTo, PolyWords, BlockWords, TableSpelled;
    BlockPlace(P, blocks, b, m);
    HeaderSize(P, blocks);
    PolyWordsIs(P);
    var k := b * P.d + m;
    assert PolySpelled(P, blocks, st.polys[k], bytes, k, |st.polys[k]|);
    if j < |st.polys[k]| {
      assert PolyWord(P, blocks, st.polys[k][j], bytes, k, j);
    }
  }

  /** Word j of key image i: the d - 1 images follow the blocks. */
  lemma ImageLayout(P: Params, blocks: nat, st: State, bytes: seq<nat>, i: nat, j: nat)
    requires P.Ok() && Spells(P, blocks, st, bytes) && i < P.d - 1
    ensures |st.polys| == blocks * P.d + (P.d - 1) && 0 <= blocks * P.d
    ensures var w, k := P.d * |P.moduli|, blocks * P.d + i;
            && |st.polys[k]| == P.ell * w
            && (j < |st.polys[k]| ==>
                  var at := 7 + |P.moduli| + blocks * (w + (P.d - 1) * (P.ell * w)) + i * (P.ell * w) + j;
                  at >= 0 && 16 + 8 * (at + 1) <= |bytes| && WordAt(bytes, at) == st.polys[k][j])
  {
    hide WordAt, Header, Lens, SumTo, PolyWords, BlockWords, TableSpelled;
    ImagePlace(P, blocks, i);
    HeaderSize(P, blocks);
    PolyWordsIs(P);
    var k := blocks * P.d + i;
    assert PolySpelled(P, blocks, st.polys[k], bytes, k, |st.polys[k]|);
    if j < |st.polys[k]| {
      assert PolyWord(P, blocks, st.polys[k][j], bytes, k, j);
    }
  }

  /** Table t: its exponent, then its d indices; the d - 2 tables end the file. */
  lemma TableLayout(P: Params, blocks: nat, st: State, bytes: seq<nat>, t: nat, j: nat)
    requires P.Ok() && Spells(P, blocks, st, bytes) && t < P.d - 2
    ensures |st.tables| == P.d - 2 && |st.tables[t].indices| == P.d
    ensures var w := P.d * |P.moduli|;
            var at := 7 + |P.moduli| + blocks * (w + (P.d - 1) * (P.ell * w)) + (P.d - 1) * (P.ell * w) + t * (P.d + 1);
            && at >= 0 && 16 + 8 * (at + P.d + 1) <= |bytes|
            && WordAt(bytes, at) == st.tables[t].exponent
            && (j < P.d ==> WordAt(bytes, at + 1 + j) == st.tables[t].indices[j])
  {
    hide WordAt, Header, Lens, SumTo, PolyWords, BlockWords, PolySpelled;
    StartWords(P, blocks);
    TableInside(P, blocks, t, P.d);
    assert TableSpelled(P, blocks, st.tables[t], bytes, t);
    if j < P.d {
      assert TableWord(P, blocks, st.tables[t].indices[j], bytes, t, j + 1);
    }
  }

  lemma StartWords(P: Params, blocks: nat)
    requires P.d >= 1
    ensures var w := P.d * |P.moduli|;
            TableStart(P, blocks) == 7 + |P.moduli| + blocks * (w + (P.d - 1) * (P.ell * w)) + (P.d - 1) * (P.ell * w)
  {
    hide Repeat, PolyWords, SumTo, BlockLens;
    var w, e := PolyWords(P), P.d - 1;
    BlockLensSum(P, blocks);
    RepeatSize(e, P.ell * w);
    PolyWordsIs(P);
    SumToConcat(BlockLens(P, blocks), Repeat(e, P.ell * w), e);
    SumToRepeat(e, P.ell * w, e);
    HeaderSize(P, blocks);
  }

  /** What write accepts, in numbers: d polynomials per block and d - 1 key images of the right lengths, every coefficient
      below the modulus of its row, and d - 2 tables that permute 0..d. */
  lemma WritableMeans(P: Params, blocks: nat, st: State)
    requires P.Ok() && blocks < WORD && forall t :: 0 <= t < |st.tables| ==> st.tables[t].exponent < WORD
    ensures var w := P.d * |P.moduli|;
            Writable(P, blocks, st) <==>
              && |st.polys| == blocks * P.d + (P.d - 1) && |st.tables| == P.d - 2
              && (forall k :: 0 <= k < |st.polys| ==> |st.polys[k]| == if k < blocks * P.d && k % P.d == 0 then w else P.ell * w)
              && (forall k, j :: 0 <= k < |st.polys| && 0 <= j < |st.polys[k]| ==>
                    st.polys[k][j] < P.moduli[(j / P.d) % |P.moduli|])
              && (forall t :: 0 <= t < |st.tables| ==>
                    var x := st.tables[t].indices;
                    |x| == P.d && (forall i :: 0 <= i < P.d ==> x[i] < P.d) && forall i, j :: 0 <= i < j < P.d ==> x[i] != x[j])
  {
    hide Lens, PolyWords, BlockWords, A.Bijection;
    BlockLensSize(P, blocks);
    LensSize(P, blocks);
    PolyWordsIs(P);
    forall k | 0 <= k < |Lens(P, blocks)|
      ensures Lens(P, blocks)[k] == if k < blocks * P.d && k % P.d == 0 then P.d * |P.moduli| else P.ell * (P.d * |P.moduli|)
    {
      LensAt(P, blocks, k);
    }
    forall t | 0 <= t < |st.tables|
      ensures var x := st.tables[t].indices;
              A.Bijection(x, P.d)
              <==> |x| == P.d && (forall i :: 0 <= i < P.d ==> x[i] < P.d) && forall i, j :: 0 <= i < j < P.d ==> x[i] != x[j]
    {
      PermutationMeans(st.tables[t].indices, P.d);
    }
    if forall k :: 0 <= k < |st.polys| ==> k < |Lens(P, blocks)| && PolyOk(P, st.polys[k], Lens(P, blocks)[k]) {
      forall k, j | 0 <= k < |st.polys| && 0 <= j < |st.polys[k]|
        ensures st.polys[k][j] < P.moduli[(j / P.d) % |P.moduli|]
      {
        assert PolyOk(P, st.polys[k], Lens(P, blocks)[k]);
        assert Residue(P, j, st.polys[k][j]);
      }
    }
  }

  lemma PermutationMeans(x: seq<nat>, d: nat)
    ensures A.Bijection(x, d)
            <==> |x| == d && (forall i :: 0 <= i < d ==> x[i] < d) && forall i, j :: 0 <= i < j < d ==> x[i] != x[j]
  {
    if |x| == d && (forall i :: 0 <= i < d ==> x[i] < d) && forall i, j :: 0 <= i < j < d ==> x[i] != x[j] {
      A.Pigeonhole(x, d);
    }
  }

  lemma LensSize(P: Params, blocks: nat)
    requires P.d >= 1
    ensures |Lens(P, blocks)| == blocks * P.d + (P.d - 1)
  {
    hide BlockLens, Repeat;
    BlockLensSize(P, blocks);
    RepeatSize(P.d - 1, P.ell * PolyWords(P));
  }

  lemma LensAt(P: Params, blocks: nat, k: nat)
    requires P.d >= 1 && k < blocks * P.d + (P.d - 1)
    ensures |Lens(P, blocks)| == blocks * P.d + (P.d - 1)
    ensures Lens(P, blocks)[k] == if k < blocks * P.d && k % P.d == 0 then PolyWords(P) else P.ell * PolyWords(P)
  {
    hide Lens, PolyWords, SumTo;
    LensSize(P, blocks);
    if k < blocks * P.d {
      DivMod(k, P.d);
      var b := k / P.d;
      if b < 0 {
        MulStrict(b, P.d);
      }
      if b >= blocks {
        ProductOrder(blocks, b, P.d);
      }
      BlockPlace(P, blocks, b, k % P.d);
    } else {
      ImagePlace(P, blocks, k - blocks * P.d);
    }
  }

  // ----- growing output -----

  lemma WordKept(x: seq<nat>, y: seq<nat>, i: nat)
    requires 16 + 8 * (i + 1) <= |x| && x <= y
    ensures WordAt(y, i) == WordAt(x, i)
  {
    assert x[16 + 8 * i..16 + 8 * (i + 1)] == y[16 + 8 * i..16 + 8 * (i + 1)];
  }

  lemma PutWord(out: seq<nat>, w: nat, i: nat)
    requires |out| == 16 + 8 * i && w < WORD && Bytes(out)
    ensures |out + LeBytes(w)| == 16 + 8 * (i + 1) && Bytes(out + LeBytes(w)) && WordAt(out + LeBytes(w), i) == w
  {
    hide LeBytes, S.LeWord;
    LeRoundTrip(w);
    assert (out + LeBytes(w))[16 + 8 * i..16 + 8 * (i + 1)] == LeBytes(w);
  }

  lemma PolySpelledKept(P: Params, blocks: nat, poly: seq<nat>, x: seq<nat>, y: seq<nat>, k: nat, n: nat)
    requires P.Ok() && k < |Lens(P, blocks)| && x <= y && PolySpelled(P, blocks, poly, x, k, n)
    ensures PolySpelled(P, blocks, poly, y, k, n)
  {
    hide WordAt, Lens, PolyOffset;
    forall j | 0 <= j < n
      ensures PolyWord(P, blocks, poly[j], y, k, j)
    {
      assert PolyWord(P, blocks, poly[j], x, k, j);
      WordKept(x, y, PolyOffset(P, blocks, k) + j);
    }
  }

  lemma PolysSpelledKept(P: Params, blocks: nat, polys: seq<seq<nat>>, x: seq<nat>, y: seq<nat>, n: nat)
    requires P.Ok() && n <= |Lens(P, blocks)| && x <= y && PolysSpelled(P, blocks, polys, x, n)
    ensures PolysSpelled(P, blocks, polys, y, n)
  {
    hide PolySpelled, Lens;
    forall k | 0 <= k < n
      ensures PolySpelled(P, blocks, polys[k], y, k, |polys[k]|)
    {
      PolySpelledKept(P, blocks, polys[k], x, y, k, |polys[k]|);
    }
  }

  lemma HeaderKept(P: Params, blocks: nat, x: seq<nat>, y: seq<nat>)
    requires P.Ok() && x <= y && HeaderSpelled(P, blocks, x)
    ensures HeaderSpelled(P, blocks, y)
  {
    hide WordAt, Header;
    forall i | 0 <= i < |Header(P, blocks)|
      ensures HeaderWord(P, blocks, y, i)
    {
      assert HeaderWord(P, blocks, x, i);
      WordKept(x, y, i);
    }
  }

  lemma TableSpelledKept(P: Params, blocks: nat, t: Table, x: seq<nat>, y: seq<nat>, i: nat)
    requires P.Ok() && x <= y && TableSpelled(P, blocks, t, x, i)
    ensures TableSpelled(P, blocks, t, y, i)
  {
    hide WordAt, TableOffset;
    WordKept(x, y, TableOffset(P, blocks, i) + 0);
    forall j | 0 <= j < P.d
      ensures TableWord(P, blocks, t.indices[j], y, i, j + 1)
    {
      assert TableWord(P, blocks, t.indices[j], x, i, j + 1);
      WordKept(x, y, TableOffset(P, blocks, i) + (j + 1));
    }
  }

  lemma TablesSpelledKept(P: Params, blocks: nat, tables: seq<Table>, x: seq<nat>, y: seq<nat>, n: nat)
    requires P.Ok() && x <= y && TablesSpelled(P, blocks, tables, x, n)
    ensures TablesSpelled(P, blocks, tables, y, n)
  {
    hide TableSpelled;
    forall i | 0 <= i < n
      ensures TableSpelled(P, blocks, tables[i], y, i)
    {
      TableSpelledKept(P, blocks, tables[i], x, y, i);
    }
  }

  // ----- write -----

  method WriteHeader(P: Params, blocks: nat) returns (out: seq<nat>)
    requires P.Ok() && blocks < WORD
    ensures |out| == 16 + 8 * |Header(P, blocks)| && Bytes(out) && out[..16] == Magic() && HeaderSpelled(P, blocks, out)
  {
    hide WordAt, LeBytes, Magic;
    out := Magic();
    var h := Header(P, blocks);
    for i := 0 to |h|
      invariant |out| == 16 + 8 * i && Bytes(out) && out[..16] == Magic()
      invariant forall k :: 0 <= k < i ==> HeaderWord(P, blocks, out, k)
    {
      ghost var before := out;
      PutWord(out, h[i], i);
      out := out + LeBytes(h[i]);
      forall k | 0 <= k < i
        ensures HeaderWord(P, blocks, out, k)
      {
        assert HeaderWord(P, blocks, before, k);
        WordKept(before, out, k);
      }
      assert HeaderWord(P, blocks, out, i);
    }
  }

  /** write_poly. */
  method WritePoly(P: Params, blocks: nat, out0: seq<nat>, poly: seq<nat>, k: nat) returns (r: Result<seq<nat>>)
    requires P.Ok() && k < |Lens(P, blocks)| && Bytes(out0) && |out0| == 16 + 8 * PolyOffset(P, blocks, k)
    ensures r.Ok? <==> PolyOk(P, poly, Lens(P, blocks)[k])
    ensures r.Ok? ==> out0 <= r.value && Bytes(r.value) && |r.value| == 16 + 8 * PolyOffset(P, blocks, k + 1)
    ensures r.Ok? ==> PolySpelled(P, blocks, poly, r.value, k, |poly|)
  {
    hide WordAt, LeBytes, Lens, PolyOffset, Residue;
    if |poly| != Lens(P, blocks)[k] {
      return Err(InvalidState);
    }
    var out := out0;
    ghost var off := PolyOffset(P, blocks, k);
    for j := 0 to |poly|
      invariant out0 <= out && Bytes(out) && |out| == 16 + 8 * (off + j)
      invariant PolySpelled(P, blocks, poly, out, k, j)
      invariant forall i :: 0 <= i < j ==> Residue(P, i, poly[i])
    {
      if !Residue(P, j, poly[j]) {
        return Err(InvalidState);
      }
      ghost var before := out;
      ResidueWord(P, j, poly[j]);
      PutWord(out, poly[j], off + j);
      out := out + LeBytes(poly[j]);
      PolySpelledKept(P, blocks, poly, before, out, k, j);
      assert PolyWord(P, blocks, poly[j], out, k, j);
    }
    NextPolyOffset(P, blocks, k);
    r := Result.Ok(out);
  }

  lemma ResidueWord(P: Params, j: nat, n: nat)
    requires P.Ok() && Residue(P, j, n)
    ensures n < WORD
  {
  }

  lemma NextPolyOffset(P: Params, blocks: nat, k: nat)
    requires P.d >= 1 && k < |Lens(P, blocks)|
    ensures PolyOffset(P, blocks, k + 1) == PolyOffset(P, blocks, k) + Lens(P, blocks)[k]
  {
    SumToStep(Lens(P, blocks), k);
  }

  /** One table: the exponent, then the indices. */
  method WriteTable(P: Params, blocks: nat, out0: seq<nat>, t: Table, i: nat) returns (r: Result<seq<nat>>)
    requires P.Ok() && Bytes(out0) && |out0| == 16 + 8 * TableOffset(P, blocks, i) && t.exponent < WORD
    ensures r.Ok? <==> A.Bijection(t.indices, P.d)
    ensures r.Ok? ==> out0 <= r.value && Bytes(r.value) && |r.value| == 16 + 8 * TableOffset(P, blocks, i + 1)
    ensures r.Ok? ==> TableSpelled(P, blocks, t, r.value, i)
  {
    hide WordAt, LeBytes, TableOffset;
    var ok := A.ValidatePermutation(t.indices, P.d);
    if !ok {
      return Err(InvalidState);
    }
    ghost var off := TableOffset(P, blocks, i);
    PutWord(out0, t.exponent, off);
    var out := out0 + LeBytes(t.exponent);
    for j := 0 to |t.indices|
      invariant out0 <= out && Bytes(out) && |out| == 16 + 8 * (off + j + 1)
      invariant TableWord(P, blocks, t.exponent, out, i, 0)
      invariant forall k :: 0 <= k < j ==> TableWord(P, blocks, t.indices[k], out, i, k + 1)
    {
      ghost var before := out;
      assert t.indices[j] < P.d;
      PutWord(out, t.indices[j], off + j + 1);
      out := out + LeBytes(t.indices[j]);
      WordKept(before, out, off + 0);
      forall k | 0 <= k < j
        ensures TableWord(P, blocks, t.indices[k], out, i, k + 1)
      {
        assert TableWord(P, blocks, t.indices[k], before, i, k + 1);
        WordKept(before, out, off + (k + 1));
      }
    }
    NextTableOffset(P, blocks, i);
    r := Result.Ok(out);
  }

  lemma NextTableOffset(P: Params, blocks: nat, i: nat)
    requires P.d >= 1
    ensures TableOffset(P, blocks, i + 1) == TableOffset(P, blocks, i) + P.d + 1
    ensures TableOffset(P, blocks, 0) == TableStart(P, blocks)
  {
    Distribute(i, 1, P.d + 1);
  }

  lemma OffsetsMeet(P: Params, blocks: nat)
    requires P.Ok()
    ensures PolyOffset(P, blocks, 0) == |Header(P, blocks)|
    ensures PolyOffset(P, blocks, |Lens(P, blocks)|) == TableStart(P, blocks) == TableOffset(P, blocks, 0)
    ensures TableCount(P) >= 0 && TableOffset(P, blocks, TableCount(P)) == TotalWords(P, blocks)
  {
    SumToNil(Lens(P, blocks));
  }

  /** write: succeeds exactly on well-shaped, reduced states with permutation tables, and emits the layout. */
  method Write(P: Params, blocks: nat, st: State) returns (r: Result<seq<nat>>)
    requires P.Ok() && blocks < WORD && forall t :: 0 <= t < |st.tables| ==> st.tables[t].exponent < WORD
    ensures r.Ok? <==> Writable(P, blocks, st)
    ensures r.Ok? ==> Spells(P, blocks, st, r.value) && |r.value| == EncodedLen(P, blocks)
    ensures r.Ok? ==>
              && |r.value| >= 16 + 8 * (7 + |P.moduli|)
              && r.value[..16] == [73, 78, 83, 80, 45, 80, 82, 69, 80, 45, 118, 49, 0, 0, 0, 0]
              && WordAt(r.value, 0) == P.d && WordAt(r.value, 1) == P.q && WordAt(r.value, 2) == P.p && WordAt(r.value, 3) == P.ell
              && WordAt(r.value, 4) == P.bits && WordAt(r.value, 5) == |P.moduli| && WordAt(r.value, 6) == blocks
              && forall i :: 0 <= i < |P.moduli| ==> WordAt(r.value, 7 + i) == P.moduli[i]
  {
    hide WordAt, LeBytes, TableOffset, PolyOffset, Lens, Header, TableStart, TotalWords, EncodedLen, PolySpelled, TableSpelled,
         PolyOk, A.Bijection, Magic, HeaderSpelled, TableCount;
    if |st.polys| != |Lens(P, blocks)| || |st.tables| != TableCount(P) {
      return Err(InvalidState);
    }
    OffsetsMeet(P, blocks);
    var out := WriteHeader(P, blocks);
    for k := 0 to |st.polys|
      invariant Bytes(out) && |out| == 16 + 8 * PolyOffset(P, blocks, k) && |out| >= 16 && out[..16] == Magic()
      invariant HeaderSpelled(P, blocks, out) && PolysSpelled(P, blocks, st.polys[..k], out, k)
      invariant forall i :: 0 <= i < k ==> PolyOk(P, st.polys[i], Lens(P, blocks)[i])
    {
      ghost var before := out;
      var w := WritePoly(P, blocks, out, st.polys[k], k);
      if w.Err? {
        return Err(InvalidState);
      }
      out := w.value;
      HeaderKept(P, blocks, before, out);
      PolysSpelledKept(P, blocks, st.polys[..k], before, out, k);
      PolyLength(P, st.polys[k], Lens(P, blocks)[k]);
    }
    assert st.polys[..|st.polys|] == st.polys;
    for i := 0 to |st.tables|
      invariant Bytes(out) && |out| == 16 + 8 * TableOffset(P, blocks, i) && |out| >= 16 && out[..16] == Magic()
      invariant HeaderSpelled(P, blocks, out) && PolysSpelled(P, blocks, st.polys, out, |st.polys|)
      invariant TablesSpelled(P, blocks, st.tables[..i], out, i)
      invariant forall t :: 0 <= t < i ==> A.Bijection(st.tables[t].indices, P.d)
    {
      ghost var before := out;
      var w := WriteTable(P, blocks, out, st.tables[i], i);
      if w.Err? {
        return Err(InvalidState);
      }
      out := w.value;
      HeaderKept(P, blocks, before, out);
      PolysSpelledKept(P, blocks, st.polys, before, out, |st.polys|);
      TablesSpelledKept(P, blocks, st.tables[..i], before, out, i);
    }
    assert st.tables[..|st.tables|] == st.tables;
    EncodedLenIs(P, blocks);
    HeaderLayout(P, blocks, out);
    r := Result.Ok(out);
  }

  lemma PolyLength(P: Params, poly: seq<nat>, len: nat)
    requires P.Ok() && PolyOk(P, poly, len)
    ensures |poly| == len
  {
  }

  // ----- read -----

  /** Word j of polynomial k is there and is a residue. */
  ghost predicate WordReadable(P: Params, blocks: nat, bytes: seq<nat>, k: nat, j: nat)
    requires P.Ok() && k < |Lens(P, blocks)|
  {
    && 16 + 8 * (PolyOffset(P, blocks, k) + j + 1) <= |bytes|
    && Residue(P, j, WordAt(bytes, PolyOffset(P, blocks, k) + j))
  }

  /** read_poly: fails on the first missing or unreduced word. */
  method ReadPoly(P: Params, blocks: nat, bytes: seq<nat>, k: nat) returns (r: Result<seq<nat>>)
    requires P.Ok() && k < |Lens(P, blocks)|
    ensures r.Err? ==> exists j :: 0 <= j < Lens(P, blocks)[k] && !WordReadable(P, blocks, bytes, k, j)
    ensures r.Ok? ==> PolyOk(P, r.value, Lens(P, blocks)[k]) && PolySpelled(P, blocks, r.value, bytes, k, |r.value|)
    ensures r.Ok? ==> 16 + 8 * PolyOffset(P, blocks, k) <= |bytes| ==> 16 + 8 * PolyOffset(P, blocks, k + 1) <= |bytes|
  {
    hide WordAt, Lens, PolyOffset, Residue;
    var poly, off := [], PolyOffset(P, blocks, k);
    for j := 0 to Lens(P, blocks)[k]
      invariant |poly| == j && PolySpelled(P, blocks, poly, bytes, k, j)
      invariant forall i :: 0 <= i < j ==> Residue(P, i, poly[i])
      invariant j > 0 ==> 16 + 8 * (off + j) <= |bytes|
    {
      if 16 + 8 * (off + j + 1) > |bytes| {
        assert !WordReadable(P, blocks, bytes, k, j);
        return Err(InvalidState);
      }
      var n := WordAt(bytes, off + j);
      if !Residue(P, j, n) {
        assert !WordReadable(P, blocks, bytes, k, j);
        return Err(InvalidState);
      }
      ghost var before := poly;
      poly := poly + [n];
      assert PolyWord(P, blocks, n, bytes, k, j);
      forall i | 0 <= i < j
        ensures PolyWord(P, blocks, poly[i], bytes, k, i)
      {
        assert PolyWord(P, blocks, before[i], bytes, k, i);
      }
    }
    NextPolyOffset(P, blocks, k);
    r := Result.Ok(poly);
  }

  /** Table i is all there, with an odd exponent below 2d and a permutation of 0..d. */
  ghost predicate TableReadable(P: Params, blocks: nat, bytes: seq<nat>, i: nat)
    requires P.Ok()
  {
    && 16 + 8 * TableOffset(P, blocks, i + 1) <= |bytes|
    && exists t :: TableSpelled(P, blocks, t, bytes, i) && TableOk(P, t)
  }

  predicate TableOk(P: Params, t: Table) {
    t.exponent < 2 * P.d && t.exponent % 2 == 1 && A.Bijection(t.indices, P.d)
  }

  lemma TableUnique(P: Params, blocks: nat, x: Table, y: Table, bytes: seq<nat>, i: nat)
    requires P.Ok() && TableSpelled(P, blocks, x, bytes, i) && TableSpelled(P, blocks, y, bytes, i)
    ensures x == y
  {
    hide WordAt, TableOffset;
    forall j | 0 <= j < P.d
      ensures x.indices[j] == y.indices[j]
    {
      assert TableWord(P, blocks, x.indices[j], bytes, i, j + 1) && TableWord(P, blocks, y.indices[j], bytes, i, j + 1);
    }
    assert x.indices == y.indices;
  }

  /** One table of the read loop. */
  method ReadTable(P: Params, blocks: nat, bytes: seq<nat>, i: nat) returns (r: Result<Table>)
    requires P.Ok()
    ensures r.Err? ==> !TableReadable(P, blocks, bytes, i)
    ensures r.Ok? ==> TableSpelled(P, blocks, r.value, bytes, i) && TableOk(P, r.value)
    ensures r.Ok? ==> 16 + 8 * TableOffset(P, blocks, i + 1) <= |bytes|
  {
    hide WordAt, TableOffset, A.Bijection;
    NextTableOffset(P, blocks, i);
    var off := TableOffset(P, blocks, i);
    if 16 + 8 * (off + 1) > |bytes| {
      return Err(InvalidState);
    }
    var exponent := WordAt(bytes, off);
    var indices: seq<nat> := [];
    for j := 0 to P.d
      invariant |indices| == j && 16 + 8 * (off + j + 1) <= |bytes|
      invariant forall k :: 0 <= k < j ==> TableWord(P, blocks, indices[k], bytes, i, k + 1)
    {
      if 16 + 8 * (off + j + 2) > |bytes| {
        return Err(InvalidState);
      }
      var n := WordAt(bytes, off + (j + 1));
      ghost var before := indices;
      indices := indices + [n];
      forall k | 0 <= k < j
        ensures TableWord(P, blocks, indices[k], bytes, i, k + 1)
      {
        assert TableWord(P, blocks, before[k], bytes, i, k + 1);
      }
      assert TableWord(P, blocks, n, bytes, i, j + 1);
    }
    var t := Table(exponent, indices);
    assert TableWord(P, blocks, exponent, bytes, i, 0);
    assert TableSpelled(P, blocks, t, bytes, i);
    var permutation := A.ValidatePermutation(indices, P.d);
    if exponent >= 2 * P.d || exponent % 2 == 0 || !permutation {
      forall u | TableSpelled(P, blocks, u, bytes, i)
        ensures !TableOk(P, u)
      {
        TableUnique(P, blocks, t, u, bytes, i);
      }
      return Err(InvalidState);
    }
    r := Result.Ok(t);
  }

  /** A spelled, readable state makes every word and table readable. */
  lemma SpelledReadable(P: Params, blocks: nat, st: State, bytes: seq<nat>)
    requires P.Ok() && Spells(P, blocks, st, bytes) && Readable(P, blocks, st)
    ensures forall k, j :: 0 <= k < |Lens(P, blocks)| && 0 <= j < Lens(P, blocks)[k] ==> WordReadable(P, blocks, bytes, k, j)
    ensures forall i :: 0 <= i < TableCount(P) ==> TableReadable(P, blocks, bytes, i)
  {
    hide WordAt, Lens, PolyOffset, TableOffset, A.Bijection, Residue, TotalWords, Header, Magic;
    forall k, j | 0 <= k < |Lens(P, blocks)| && 0 <= j < Lens(P, blocks)[k]
      ensures WordReadable(P, blocks, bytes, k, j)
    {
      assert PolySpelled(P, blocks, st.polys[k], bytes, k, |st.polys[k]|);
      assert PolyWord(P, blocks, st.polys[k][j], bytes, k, j);
      assert PolyOk(P, st.polys[k], Lens(P, blocks)[k]);
      assert Residue(P, j, st.polys[k][j]);
    }
    forall i | 0 <= i < TableCount(P)
      ensures TableReadable(P, blocks, bytes, i)
    {
      assert TableSpelled(P, blocks, st.tables[i], bytes, i) && TableOk(P, st.tables[i]);
      TableInside(P, blocks, i, 0);
    }
  }

  lemma SpellsUnique(P: Params, blocks: nat, x: State, y: State, bytes: seq<nat>)
    requires P.Ok() && Spells(P, blocks, x, bytes) && Spells(P, blocks, y, bytes)
    ensures x == y
  {
    hide WordAt, Lens, PolyOffset, TableOffset, TotalWords, Header, Magic;
    forall k | 0 <= k < |Lens(P, blocks)|
      ensures x.polys[k] == y.polys[k]
    {
      forall j | 0 <= j < Lens(P, blocks)[k]
        ensures x.polys[k][j] == y.polys[k][j]
      {
        assert PolySpelled(P, blocks, x.polys[k], bytes, k, |x.polys[k]|) && PolySpelled(P, blocks, y.polys[k], bytes, k, |y.polys[k]|);
        assert PolyWord(P, blocks, x.polys[k][j], bytes, k, j) && PolyWord(P, blocks, y.polys[k][j], bytes, k, j);
      }
      assert x.polys[k] == y.polys[k];
    }
    assert x.polys == y.polys;
    forall i | 0 <= i < TableCount(P)
      ensures x.tables[i] == y.tables[i]
    {
      assert TableSpelled(P, blocks, x.tables[i], bytes, i) && TableSpelled(P, blocks, y.tables[i], bytes, i);
      TableUnique(P, blocks, x.tables[i], y.tables[i], bytes, i);
    }
    assert x.tables == y.tables;
  }

  /** The header check of read. */
  method ReadHeader(P: Params, blocks: nat, bytes: seq<nat>) returns (ok: bool)
    requires P.Ok() && Bytes(bytes)
    ensures ok <==> |bytes| >= 16 + 8 * |Header(P, blocks)| && bytes[..16] == Magic() && HeaderSpelled(P, blocks, bytes)
  {
    hide WordAt, Magic, Header;
    if |bytes| < 16 || bytes[..16] != Magic() {
      return false;
    }
    var h := Header(P, blocks);
    for i := 0 to |h|
      invariant 16 + 8 * i <= |bytes| && forall k :: 0 <= k < i ==> HeaderWord(P, blocks, bytes, k)
    {
      if 16 + 8 * (i + 1) > |bytes| {
        return false;
      }
      if WordAt(bytes, i) != h[i] {
        assert !HeaderWord(P, blocks, bytes, i);
        return false;
      }
      assert HeaderWord(P, blocks, bytes, i);
    }
    return true;
  }

  lemma SpellsParts(P: Params, blocks: nat, st: State, bytes: seq<nat>)
    requires P.Ok() && Spells(P, blocks, st, bytes)
    ensures |bytes| == 16 + 8 * TotalWords(P, blocks) >= 16 + 8 * |Header(P, blocks)|
    ensures bytes[..16] == Magic() && HeaderSpelled(P, blocks, bytes)
  {
    hide Header, Magic, WordAt, Lens;
    ProductNonNegative(TableCount(P), P.d + 1);
  }

  /** read: accepts exactly the byte strings that spell a readable state, and returns that state.
      Truncated and extended strings spell nothing. */
  method Read(P: Params, blocks: nat, bytes: seq<nat>) returns (r: Result<State>)
    requires P.Ok() && Bytes(bytes) && blocks < WORD
    ensures r.Ok? ==> Spells(P, blocks, r.value, bytes) && Readable(P, blocks, r.value)
    ensures r.Ok? ==>
              && |bytes| >= 16 + 8 * (7 + |P.moduli|)
              && bytes[..16] == [73, 78, 83, 80, 45, 80, 82, 69, 80, 45, 118, 49, 0, 0, 0, 0]
              && WordAt(bytes, 0) == P.d && WordAt(bytes, 1) == P.q && WordAt(bytes, 2) == P.p && WordAt(bytes, 3) == P.ell
              && WordAt(bytes, 4) == P.bits && WordAt(bytes, 5) == |P.moduli| && WordAt(bytes, 6) == blocks
              && forall i :: 0 <= i < |P.moduli| ==> WordAt(bytes, 7 + i) == P.moduli[i]
    ensures forall st :: Spells(P, blocks, st, bytes) && Readable(P, blocks, st) ==> r == Result.Ok(st)
  {
    hide WordAt, TableOffset, PolyOffset, Lens, Header, TableStart, TotalWords, PolySpelled, TableSpelled, PolyOk, Magic,
         HeaderSpelled, TableCount, Spells, Readable, WordReadable, TableReadable, TableOk;
    OffsetsMeet(P, blocks);
    forall st | Spells(P, blocks, st, bytes) && Readable(P, blocks, st)
      ensures |bytes| == 16 + 8 * TotalWords(P, blocks) >= 16 + 8 * |Header(P, blocks)|
      ensures bytes[..16] == Magic() && HeaderSpelled(P, blocks, bytes)
      ensures forall k, j :: 0 <= k < |Lens(P, blocks)| && 0 <= j < Lens(P, blocks)[k] ==> WordReadable(P, blocks, bytes, k, j)
      ensures forall i :: 0 <= i < TableCount(P) ==> TableReadable(P, blocks, bytes, i)
    {
      SpellsParts(P, blocks, st, bytes);
      SpelledReadable(P, blocks, st, bytes);
    }
    var header := ReadHeader(P, blocks, bytes);
    if !header {
      return Err(InvalidState);
    }
    HeaderLayout(P, blocks, bytes);
    var polys: seq<seq<nat>> := [];
    for k := 0 to |Lens(P, blocks)|
      invariant |polys| == k && 16 + 8 * PolyOffset(P, blocks, k) <= |bytes|
      invariant forall i :: 0 <= i < k ==> PolyOk(P, polys[i], Lens(P, blocks)[i]) && PolySpelled(P, blocks, polys[i], bytes, i, |polys[i]|)
    {
      var poly := ReadPoly(P, blocks, bytes, k);
      if poly.Err? {
        return Err(InvalidState);
      }
      polys := polys + [poly.value];
    }
    var tables: seq<Table> := [];
    for i := 0 to TableCount(P)
      invariant |tables| == i && 16 + 8 * TableOffset(P, blocks, i) <= |bytes|
      invariant forall t :: 0 <= t < i ==> TableSpelled(P, blocks, tables[t], bytes, t) && TableOk(P, tables[t])
    {
      var t := ReadTable(P, blocks, bytes, i);
      if t.Err? {
        return Err(InvalidState);
      }
      tables := tables + [t.value];
    }
    if |bytes| != 16 + 8 * TotalWords(P, blocks) {
      return Err(InvalidState);
    }
    var st := State(polys, tables);
    SpellsFrom(P, blocks, st, bytes);
    forall other | Spells(P, blocks, other, bytes)
      ensures other == st
    {
      SpellsUnique(P, blocks, st, other, bytes);
    }
    r := Result.Ok(st);
  }

  lemma SpellsFrom(P: Params, blocks: nat, st: State, bytes: seq<nat>)
    requires P.Ok() && |bytes| == 16 + 8 * TotalWords(P, blocks) && Bytes(bytes) && bytes[..16] == Magic() && blocks < WORD
    requires HeaderSpelled(P, blocks, bytes) && |st.polys| == |Lens(P, blocks)| && |st.tables| == TableCount(P)
    requires forall i :: 0 <= i < |st.polys| ==> PolyOk(P, st.polys[i], Lens(P, blocks)[i]) && PolySpelled(P, blocks, st.polys[i], bytes, i, |st.polys[i]|)
    requires forall t :: 0 <= t < |st.tables| ==> TableSpelled(P, blocks, st.tables[t], bytes, t) && TableOk(P, st.tables[t])
    ensures Spells(P, blocks, st, bytes) && Readable(P, blocks, st)
  {
    hide WordAt, TableOffset, PolyOffset, Lens, Header, TotalWords, PolySpelled, TableSpelled, Magic, HeaderSpelled, Residue;
  }

  // ----- round trips -----

  /** A section of the words. */
  lemma {:induction false} FindSection(ls: seq<nat>, x: nat, n: nat) returns (k: nat, j: nat)
    requires n <= |ls| && x < SumTo(ls, n)
    ensures k < n && j < ls[k] && x == SumTo(ls, k) + j
    decreases n
  {
    if x < SumTo(ls, n - 1) {
      k, j := FindSection(ls, x, n - 1);
    } else {
      k, j := n - 1, x - SumTo(ls, n - 1);
    }
  }

  /** A state has one spelling, so whatever read accepts is written back byte for byte. */
  lemma SpellingUnique(P: Params, blocks: nat, st: State, x: seq<nat>, y: seq<nat>)
    requires P.Ok() && Spells(P, blocks, st, x) && Spells(P, blocks, st, y)
    ensures x == y
  {
    hide WordAt, Header, Magic, Lens, SumTo, TableStart;
    forall i: nat | i < TotalWords(P, blocks)
      ensures WordAt(x, i) == WordAt(y, i)
    {
      SameWord(P, blocks, st, x, y, i);
    }
    SameWords(x, y, TotalWords(P, blocks));
  }

  lemma SameWords(x: seq<nat>, y: seq<nat>, n: nat)
    requires |x| == |y| == 16 + 8 * n && Bytes(x) && Bytes(y) && x[..16] == y[..16]
    requires forall i: nat :: i < n ==> WordAt(x, i) == WordAt(y, i)
    ensures x == y
  {
    hide S.LeWord;
    forall b | 0 <= b < |x|
      ensures x[b] == y[b]
    {
      if b < 16 {
        assert x[b] == x[..16][b] && y[b] == y[..16][b];
      } else {
        var i := (b - 16) / 8;
        assert WordAt(x, i) == WordAt(y, i);
        var u, v := x[16 + 8 * i..16 + 8 * (i + 1)], y[16 + 8 * i..16 + 8 * (i + 1)];
        LeInjective(u, v);
        assert x[b] == u[b - 16 - 8 * i] && y[b] == v[b - 16 - 8 * i];
      }
    }
  }

  lemma SameWord(P: Params, blocks: nat, st: State, x: seq<nat>, y: seq<nat>, i: nat)
    requires P.Ok() && Spells(P, blocks, st, x) && Spells(P, blocks, st, y) && i < TotalWords(P, blocks)
    requires 16 + 8 * (i + 1) <= |x| == |y|
    ensures WordAt(x, i) == WordAt(y, i)
  {
    hide WordAt, Header, Magic, Lens, SumTo;
    var h, ls := |Header(P, blocks)|, Lens(P, blocks);
    if i < h {
      assert HeaderWord(P, blocks, x, i) && HeaderWord(P, blocks, y, i);
    } else if i < TableStart(P, blocks) {
      var k, j := FindSection(ls, i - h, |ls|);
      assert PolySpelled(P, blocks, st.polys[k], x, k, |st.polys[k]|) && PolySpelled(P, blocks, st.polys[k], y, k, |st.polys[k]|);
      assert PolyWord(P, blocks, st.polys[k][j], x, k, j) && PolyWord(P, blocks, st.polys[k][j], y, k, j);
    } else {
      var t, j := TableSection(P, blocks, i);
      assert TableSpelled(P, blocks, st.tables[t], x, t) && TableSpelled(P, blocks, st.tables[t], y, t);
      if j > 0 {
        assert TableWord(P, blocks, st.tables[t].indices[j - 1], x, t, (j - 1) + 1);
        assert TableWord(P, blocks, st.tables[t].indices[j - 1], y, t, (j - 1) + 1);
      }
    }
  }

  lemma TableSection(P: Params, blocks: nat, i: nat) returns (t: nat, j: nat)
    requires P.Ok() && TableStart(P, blocks) <= i < TotalWords(P, blocks)
    ensures t < TableCount(P) && j <= P.d && i == TableOffset(P, blocks, t) + j
  {
    hide TableStart;
    var x, c := i - TableStart(P, blocks), P.d + 1;
    DivMod(x, c);
    if x / c >= TableCount(P) {
      ProductOrder(TableCount(P), x / c, c);
    } else if x / c < 0 {
      MulStrict(x / c, c);
    }
    t, j := x / c, x % c;
  }

  /** Writing then reading gives the state back exactly when its table exponents are odd and below 2d:
      write does not check them, read does. */
  method WriteRead(P: Params, blocks: nat, st: State) returns (r: Result<State>)
    requires P.Ok() && blocks < WORD && Writable(P, blocks, st)
    ensures r == Result.Ok(st) <==> forall t :: 0 <= t < |st.tables| ==> st.tables[t].exponent < 2 * P.d && st.tables[t].exponent % 2 == 1
    ensures r != Result.Ok(st) ==> r.Err?
  {
    hide Spells, PolyOk, Lens, A.Bijection, TableCount;
    var w := Write(P, blocks, st);
    SpelledBytes(P, blocks, st, w.value);
    r := Read(P, blocks, w.value);
    if r.Ok? {
      SpellsUnique(P, blocks, st, r.value, w.value);
    }
  }

  /** Any stream read accepts is written back byte for byte. */
  method ReadWrite(P: Params, blocks: nat, bytes: seq<nat>) returns (r: Result<seq<nat>>)
    requires P.Ok() && Bytes(bytes) && blocks < WORD
    ensures r.Ok? <==> exists st :: Spells(P, blocks, st, bytes) && Readable(P, blocks, st)
    ensures r.Ok? ==> r.value == bytes && |bytes| == EncodedLen(P, blocks)
  {
    hide Spells, PolyOk, Lens, A.Bijection, TableCount;
    var st := Read(P, blocks, bytes);
    if st.Err? {
      return Err(InvalidState);
    }
    r := Write(P, blocks, st.value);
    SpellingUnique(P, blocks, st.value, bytes, r.value);
  }

  lemma SpelledBytes(P: Params, blocks: nat, st: State, bytes: seq<nat>)
    requires P.Ok() && Spells(P, blocks, st, bytes)
    ensures Bytes(bytes)
  {
  }

  // ----- the states the crate builds -----

  /** An automorphism table as the file stores it. */
  function Stored(t: A.Table): (r: Table)
    requires t.exponent >= 0
    ensures r.exponent == t.exponent && r.indices == t.indices
  {
    Table(t.exponent, t.indices)
  }

  function StoredAll(ts: seq<A.Table>): (r: seq<Table>)
    requires forall i :: 0 <= i < |ts| ==> ts[i].exponent >= 0
    ensures |r| == |ts| && forall i :: 0 <= i < |ts| ==> r[i] == Stored(ts[i])
  {
    seq(|ts|, i requires 0 <= i < |ts| => Stored(ts[i]))
  }

  /** Exponents that realise an automorphism on slots are odd and below 2d. */
  lemma RealisedExponent(N: Ntt.Slots, t: A.Table)
    requires N.Ok() && A.Realises(N, t)
    ensures 0 < t.exponent < 2 * N.d && t.exponent % 2 == 1
  {
    A.OddExponent(t.exponent, N.d);
  }

  lemma TableFits(N: Ntt.Slots, P: Params, t: A.Table)
    requires N.Ok() && P.Ok() && N.d == P.d && A.Realises(N, t) && A.Bijection(t.indices, N.d)
    ensures t.exponent >= 0 && TableOk(P, Stored(t))
  {
    RealisedExponent(N, t);
    hide A.Realises, A.Bijection;
  }

  lemma TablesOddWritable(P: Params, blocks: nat, st: State)
    requires P.Ok() && blocks < WORD && |st.polys| == |Lens(P, blocks)| && |st.tables| == TableCount(P)
    requires forall k :: 0 <= k < |st.polys| ==> PolyOk(P, st.polys[k], Lens(P, blocks)[k])
    requires forall t :: 0 <= t < |st.tables| ==> TableOk(P, st.tables[t])
    ensures Writable(P, blocks, st) && ExponentsOdd(P, st)
    ensures forall t :: 0 <= t < |st.tables| ==> st.tables[t].exponent < 2 * P.d && st.tables[t].exponent % 2 == 1
  {
    hide PolyOk, Lens, A.Bijection, TableCount;
  }

  /** Any reduced blocks with the tables tau_g_power_tables builds survive the file: write accepts them and
      read returns the same state. */
  method BuiltStateTrip(N: Ntt.Slots, g: A.Table, h: A.Table, P: Params, blocks: nat, polys: seq<seq<nat>>)
    returns (st: State, r: Result<State>)
    requires N.Ok() && P.Ok() && N.d == P.d && blocks < WORD && A.Realises(N, g) && A.Realises(N, h)
    requires N.d > 0 && g.exponent == 5 % (2 * N.d) && h.exponent == 2 * N.d - 1
    requires |polys| == |Lens(P, blocks)| && forall k :: 0 <= k < |polys| ==> PolyOk(P, polys[k], Lens(P, blocks)[k])
    ensures st.polys == polys && |st.tables| == 2 * (P.d / 2 - 1)
    ensures forall i :: 0 <= i < P.d / 2 - 1 ==>
              st.tables[i].exponent == LeftExp(P.d, i) && st.tables[P.d / 2 - 1 + i].exponent == RightExp(P.d, i)
    ensures r == Result.Ok(st)
  {
    hide PolyOk, Lens, A.Realises, A.Bijection, TableOk, Writable, ExponentsOdd;
    var n := P.d / 2 - 1;
    var left, right := A.TauGPowerTables(N, g, h, n);
    forall i | 0 <= i < n
      ensures left[i].exponent >= 0 && right[i].exponent >= 0
      ensures TableOk(P, Stored(left[i])) && TableOk(P, Stored(right[i]))
    {
      TableFits(N, P, left[i]);
      TableFits(N, P, right[i]);
    }
    var tables := StoredAll(left) + StoredAll(right);
    assert forall i :: 0 <= i < n ==> tables[i] == Stored(left[i]) && tables[n + i] == Stored(right[i]);
    forall t | 0 <= t < |tables|
      ensures TableOk(P, tables[t])
    {
      assert tables[t] == if t < n then Stored(left[t]) else Stored(right[t - n]);
    }
    st := State(polys, tables);
    TablesOddWritable(P, blocks, st);
    r := WriteRead(P, blocks, st);
  }

  /** A gap in write's own check: a state no table constructor produces, with exponent 0, is written and then
      refused by read. */
  lemma EvenExponentWritable(P: Params, blocks: nat, st: State)
    requires P.Ok() && P.d >= 4 && Writable(P, blocks, st)
    ensures var bad := State(st.polys, st.tables[0 := Table(0, st.tables[0].indices)]);
            Writable(P, blocks, bad) && !ExponentsOdd(P, bad)
  {
    hide PolyOk, Lens, A.Bijection;
    assert TableCount(P) >= 2;
    var bad := State(st.polys, st.tables[0 := Table(0, st.tables[0].indices)]);
    assert bad.tables[0].exponent == 0;
  }
}
