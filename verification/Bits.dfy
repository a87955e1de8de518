/** Bit packing (ipir-native-client/src/bits.rs) and the word codec over it (ipir-native-client/src/wire.rs). */
module Bits {
  import opened Wrappers
  import opened Modular
  import opened Galois

  // ----- bits of naturals -----

  predicate BitOf(x: nat, k: nat) {
    if k == 0 then x % 2 == 1 else BitOf(x / 2, k - 1)
  }

  /** x >> w. */
  function Shr(x: nat, w: nat): (r: nat) {
    if w == 0 then x else Shr(x / 2, w - 1)
  }

  /** x << w. */
  function Shl(x: nat, w: nat): (r: nat) {
    if w == 0 then x else 2 * Shl(x, w - 1)
  }

  /** x & (2^w - 1). */
  function Low(x: nat, w: nat): (r: nat) {
    if w == 0 then 0 else x % 2 + 2 * Low(x / 2, w - 1)
  }

  /** x | y. */
  function Or(x: nat, y: nat): (r: nat) {
    if x == 0 && y == 0 then 0
    else (if x % 2 == 1 || y % 2 == 1 then 1 else 0) + 2 * Or(x / 2, y / 2)
  }

  lemma {:induction false} ZeroBits(k: nat)
    ensures !BitOf(0, k)
  {
    if k > 0 {
      ZeroBits(k - 1);
    }
  }

  lemma {:induction false} ShrBits(x: nat, w: nat, k: nat)
    ensures BitOf(Shr(x, w), k) == BitOf(x, k + w)
    decreases w
  {
    if w > 0 {
      ShrBits(x / 2, w - 1, k);
    }
  }

  lemma {:induction false} ShlBits(x: nat, w: nat, k: nat)
    ensures BitOf(Shl(x, w), k) == (k >= w && BitOf(x, k - w))
    decreases w
  {
    if w > 0 {
      if k == 0 {
        assert (2 * Shl(x, w - 1)) % 2 == 0;
      } else {
        ShlBits(x, w - 1, k - 1);
        assert (2 * Shl(x, w - 1)) / 2 == Shl(x, w - 1);
      }
    }
  }

  lemma {:induction false} LowBits(x: nat, w: nat, k: nat)
    ensures BitOf(Low(x, w), k) == (k < w && BitOf(x, k))
    decreases w
  {
    if w == 0 {
      ZeroBits(k);
    } else {
      var l := Low(x / 2, w - 1);
      assert (x % 2 + 2 * l) % 2 == x % 2 && (x % 2 + 2 * l) / 2 == l;
      if k > 0 {
        LowBits(x / 2, w - 1, k - 1);
      }
    }
  }

  lemma {:induction false} OrBits(x: nat, y: nat, k: nat)
    ensures BitOf(Or(x, y), k) == (BitOf(x, k) || BitOf(y, k))
    decreases k
  {
    if x == 0 && y == 0 {
      ZeroBits(k);
    } else {
      var b, o := if x % 2 == 1 || y % 2 == 1 then 1 else 0, Or(x / 2, y / 2);
      assert (b + 2 * o) % 2 == b && (b + 2 * o) / 2 == o;
      if k > 0 {
        OrBits(x / 2, y / 2, k - 1);
      }
    }
  }

  /** Below 2^n there are no higher bits. */
  lemma {:induction false} HighBitsZero(x: nat, n: nat, k: nat)
    requires x < Pow(2, n) && k >= n
    ensures !BitOf(x, k)
    decreases n
  {
    if n == 0 {
      ZeroBits(k);
    } else {
      HighBitsZero(x / 2, n - 1, k - 1);
    }
  }

  /** Numbers below 2^n are equal when their bits are. */
  lemma {:induction false} BitsDetermine(x: nat, y: nat, n: nat)
    requires x < Pow(2, n) && y < Pow(2, n) && forall k :: 0 <= k < n ==> BitOf(x, k) == BitOf(y, k)
    ensures x == y
    decreases n
  {
    if n > 0 {
      assert BitOf(x, 0) == BitOf(y, 0);
      forall k | 0 <= k < n - 1
        ensures BitOf(x / 2, k) == BitOf(y / 2, k)
      {
        assert BitOf(x, k + 1) == BitOf(y, k + 1);
      }
      BitsDetermine(x / 2, y / 2, n - 1);
    }
  }

  lemma {:induction false} LowBound(x: nat, w: nat)
    ensures Low(x, w) < Pow(2, w)
    decreases w
  {
    if w > 0 {
      LowBound(x / 2, w - 1);
    }
  }

  lemma {:induction false} ShlBound(x: nat, w: nat, n: nat)
    requires x < Pow(2, n)
    ensures Shl(x, w) < Pow(2, n + w)
    decreases w
  {
    if w > 0 {
      ShlBound(x, w - 1, n);
    }
  }

  lemma {:induction false} OrBound(x: nat, y: nat, n: nat)
    requires x < Pow(2, n) && y < Pow(2, n)
    ensures Or(x, y) < Pow(2, n)
    decreases n
  {
    if x == 0 && y == 0 {
      PowPositive(2, n);
    } else if n > 0 {
      OrBound(x / 2, y / 2, n - 1);
    }
  }

  /** Shifts and masks are the arithmetic ones. */
  lemma {:induction false} ShiftsAreArithmetic(x: nat, w: nat)
    ensures Pow(2, w) > 0 && Shr(x, w) == x / Pow(2, w) && Low(x, w) == x % Pow(2, w) && Shl(x, w) == x * Pow(2, w)
    decreases w
  {
    if w == 0 {
      RemainderUnique(x, x, 0, 1);
    } else {
      var P, y := Pow(2, w - 1), x / 2;
      ShiftsAreArithmetic(y, w - 1);
      ShiftsAreArithmetic(x, w - 1);
      DivMod(y, P);
      DivMod(x, 2);
      RegroupHalves(x, y, y / P, y % P, P);
      RemainderUnique(x, y / P, x % 2 + 2 * (y % P), 2 * P);
    }
  }

  lemma RegroupHalves(x: int, y: int, u: int, v: int, P: int)
    requires x == y * 2 + x % 2 && y == u * P + v && 0 <= v < P
    ensures x == u * (2 * P) + (x % 2 + 2 * v) && 0 <= x % 2 + 2 * v < 2 * P
    ensures x * (2 * P) == 2 * (x * P)
  {
    assert u * (2 * P) == 2 * (u * P);
  }

  // ----- bits of byte strings -----

  predicate Bytes(data: seq<nat>) {
    forall j :: 0 <= j < |data| ==> data[j] < 256
  }

  /** Bit `pos` of the string, little-endian within bytes. */
  predicate BitAt(data: seq<nat>, pos: nat)
    requires pos < 8 * |data|
  {
    BitOf(data[pos / 8], pos % 8)
  }

  /** Byte strings of one length are equal when their bits are. */
  lemma SameBits(x: seq<nat>, y: seq<nat>)
    requires |x| == |y| && Bytes(x) && Bytes(y) && forall pos :: 0 <= pos < 8 * |x| ==> BitAt(x, pos) == BitAt(y, pos)
    ensures x == y
  {
    forall j | 0 <= j < |x|
      ensures x[j] == y[j]
    {
      forall k | 0 <= k < 8
        ensures BitOf(x[j], k) == BitOf(y[j], k)
      {
        assert BitAt(x, 8 * j + k) == BitAt(y, 8 * j + k);
      }
      BytePower();
      BitsDetermine(x[j], y[j], 8);
    }
  }

  // ----- write_bits -----

  /** What ORing the low n bits of val at offset offs does to bit pos. */
  predicate WrittenBit(before: bool, val: nat, offs: nat, n: nat, pos: nat) {
    before || (offs <= pos < offs + n && BitOf(val, pos - offs))
  }

  ghost predicate Written(before: seq<nat>, after: seq<nat>, val: nat, offs: nat, n: nat) {
    && |after| == |before| && Bytes(after)
    && forall pos :: 0 <= pos < 8 * |before| ==> BitAt(after, pos) == WrittenBit(BitAt(before, pos), val, offs, n, pos)
  }

  lemma WrittenStart(data: seq<nat>, val: nat, offs: nat)
    requires Bytes(data)
    ensures Written(data, data, val, offs, 0)
  {
  }

  /** ORing w bits of the shifted value into byte j at bit b advances by w bits. */
  lemma WrittenStep(before: seq<nat>, now: seq<nat>, val: nat, offs: nat, done: nat, j: nat, b: nat, w: nat)
    requires Written(before, now, val, offs, done) && j < |before| && b < 8 && w <= 8 - b && offs + done == 8 * j + b
    ensures |now| == |before|
    ensures Written(before, now[j := Or(now[j], Shl(Low(Shr(val, done), w), b))], val, offs, done + w)
  {
    var piece := Shl(Low(Shr(val, done), w), b);
    var after := now[j := Or(now[j], piece)];
    OrByteBound(now[j], val, done, w, b);
    forall pos | 0 <= pos < 8 * |before|
      ensures BitAt(after, pos) == WrittenBit(BitAt(before, pos), val, offs, done + w, pos)
    {
      assert BitAt(now, pos) == WrittenBit(BitAt(before, pos), val, offs, done, pos);
      if pos / 8 == j {
        PieceBits(now[j], val, done, w, b, pos % 8);
      }
    }
  }

  lemma OrByteBound(byte: nat, val: nat, done: nat, w: nat, b: nat)
    requires byte < 256 && b < 8 && w <= 8 - b
    ensures Or(byte, Shl(Low(Shr(val, done), w), b)) < 256
  {
    hide *;
    BytePower();
    LowBound(Shr(val, done), w);
    ShlBound(Low(Shr(val, done), w), b, w);
    PowMonotone(w + b, 8);
    OrBound(byte, Shl(Low(Shr(val, done), w), b), 8);
  }

  lemma PieceBits(byte: nat, val: nat, done: nat, w: nat, b: nat, k: nat)
    requires b < 8 && w <= 8 - b && k < 8
    ensures BitOf(Or(byte, Shl(Low(Shr(val, done), w), b)), k)
            == (BitOf(byte, k) || (b <= k < b + w && BitOf(val, done + (k - b))))
  {
    hide *;
    OrBits(byte, Shl(Low(Shr(val, done), w), b), k);
    ShlBits(Low(Shr(val, done), w), b, k);
    if k >= b {
      LowBits(Shr(val, done), w, k - b);
      ShrBits(val, done, k - b);
    }
  }

  lemma ShrAdd(x: nat, m: nat, w: nat)
    ensures Shr(Shr(x, m), w) == Shr(x, m + w)
    decreases m
  {
  }

  /** write_bits: ORs the low numBits bits of val in at bitOffs, dropping what falls past the end. */
  method WriteBits(data: array<nat>, val0: nat, bitOffs: nat, numBits0: nat)
    requires Bytes(data[..])
    modifies data
    ensures Written(old(data[..]), data[..], val0, bitOffs, numBits0)
  {
    hide *;
    ghost var before := data[..];
    ghost var done: nat := 0;
    var val: nat, numBits: nat := val0, numBits0;
    var byteIndex: nat, bitIndex: nat := bitOffs / 8, bitOffs % 8;
    WrittenStart(before, val0, bitOffs);
    ShrNone(val0);
    while numBits > 0 && byteIndex < data.Length
      invariant bitIndex < 8 && numBits + done == numBits0 && bitOffs + done == 8 * byteIndex + bitIndex
      invariant val == Shr(val0, done) && Written(before, data[..], val0, bitOffs, done)
      decreases numBits
    {
      var w := if 8 - bitIndex < numBits then 8 - bitIndex else numBits;
      ghost var now := data[..];
      WrittenStep(before, now, val0, bitOffs, done, byteIndex, bitIndex, w);
      data[byteIndex] := Or(data[byteIndex], Shl(Low(val, w), bitIndex));
      assert data[..] == now[byteIndex := data[byteIndex]];
      numBits := numBits - w;
      bitIndex := bitIndex + w;
      if bitIndex == 8 {
        byteIndex := byteIndex + 1;
        bitIndex := 0;
      }
      ShrAdd(val0, done, w);
      val := Shr(val, w);
      done := done + w;
    }
    WrittenPast(before, data[..], val0, bitOffs, done, numBits0);
  }

  lemma ShrNone(x: nat)
    ensures Shr(x, 0) == x
  {
  }

  /** Bits past the end of the buffer are dropped. */
  lemma WrittenPast(before: seq<nat>, after: seq<nat>, val: nat, offs: nat, done: nat, n: nat)
    requires Written(before, after, val, offs, done) && done <= n && (done < n ==> offs + done >= 8 * |before|)
    ensures Written(before, after, val, offs, n)
  {
  }

  // ----- read_bits -----

  /** The value holds exactly the bits offs .. offs + n of the string; missing bits read as zero. */
  ghost predicate ReadBits(data: seq<nat>, offs: nat, n: nat, value: nat) {
    && value < Pow(2, n)
    && forall t :: 0 <= t < n ==> BitOf(value, t) == (offs + t < 8 * |data| && BitAt(data, offs + t))
  }

  lemma ReadStart(data: seq<nat>, offs: nat)
    ensures ReadBits(data, offs, 0, 0)
  {
  }

  lemma ReadStep(data: seq<nat>, offs: nat, taken: nat, value: nat, j: nat, b: nat, w: nat)
    requires Bytes(data) && ReadBits(data, offs, taken, value) && j < |data| && b < 8 && w <= 8 - b && offs + taken == 8 * j + b
    ensures ReadBits(data, offs, taken + w, Or(value, Shl(Low(Shr(data[j], b), w), taken)))
  {
    var piece := Shl(Low(Shr(data[j], b), w), taken);
    var r := Or(value, piece);
    ReadBound(value, data[j], b, w, taken);
    forall t | 0 <= t < taken + w
      ensures BitOf(r, t) == (offs + t < 8 * |data| && BitAt(data, offs + t))
    {
      ReadPiece(value, data[j], b, w, taken, t);
      if t >= taken {
        HighBitsZero(value, taken, t);
        assert (offs + t) / 8 == j && (offs + t) % 8 == b + (t - taken);
      }
    }
  }

  lemma ReadBound(value: nat, byte: nat, b: nat, w: nat, taken: nat)
    requires value < Pow(2, taken)
    ensures Or(value, Shl(Low(Shr(byte, b), w), taken)) < Pow(2, taken + w)
  {
    hide *;
    LowBound(Shr(byte, b), w);
    ShlBound(Low(Shr(byte, b), w), taken, w);
    PowMonotone(taken, taken + w);
    OrBound(value, Shl(Low(Shr(byte, b), w), taken), taken + w);
  }

  lemma ReadPiece(value: nat, byte: nat, b: nat, w: nat, taken: nat, t: nat)
    ensures BitOf(Or(value, Shl(Low(Shr(byte, b), w), taken)), t)
            == (BitOf(value, t) || (taken <= t < taken + w && BitOf(byte, b + (t - taken))))
  {
    hide *;
    OrBits(value, Shl(Low(Shr(byte, b), w), taken), t);
    ShlBits(Low(Shr(byte, b), w), taken, t);
    if t >= taken {
      LowBits(Shr(byte, b), w, t - taken);
      ShrBits(byte, b, t - taken);
    }
  }

  /** Nothing beyond the end of the data. */
  lemma ReadPast(data: seq<nat>, offs: nat, taken: nat, n: nat, value: nat)
    requires ReadBits(data, offs, taken, value) && taken <= n && (taken < n ==> offs + taken >= 8 * |data|)
    ensures ReadBits(data, offs, n, value)
  {
    PowMonotone(taken, n);
    forall t | taken <= t < n
      ensures !BitOf(value, t)
    {
      HighBitsZero(value, taken, t);
    }
  }

  lemma FullByte(byte: nat)
    requires byte < 256
    ensures Low(Shr(byte, 0), 8) == Shr(byte, 0)
  {
    BytePower();
    ShiftsAreArithmetic(byte, 8);
    ModSmall(byte, 256);
  }

  /** read_bits: gathers byte by byte until numBits are read or the data ends. */
  method ReadWord(data: seq<nat>, bitOffs: nat, numBits: nat) returns (result: nat)
    requires Bytes(data) && 1 <= numBits <= 64
    ensures ReadBits(data, bitOffs, numBits, result)
  {
    hide *;
    var bitPos: nat, remaining: nat, j: nat := bitOffs % 8, numBits, bitOffs / 8;
    result := 0;
    ReadStart(data, bitOffs);
    while j < |data|
      invariant bitPos < 8 && 0 < remaining <= numBits && bitOffs + (numBits - remaining) == 8 * j + bitPos
      invariant ReadBits(data, bitOffs, numBits - remaining, result)
      decreases |data| - j
    {
      var take := if 8 - bitPos < remaining then 8 - bitPos else remaining;
      ByteAt(data, j);
      if take == 8 {
        FullByte(data[j]);
      }
      var value := if take < 8 then Low(Shr(data[j], bitPos), take) else Shr(data[j], bitPos);
      ReadStep(data, bitOffs, numBits - remaining, result, j, bitPos, take);
      result := Or(result, Shl(value, numBits - remaining));
      remaining := remaining - take;
      if remaining == 0 {
        return;
      }
      bitPos := 0;
      j := j + 1;
    }
    ReadPast(data, bitOffs, numBits - remaining, numBits, result);
  }

  lemma ByteAt(data: seq<nat>, j: nat)
    requires Bytes(data) && j < |data|
    ensures data[j] < 256
  {
  }

  // ----- words -----

  function PackedLen(n: nat, bits: nat): (r: nat) {
    (n * bits + 7) / 8
  }

  lemma PackedLenIs(n: nat, bits: nat)
    ensures n * bits >= 0 && 8 * PackedLen(n, bits) - 8 < n * bits <= 8 * PackedLen(n, bits)
  {
    ProductNonNegative(n, bits);
  }

  predicate Fit(words: seq<nat>, bits: nat) {
    forall i :: 0 <= i < |words| ==> words[i] < Pow(2, bits)
  }

  /** Bit pos of the concatenated words. */
  predicate WordBit(words: seq<nat>, bits: nat, pos: nat)
    requires bits > 0
  {
    pos / bits < |words| && BitOf(words[pos / bits], pos % bits)
  }

  lemma WordBitAt(words: seq<nat>, bits: nat, i: nat, t: nat)
    requires bits > 0 && t < bits
    ensures i * bits + t >= 0 && WordBit(words, bits, i * bits + t) == (i < |words| && BitOf(words[i], t))
  {
    ProductNonNegative(i, bits);
    RemainderUnique(i * bits + t, i, t, bits);
  }

  /** The position of a bit as word index and bit index. */
  lemma SplitPosition(bits: nat, pos: nat) returns (i: nat, t: nat)
    requires bits > 0
    ensures t < bits && pos == i * bits + t
  {
    DivMod(pos, bits);
    i, t := pos / bits, pos % bits;
  }

  /** bytes holds the words end to end, zero padded to whole bytes. */
  ghost predicate Encodes(bytes: seq<nat>, words: seq<nat>, bits: nat)
    requires bits > 0
  {
    && |bytes| == PackedLen(|words|, bits) && Bytes(bytes)
    && forall pos :: 0 <= pos < 8 * |bytes| ==> BitAt(bytes, pos) == WordBit(words, bits, pos)
  }

  lemma EncodesParts(bytes: seq<nat>, words: seq<nat>, bits: nat)
    requires bits > 0 && Encodes(bytes, words, bits)
    ensures |bytes| == PackedLen(|words|, bits) && Bytes(bytes)
  {
  }

  /** There is one encoding of a word list. */
  lemma EncodingUnique(x: seq<nat>, y: seq<nat>, words: seq<nat>, bits: nat)
    requires bits > 0 && Encodes(x, words, bits) && Encodes(y, words, bits)
    ensures x == y
  {
    SameBits(x, y);
  }

  /** Partly written: the first n words are in place, the rest is zero. */
  ghost predicate Filled(data: seq<nat>, words: seq<nat>, bits: nat, n: nat)
    requires bits > 0 && n <= |words|
  {
    Bytes(data) && forall pos :: 0 <= pos < 8 * |data| ==> BitAt(data, pos) == WordBit(words[..n], bits, pos)
  }

  lemma FilledStart(data: seq<nat>, words: seq<nat>, bits: nat)
    requires bits > 0 && forall j :: 0 <= j < |data| ==> data[j] == 0
    ensures Filled(data, words, bits, 0)
  {
    forall pos | 0 <= pos < 8 * |data|
      ensures !BitAt(data, pos)
    {
      ZeroBits(pos % 8);
    }
  }

  lemma FilledBytes(data: seq<nat>, words: seq<nat>, bits: nat, n: nat)
    requires bits > 0 && n <= |words| && Filled(data, words, bits, n)
    ensures Bytes(data)
  {
  }

  lemma FilledStep(before: seq<nat>, after: seq<nat>, words: seq<nat>, bits: nat, n: nat, offs: nat)
    requires bits > 0 && n < |words| && Filled(before, words, bits, n) && offs == n * bits
    requires Written(before, after, words[n], offs, bits)
    ensures Filled(after, words, bits, n + 1)
  {
    forall pos | 0 <= pos < 8 * |after|
      ensures BitAt(after, pos) == WordBit(words[..n + 1], bits, pos)
    {
      hide BitOf;
      var i, t := SplitPosition(bits, pos);
      WordBitAt(words[..n], bits, i, t);
      WordBitAt(words[..n + 1], bits, i, t);
      assert BitAt(after, pos) == WrittenBit(BitAt(before, pos), words[n], offs, bits, pos);
      BlockOf(i, n, t, bits);
      assert offs <= pos < offs + bits <==> i == n;
    }
  }

  lemma BlockOf(i: nat, n: nat, t: nat, bits: nat)
    requires t < bits
    ensures i < n ==> i * bits + t < n * bits
    ensures i == n ==> n * bits <= i * bits + t < n * bits + bits
    ensures i > n ==> i * bits + t >= n * bits + bits
  {
    if i < n {
      Distribute(i, 1, bits);
      ProductOrder(i + 1, n, bits);
    } else if i > n {
      Distribute(n, 1, bits);
      ProductOrder(n + 1, i, bits);
    }
  }

  /** The least number of bytes that hold n words. */
  lemma PackedLenLeast(n: nat, bits: nat)
    ensures n * bits <= 8 * PackedLen(n, bits) < n * bits + 8
  {
  }

  /** u64s_to_contiguous_bytes. */
  method Encode(words: seq<nat>, bits: nat) returns (out: seq<nat>)
    requires bits > 0
    ensures Encodes(out, words, bits)
    ensures |words| * bits <= 8 * |out| < |words| * bits + 8
  {
    hide *;
    PackedLenLeast(|words|, bits);
    var total := PackedLen(|words|, bits);
    var data := new nat[total](_ => 0);
    FilledStart(data[..], words, bits);
    var offs := 0;
    for n := 0 to |words|
      invariant offs == n * bits && Filled(data[..], words, bits, n)
    {
      ghost var before := data[..];
      FilledBytes(before, words, bits, n);
      ProductNonNegative(n, bits);
      WriteBits(data, words[n], offs, bits);
      FilledStep(before, data[..], words, bits, n, offs);
      Distribute(n, 1, bits);
      offs := offs + bits;
    }
    out := data[..];
    FilledAll(out, words, bits);
  }

  lemma FilledAll(data: seq<nat>, words: seq<nat>, bits: nat)
    requires bits > 0 && |data| == PackedLen(|words|, bits) && Filled(data, words, bits, |words|)
    ensures Encodes(data, words, bits)
  {
    assert words[..|words|] == words;
  }

  /** Word i of the string, and all of them. */
  ghost predicate Words(data: seq<nat>, bits: nat, words: seq<nat>)
    requires bits > 0
  {
    forall i: nat :: i < |words| ==> i * bits >= 0 && ReadBits(data, i * bits, bits, words[i])
  }

  lemma WordsStep(data: seq<nat>, bits: nat, words: seq<nat>, word: nat, offs: nat)
    requires bits > 0 && Words(data, bits, words) && offs == |words| * bits && ReadBits(data, offs, bits, word)
    ensures Words(data, bits, words + [word])
  {
    hide ReadBits;
    var longer := words + [word];
    forall i: nat | i < |longer|
      ensures i * bits >= 0 && ReadBits(data, i * bits, bits, longer[i])
    {
      if i < |words| {
        assert longer[i] == words[i];
      }
    }
  }

  /** contiguous_bytes_to_u64s: as many whole words as the bytes hold. */
  method Unpack(data: seq<nat>, bits: nat) returns (words: seq<nat>)
    requires Bytes(data) && 1 <= bits <= 64
    ensures |words| == 8 * |data| / bits && Words(data, bits, words)
  {
    hide *;
    var n := 8 * |data| / bits;
    words := [];
    var offs := 0;
    NoWords(data, bits);
    DivMod(8 * |data|, bits);
    QuotientNatural(8 * |data|, bits);
    for i := 0 to n
      invariant |words| == i && offs == i * bits && Words(data, bits, words)
    {
      ProductNonNegative(i, bits);
      var word := ReadWord(data, offs, bits);
      WordsStep(data, bits, words, word, offs);
      words := words + [word];
      Distribute(i, 1, bits);
      offs := offs + bits;
    }
  }

  lemma QuotientNatural(x: nat, bits: nat)
    requires bits > 0
    ensures x / bits >= 0
  {
  }

  lemma NoWords(data: seq<nat>, bits: nat)
    requires bits > 0
    ensures Words(data, bits, [])
  {
  }

  /** Every bit past the words is zero. */
  predicate PaddingZero(bytes: seq<nat>, total: nat) {
    forall pos :: total <= pos < 8 * |bytes| ==> !BitAt(bytes, pos)
  }

  lemma WordAt(data: seq<nat>, bits: nat, words: seq<nat>, i: nat, t: nat)
    requires bits > 0 && Words(data, bits, words) && i < |words| && t < bits
    ensures i * bits + t >= 0 && words[i] < Pow(2, bits)
    ensures BitOf(words[i], t) == (i * bits + t < 8 * |data| && BitAt(data, i * bits + t))
  {
    hide BitOf, Pow;
    ProductNonNegative(i, bits);
    assert ReadBits(data, i * bits, bits, words[i]);
  }

  lemma WordsFit(data: seq<nat>, bits: nat, words: seq<nat>)
    requires bits > 0 && Words(data, bits, words)
    ensures Fit(words, bits)
  {
    forall i | 0 <= i < |words|
      ensures words[i] < Pow(2, bits)
    {
      assert ReadBits(data, i * bits, bits, words[i]);
    }
  }

  /** Unpacked words encode back to the bytes exactly when the padding is zero. */
  lemma ReEncodes(bytes: seq<nat>, words: seq<nat>, bits: nat)
    requires bits > 0 && Bytes(bytes) && Words(bytes, bits, words) && |bytes| == PackedLen(|words|, bits)
    ensures |words| * bits >= 0 && (Encodes(bytes, words, bits) <==> PaddingZero(bytes, |words| * bits))
  {
    hide BitOf, Pow, ReadBits, Words;
    var n := |words|;
    ProductNonNegative(n, bits);
    forall pos | 0 <= pos < 8 * |bytes|
      ensures pos < n * bits ==> BitAt(bytes, pos) == WordBit(words, bits, pos)
      ensures pos >= n * bits ==> !WordBit(words, bits, pos)
    {
      var i, t := SplitPosition(bits, pos);
      WordBitAt(words, bits, i, t);
      BlockOf(i, n, t, bits);
      if i < n {
        WordAt(bytes, bits, words, i, t);
      }
    }
  }

  /** The words of an encoding, when they fit, are the encoded ones. */
  lemma DecodesBack(bytes: seq<nat>, words: seq<nat>, got: seq<nat>, bits: nat)
    requires bits > 0 && Encodes(bytes, words, bits) && Fit(words, bits) && Words(bytes, bits, got) && |got| == |words|
    ensures got == words
  {
    hide BitOf, Pow, ReadBits, Words;
    var n := |words|;
    PackedLenIs(n, bits);
    forall i | 0 <= i < n
      ensures got[i] == words[i]
    {
      forall t | 0 <= t < bits
        ensures BitOf(got[i], t) == BitOf(words[i], t)
      {
        WordAt(bytes, bits, got, i, t);
        WordBitAt(words, bits, i, t);
        BlockOf(i, n, t, bits);
      }
      WordsFit(bytes, bits, got);
      BitsDetermine(got[i], words[i], bits);
    }
  }

  lemma PrefixWords(data: seq<nat>, bits: nat, words: seq<nat>, n: nat)
    requires bits > 0 && Words(data, bits, words) && n <= |words|
    ensures Words(data, bits, words[..n])
  {
    hide ReadBits;
    forall i: nat | i < n
      ensures i * bits >= 0 && ReadBits(data, i * bits, bits, words[..n][i])
    {
      assert words[..n][i] == words[i];
      assert ReadBits(data, i * bits, bits, words[i]);
    }
  }

  lemma EnoughWords(n: nat, bits: nat)
    requires bits > 0
    ensures 8 * PackedLen(n, bits) / bits >= n
  {
    PackedLenIs(n, bits);
    var x := 8 * PackedLen(n, bits);
    DivMod(x, bits);
    if x / bits < n {
      Distribute(x / bits, 1, bits);
      ProductOrder(x / bits + 1, n, bits);
    }
  }

  /** decode accepts exactly the canonical encodings of n words of this width, and returns those words. */
  method Decode(bytes: seq<nat>, n: nat, bits: nat) returns (r: Result<seq<nat>>)
    requires Bytes(bytes) && 1 <= bits <= 64
    ensures n * bits >= 0 && (r == Err(InvalidLength) <==> |bytes| != PackedLen(n, bits))
    ensures r.Ok? <==> |bytes| == PackedLen(n, bits) && PaddingZero(bytes, n * bits)
    ensures r.Ok? ==> |r.value| == n && Fit(r.value, bits) && Encodes(bytes, r.value, bits)
    ensures forall words: seq<nat> :: |words| == n && Fit(words, bits) && Encodes(bytes, words, bits) ==> r == Ok(words)
  {
    hide *;
    ProductNonNegative(n, bits);
    if |bytes| != PackedLen(n, bits) {
      forall words: seq<nat> | |words| == n && Fit(words, bits) && Encodes(bytes, words, bits)
        ensures false
      {
        EncodesParts(bytes, words, bits);
      }
      return Err(InvalidLength);
    }
    var words := Unpack(bytes, bits);
    EnoughWords(n, bits);
    PrefixWords(bytes, bits, words, n);
    words := words[..n];
    WordsFit(bytes, bits, words);
    var again := Encode(words, bits);
    ReEncodes(bytes, words, bits);
    forall other: seq<nat> | |other| == n && Fit(other, bits) && Encodes(bytes, other, bits)
      ensures words == other
    {
      DecodesBack(bytes, other, words, bits);
    }
    if again != bytes {
      NotEncoded(bytes, again, words, bits);
      return Err(NoncanonicalPadding);
    }
    return Ok(words);
  }

  lemma NotEncoded(bytes: seq<nat>, again: seq<nat>, words: seq<nat>, bits: nat)
    requires bits > 0 && Encodes(again, words, bits) && again != bytes
    ensures !Encodes(bytes, words, bits)
  {
    if Encodes(bytes, words, bits) {
      EncodingUnique(bytes, again, words, bits);
    }
  }
}
