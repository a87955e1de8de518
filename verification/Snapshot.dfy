/** Nullifier snapshots as SimplePIR plaintext rows (nullifier-pir/src/encoding.rs, nullifier-pir/src/snapshot.rs). */
module Snapshot {
  import opened Wrappers
  import opened Galois
  import opened Bits

  const NULLIFIER_BYTES: nat := 32
  const COEFF_BITS: nat := 14
  const COEFFS_PER_ITEM: nat := 32768
  const ITEM_BYTES: nat := 57344
  const NULLIFIERS_PER_ITEM: nat := 1792

  // ----- little-endian words -----

  function LeWord(bytes: seq<nat>): (r: nat) {
    if |bytes| == 0 then 0 else bytes[0] + 256 * LeWord(bytes[1..])
  }

  lemma {:induction false} ByteThenRest(x: nat, y: nat, n: nat, k: nat)
    requires x < Pow(2, n)
    ensures BitOf(x + Pow(2, n) * y, k) == if k < n then BitOf(x, k) else BitOf(y, k - n)
    decreases n
  {
    if n == 0 {
    } else {
      var p := Pow(2, n - 1);
      assert Pow(2, n) * y == 2 * (p * y);
      assert (x + 2 * (p * y)) % 2 == x % 2 && (x + 2 * (p * y)) / 2 == x / 2 + p * y;
      if k > 0 {
        ByteThenRest(x / 2, y, n - 1, k - 1);
      }
    }
  }

  /** Bit k of the word is bit k % 8 of byte k / 8. */
  lemma {:induction false} LeWordBits(bytes: seq<nat>, k: nat)
    requires Bytes(bytes)
    ensures BitOf(LeWord(bytes), k) == (k < 8 * |bytes| && BitAt(bytes, k))
    decreases |bytes|
  {
    if |bytes| == 0 {
      ZeroBits(k);
    } else {
      var rest := bytes[1..];
      BytePower();
      ByteThenRest(bytes[0], LeWord(rest), 8, k);
      if k >= 8 {
        LeWordBits(rest, k - 8);
        assert k / 8 == (k - 8) / 8 + 1 && k % 8 == (k - 8) % 8;
      }
    }
  }

  /** read_bits_le: one load of up to eight bytes, a shift and a mask; past the end reads zero. */
  function ReadLe(data: seq<nat>, offset: nat, count: nat): (r: nat) {
    var byte := offset / 8;
    if byte >= |data| then 0
    else
      var end := if byte + 8 < |data| then byte + 8 else |data|;
      Low(Shr(LeWord(data[byte..end]), offset % 8), count)
  }

  lemma ReadLeBits(data: seq<nat>, offset: nat, count: nat)
    requires Bytes(data) && 1 <= count <= 57
    ensures ReadBits(data, offset, count, ReadLe(data, offset, count))
  {
    var byte, shift := offset / 8, offset % 8;
    var r := ReadLe(data, offset, count);
    if byte >= |data| {
      PowPositive(2, count);
      forall t | 0 <= t < count
        ensures !BitOf(r, t) && offset + t >= 8 * |data|
      {
        ZeroBits(t);
      }
    } else {
      var end := if byte + 8 < |data| then byte + 8 else |data|;
      var part := data[byte..end];
      LowBound(Shr(LeWord(part), shift), count);
      forall t | 0 <= t < count
        ensures BitOf(r, t) == (offset + t < 8 * |data| && BitAt(data, offset + t))
      {
        LowBits(Shr(LeWord(part), shift), count, t);
        ShrBits(LeWord(part), shift, t);
        LeWordBits(part, t + shift);
        SamePlace(data, byte, end, offset, t);
      }
    }
  }

  lemma SamePlace(data: seq<nat>, byte: nat, end: nat, offset: nat, t: nat)
    requires byte == offset / 8 < end <= |data| && (end == byte + 8 || end == |data|) && t <= 56
    ensures (t + offset % 8 < 8 * (end - byte)) <==> offset + t < 8 * |data|
    ensures offset + t < 8 * |data| ==> BitAt(data[byte..end], t + offset % 8) == BitAt(data, offset + t)
  {
    if offset + t < 8 * |data| {
      assert (t + offset % 8) / 8 + byte == (offset + t) / 8 && (t + offset % 8) % 8 == (offset + t) % 8;
    }
  }

  /** encode_item_into. */
  method EncodeItem(item: seq<nat>, out: array<nat>)
    requires Bytes(item) && |item| <= ITEM_BYTES && out.Length == COEFFS_PER_ITEM
    modifies out
    ensures CoeffsOf(item, out[..])
    ensures out.Length == 32768 && forall k :: 0 <= k < 32768 ==> ReadBits(item, 14 * k, 14, out[k])
  {
    hide ReadBits, ReadLe;
    for i := 0 to out.Length
      invariant forall k :: 0 <= k < i ==> ReadBits(item, COEFF_BITS * k, COEFF_BITS, out[k])
    {
      ReadLeBits(item, COEFF_BITS * i, COEFF_BITS);
      out[i] := ReadLe(item, COEFF_BITS * i, COEFF_BITS);
    }
  }

  /** Coefficient k holds bits 14 k .. 14 k + 14 of the item, zero past its end. */
  ghost predicate CoeffsOf(item: seq<nat>, coeffs: seq<nat>) {
    |coeffs| == COEFFS_PER_ITEM && forall k :: 0 <= k < |coeffs| ==> ReadBits(item, COEFF_BITS * k, COEFF_BITS, coeffs[k])
  }

  // ----- splicing back -----

  /** Replaces bits shift .. shift + n of the word by the low n bits of the value. */
  function Splice(word: nat, value: nat, shift: nat, n: nat): (r: nat) {
    Or(Or(Low(word, shift), Shl(Low(value, n), shift)), Shl(Shr(word, shift + n), shift + n))
  }

  lemma SpliceBits(word: nat, value: nat, shift: nat, n: nat, k: nat)
    ensures BitOf(Splice(word, value, shift, n), k) == if shift <= k < shift + n then BitOf(value, k - shift) else BitOf(word, k)
  {
    hide BitOf, Or, Shl, Shr, Low;
    var top, low, mid := Shl(Shr(word, shift + n), shift + n), Low(word, shift), Shl(Low(value, n), shift);
    OrBits(Or(low, mid), top, k);
    OrBits(low, mid, k);
    LowBits(word, shift, k);
    ShlBits(Low(value, n), shift, k);
    ShlBits(Shr(word, shift + n), shift + n, k);
    if k >= shift {
      LowBits(value, n, k - shift);
    }
    if k >= shift + n {
      ShrBits(word, shift + n, k - (shift + n));
    }
  }

  function ByteOf(word: nat, j: nat): (r: nat)
    ensures r < 256
  {
    BytePower();
    LowBound(Shr(word, 8 * j), 8);
    Low(Shr(word, 8 * j), 8)
  }

  lemma ByteOfBits(word: nat, j: nat, k: nat)
    requires k < 8
    ensures BitOf(ByteOf(word, j), k) == BitOf(word, 8 * j + k)
  {
    LowBits(Shr(word, 8 * j), 8, k);
    ShrBits(word, 8 * j, k);
  }

  /** The field's bits are the value's; every other bit is kept. */
  ghost predicate Spliced(before: seq<nat>, after: seq<nat>, value: nat, offset: nat, n: nat) {
    && |after| == |before| && Bytes(after)
    && forall pos :: 0 <= pos < 8 * |before| ==>
         BitAt(after, pos) == if offset <= pos < offset + n then BitOf(value, pos - offset) else BitAt(before, pos)
  }

  /** write_bits_le: load the containing word, splice, store the same bytes back. */
  method WriteLe(data: array<nat>, value: nat, offset: nat, n: nat)
    requires Bytes(data[..]) && 1 <= n <= 57 && offset / 8 < data.Length
    modifies data
    ensures Spliced(old(data[..]), data[..], value, offset, n)
  {
    hide *;
    ghost var before := data[..];
    var byte, shift := offset / 8, offset % 8;
    var end := if byte + 8 < data.Length then byte + 8 else data.Length;
    var word := LeWord(data[byte..end]);
    var spliced := Splice(word, value, shift, n);
    for j := 0 to end - byte
      invariant forall x :: 0 <= x < byte || byte + j <= x < data.Length ==> data[x] == before[x]
      invariant forall x :: byte <= x < byte + j ==> data[x] == ByteOf(spliced, x - byte)
    {
      data[byte + j] := ByteOf(spliced, j);
    }
    SplicedFrom(before, data[..], value, offset, n, end);
  }

  lemma SplicedFrom(before: seq<nat>, after: seq<nat>, value: nat, offset: nat, n: nat, end: nat)
    requires Bytes(before) && |after| == |before| && 1 <= n <= 57 && offset / 8 < end <= |before|
    requires end == offset / 8 + 8 || (end == |before| && end < offset / 8 + 8)
    requires forall x :: 0 <= x < offset / 8 || end <= x < |before| ==> after[x] == before[x]
    requires forall x :: offset / 8 <= x < end ==>
               after[x] == ByteOf(Splice(LeWord(before[offset / 8..end]), value, offset % 8, n), x - offset / 8)
    ensures Spliced(before, after, value, offset, n)
  {
    hide BitOf, Splice, LeWord, ByteOf;
    var byte, shift := offset / 8, offset % 8;
    var part := before[byte..end];
    forall x | 0 <= x < |after|
      ensures after[x] < 256
    {
      if byte <= x < end {
        assert after[x] == ByteOf(Splice(LeWord(part), value, shift, n), x - byte);
      }
    }
    forall pos | 0 <= pos < 8 * |before|
      ensures BitAt(after, pos) == if offset <= pos < offset + n then BitOf(value, pos - offset) else BitAt(before, pos)
    {
      var x, k := pos / 8, pos % 8;
      if byte <= x < end {
        var w := 8 * (x - byte) + k;
        ByteOfBits(Splice(LeWord(part), value, shift, n), x - byte, k);
        SpliceBits(LeWord(part), value, shift, n, w);
        LeWordBits(part, w);
        assert w / 8 == x - byte && w % 8 == k;
        assert w - shift == pos - offset;
      } else {
        assert !(offset <= pos < offset + n);
      }
    }
  }

  /** The first n fields hold the first n coefficients. */
  ghost predicate FieldsWritten(data: seq<nat>, coeffs: seq<nat>, n: nat) {
    && |data| == ITEM_BYTES && Bytes(data) && n <= |coeffs|
    && forall k, t :: 0 <= k < n && 0 <= t < COEFF_BITS && COEFF_BITS * k + t < 8 * |data| ==>
         BitAt(data, COEFF_BITS * k + t) == BitOf(coeffs[k], t)
  }

  lemma FieldsStep(before: seq<nat>, after: seq<nat>, coeffs: seq<nat>, n: nat)
    requires FieldsWritten(before, coeffs, n) && n < |coeffs| && n < COEFFS_PER_ITEM
    requires Spliced(before, after, coeffs[n], COEFF_BITS * n, COEFF_BITS)
    ensures FieldsWritten(after, coeffs, n + 1)
  {
    hide BitOf, Bytes;
    forall k, t | 0 <= k < n + 1 && 0 <= t < COEFF_BITS && COEFF_BITS * k + t < 8 * |after|
      ensures BitAt(after, COEFF_BITS * k + t) == BitOf(coeffs[k], t)
    {
      var pos := COEFF_BITS * k + t;
      assert BitAt(after, pos)
             == if COEFF_BITS * n <= pos < COEFF_BITS * n + COEFF_BITS then BitOf(coeffs[n], pos - COEFF_BITS * n) else BitAt(before, pos);
    }
  }

  /** decode_item_coefficients. */
  method DecodeItem(coeffs: seq<nat>) returns (out: seq<nat>)
    requires |coeffs| >= COEFFS_PER_ITEM
    ensures FieldsWritten(out, coeffs, COEFFS_PER_ITEM)
    ensures |out| == 57344 && forall k, t :: 0 <= k < 32768 && 0 <= t < 14 ==> BitAt(out, 14 * k + t) == BitOf(coeffs[k], t)
  {
    hide FieldsWritten, Spliced, Bytes;
    var data := new nat[ITEM_BYTES](_ => 0);
    FieldsNone(data[..], coeffs);
    for i := 0 to COEFFS_PER_ITEM
      invariant FieldsWritten(data[..], coeffs, i)
    {
      ghost var before := data[..];
      FieldsBytes(before, coeffs, i);
      WriteLe(data, coeffs[i], COEFF_BITS * i, COEFF_BITS);
      FieldsStep(before, data[..], coeffs, i);
    }
    out := data[..];
    FieldsMean(out, coeffs);
  }

  lemma FieldsMean(data: seq<nat>, coeffs: seq<nat>)
    requires FieldsWritten(data, coeffs, COEFFS_PER_ITEM)
    ensures |data| == 57344 && |coeffs| >= 32768
    ensures forall k, t :: 0 <= k < 32768 && 0 <= t < 14 ==> BitAt(data, 14 * k + t) == BitOf(coeffs[k], t)
  {
    hide BitAt, BitOf;
    forall k, t | 0 <= k < 32768 && 0 <= t < 14
      ensures BitAt(data, 14 * k + t) == BitOf(coeffs[k], t)
    {
      assert COEFF_BITS * k + t == 14 * k + t;
      assert BitAt(data, COEFF_BITS * k + t) == BitOf(coeffs[k], t);
    }
  }

  lemma FieldsNone(data: seq<nat>, coeffs: seq<nat>)
    requires |data| == ITEM_BYTES && forall j :: 0 <= j < |data| ==> data[j] == 0
    ensures FieldsWritten(data, coeffs, 0)
  {
  }

  lemma FieldsBytes(data: seq<nat>, coeffs: seq<nat>, n: nat)
    requires FieldsWritten(data, coeffs, n)
    ensures |data| == ITEM_BYTES && Bytes(data)
  {
  }

  function Padded(item: seq<nat>): (r: seq<nat>)
    requires |item| <= ITEM_BYTES
    ensures |r| == ITEM_BYTES && forall j :: 0 <= j < ITEM_BYTES ==> r[j] == if j < |item| then item[j] else 0
  {
    item + seq(ITEM_BYTES - |item|, _ => 0)
  }

  /** Decoding the coefficients of an item gives its bytes back, zero padded. */
  lemma ItemRoundTrip(item: seq<nat>, coeffs: seq<nat>, out: seq<nat>)
    requires Bytes(item) && |item| <= ITEM_BYTES && CoeffsOf(item, coeffs) && FieldsWritten(out, coeffs, COEFFS_PER_ITEM)
    ensures out == Padded(item)
  {
    hide BitOf;
    var want := Padded(item);
    forall pos | 0 <= pos < 8 * |out|
      ensures BitAt(out, pos) == BitAt(want, pos)
    {
      var k, t := pos / COEFF_BITS, pos % COEFF_BITS;
      assert pos == COEFF_BITS * k + t;
      assert BitAt(out, COEFF_BITS * k + t) == BitOf(coeffs[k], t);
      assert ReadBits(item, COEFF_BITS * k, COEFF_BITS, coeffs[k]);
      assert BitOf(coeffs[k], t) == (pos < 8 * |item| && BitAt(item, pos));
      ZeroBits(pos % 8);
    }
    SameBits(out, want);
  }

  // ----- records -----

  function RowCount(records: nat): (r: nat) {
    (records + NULLIFIERS_PER_ITEM - 1) / NULLIFIERS_PER_ITEM
  }

  /** The bytes of PIR row r of the file. */
  function RowBytes(file: seq<nat>, r: nat): (b: seq<nat>)
    requires ITEM_BYTES * r <= |file|
    ensures |b| <= ITEM_BYTES
  {
    file[ITEM_BYTES * r..if ITEM_BYTES * (r + 1) < |file| then ITEM_BYTES * (r + 1) else |file|]
  }

  /** nullifier_offset and extract_nullifier. */
  function RecordRow(i: nat): (r: nat) {
    i / NULLIFIERS_PER_ITEM
  }

  function ExtractNullifier(item: seq<nat>, offset: nat): (r: Option<seq<nat>>) {
    if offset >= NULLIFIERS_PER_ITEM then None
    else if NULLIFIER_BYTES * offset + NULLIFIER_BYTES > |item| then None
    else Some(item[NULLIFIER_BYTES * offset..NULLIFIER_BYTES * offset + NULLIFIER_BYTES])
  }

  /** Record i sits at its offset in the padded bytes of its row. */
  lemma RecordAt(file: seq<nat>, i: nat)
    requires NULLIFIER_BYTES * (i + 1) <= |file|
    ensures ITEM_BYTES * RecordRow(i) <= |file| && RecordRow(i) == i / 1792
    ensures ExtractNullifier(Padded(RowBytes(file, RecordRow(i))), i % NULLIFIERS_PER_ITEM)
            == Some(file[NULLIFIER_BYTES * i..NULLIFIER_BYTES * (i + 1)])
  {
    var r, o := RecordRow(i), i % NULLIFIERS_PER_ITEM;
    assert i == NULLIFIERS_PER_ITEM * r + o;
    var row := RowBytes(file, r);
    var got := Padded(row)[NULLIFIER_BYTES * o..NULLIFIER_BYTES * o + NULLIFIER_BYTES];
    forall x | 0 <= x < NULLIFIER_BYTES
      ensures got[x] == file[NULLIFIER_BYTES * i + x]
    {
      assert got[x] == Padded(row)[NULLIFIER_BYTES * o + x];
      assert NULLIFIER_BYTES * o + x < |row|;
    }
    assert got == file[NULLIFIER_BYTES * i..NULLIFIER_BYTES * (i + 1)];
  }

  // ----- the coefficient iterator -----

  /** Row r of the plaintext: the file's row, or all zero past the data. */
  ghost predicate RowHolds(file: seq<nat>, records: nat, r: nat, coeffs: seq<nat>) {
    && |coeffs| == COEFFS_PER_ITEM
    && (if r < RowCount(records) then ITEM_BYTES * r <= |file| && CoeffsOf(RowBytes(file, r), coeffs)
        else forall k :: 0 <= k < |coeffs| ==> coeffs[k] == 0)
  }

  class CoeffIter {
    const file: seq<nat>
    const records: nat
    const rows: nat
    var position: nat
    var currentRow: nat
    var item: array<nat>
    var coeffs: array<nat>
    var index: nat

    ghost predicate Valid()
      reads this, item, coeffs
    {
      && |file| == NULLIFIER_BYTES * records && Bytes(file)
      && item.Length == ITEM_BYTES && coeffs.Length == COEFFS_PER_ITEM && item != coeffs && Bytes(item[..])
      && currentRow <= rows && index <= COEFFS_PER_ITEM
      && position == (if currentRow < RowCount(records) then ITEM_BYTES * currentRow else |file|) <= |file|
      && (currentRow == 0 ==> index == COEFFS_PER_ITEM)
      && (currentRow > 0 ==> RowHolds(file, records, currentRow - 1, coeffs[..]))
    }

    /** How many coefficients have been emitted. */
    ghost function Emitted(): (n: nat)
      reads this
    {
      if currentRow == 0 || index > COEFFS_PER_ITEM then 0 else COEFFS_PER_ITEM * (currentRow - 1) + index
    }

    constructor (file: seq<nat>, records: nat, rows: nat)
      requires |file| == NULLIFIER_BYTES * records && Bytes(file)
      ensures Valid() && this.file == file && this.records == records && this.rows == rows && currentRow == 0 && Emitted() == 0
      ensures fresh(item) && fresh(coeffs)
    {
      this.file, this.records, this.rows := file, records, rows;
      position, currentRow, index := 0, 0, COEFFS_PER_ITEM;
      item := new nat[ITEM_BYTES](_ => 0);
      coeffs := new nat[COEFFS_PER_ITEM](_ => 0);
    }

    /** load_next_row: reuses the read buffer, and never reads past what this row filled. */
    method LoadNextRow() returns (more: bool)
      requires Valid() && index == COEFFS_PER_ITEM
      modifies this, item, coeffs
      ensures Valid() && item == old(item) && coeffs == old(coeffs)
      ensures more <==> old(currentRow) < rows
      ensures more ==> currentRow == old(currentRow) + 1 && index == 0
      ensures !more ==> currentRow == old(currentRow) && index == old(index) && coeffs[..] == old(coeffs[..])
    {
      if currentRow >= rows {
        return false;
      }
      if currentRow < RowCount(records) {
        RowRoom(records, currentRow);
        var remaining := records - NULLIFIERS_PER_ITEM * currentRow;
        var inRow := if remaining < NULLIFIERS_PER_ITEM then remaining else NULLIFIERS_PER_ITEM;
        var count := NULLIFIER_BYTES * inRow;
        ReadExact(count);
        assert item[..count] == RowBytes(file, currentRow);
        RowCountStep(records, currentRow);
        EncodeItem(item[..count], coeffs);
      } else {
        for k := 0 to COEFFS_PER_ITEM
          invariant coeffs.Length == COEFFS_PER_ITEM && forall j :: 0 <= j < k ==> coeffs[j] == 0
          modifies coeffs
        {
          coeffs[k] := 0;
        }
      }
      currentRow := currentRow + 1;
      index := 0;
      return true;
    }

    /** Copies the next count bytes of the file into the front of the buffer. */
    method ReadExact(count: nat)
      requires item.Length == ITEM_BYTES && Bytes(item[..]) && Bytes(file) && count <= ITEM_BYTES && position + count <= |file|
      modifies this`position, item
      ensures position == old(position) + count && Bytes(item[..])
      ensures item[..count] == file[old(position)..position]
    {
      for k := 0 to count
        invariant Bytes(item[..]) && item[..k] == file[position..position + k]
        modifies item
      {
        item[k] := file[position + k];
        assert item[..k + 1] == item[..k] + [item[k]];
      }
      position := position + count;
    }

    /** next: the coefficients of row after row, exactly 32768 per row, for exactly rows rows. */
    method Next() returns (r: Option<nat>)
      requires Valid()
      modifies this, item, coeffs
      ensures Valid() && item == old(item) && coeffs == old(coeffs)
      ensures r.None? <==> old(Emitted()) == COEFFS_PER_ITEM * rows
      ensures r.None? ==> currentRow == old(currentRow) && index == old(index) && coeffs[..] == old(coeffs[..])
      ensures r.Some? ==> Emitted() == old(Emitted()) + 1 && currentRow > 0 && index > 0
                          && currentRow - 1 == old(Emitted()) / COEFFS_PER_ITEM && index - 1 == old(Emitted()) % COEFFS_PER_ITEM
                          && r.value == coeffs[index - 1] && RowHolds(file, records, currentRow - 1, coeffs[..])
      ensures r.Some? ==> if old(index) == COEFFS_PER_ITEM then index == 1
                          else index == old(index) + 1 && currentRow == old(currentRow) && coeffs[..] == old(coeffs[..])
    {
      if index == COEFFS_PER_ITEM {
        var more := LoadNextRow();
        if !more {
          return None;
        }
      }
      var value := coeffs[index];
      index := index + 1;
      return Some(value);
    }
  }

  lemma RowRoom(records: nat, r: nat)
    requires r < RowCount(records)
    ensures NULLIFIERS_PER_ITEM * r < records
  {
  }

  lemma RowCountStep(records: nat, r: nat)
    requires r < RowCount(records)
    ensures r + 1 < RowCount(records) <==> NULLIFIERS_PER_ITEM * (r + 1) < records
  {
  }

  // ----- from file to record -----

  /** Any decoded row of the plaintext gives back each of its records, at nullifier_offset, and zeros elsewhere. */
  lemma RecordRecovered(file: seq<nat>, records: nat, i: nat, coeffs: seq<nat>, out: seq<nat>)
    requires |file| == NULLIFIER_BYTES * records && Bytes(file) && i < records
    requires RowHolds(file, records, RecordRow(i), coeffs) && FieldsWritten(out, coeffs, COEFFS_PER_ITEM)
    ensures ITEM_BYTES * RecordRow(i) <= |file| && out == Padded(RowBytes(file, RecordRow(i)))
    ensures ExtractNullifier(out, i % NULLIFIERS_PER_ITEM) == Some(file[NULLIFIER_BYTES * i..NULLIFIER_BYTES * (i + 1)])
  {
    RecordAt(file, i);
    RowInside(records, i);
    hide CoeffsOf, FieldsWritten, ExtractNullifier;
    var row := RowBytes(file, RecordRow(i));
    assert Bytes(row);
    ItemRoundTrip(row, coeffs, out);
  }

  lemma RowInside(records: nat, i: nat)
    requires i < records
    ensures RecordRow(i) < RowCount(records)
  {
  }

  /** Rows past the data decode to nothing but zero bytes. */
  lemma PaddingRowsZero(file: seq<nat>, records: nat, r: nat, coeffs: seq<nat>, out: seq<nat>)
    requires r >= RowCount(records) && RowHolds(file, records, r, coeffs) && FieldsWritten(out, coeffs, COEFFS_PER_ITEM)
    ensures out == Padded([])
  {
    forall k | 0 <= k < |coeffs|
      ensures ReadBits([], COEFF_BITS * k, COEFF_BITS, coeffs[k])
    {
      PowPositive(2, COEFF_BITS);
      forall t | 0 <= t < COEFF_BITS
        ensures !BitOf(0, t)
      {
        ZeroBits(t);
      }
    }
    ItemRoundTrip([], coeffs, out);
  }
}
