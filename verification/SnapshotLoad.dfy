/** Streaming a snapshot into column-major storage and reading a record back
    (nullifier-pir/src/snapshot.rs, ipir-sp/src/server.rs). */
module SnapshotLoad {
  import opened Wrappers
  import opened Layout
  import opened Ingest
  import opened Bits
  import opened Snapshot

  /** Row r of a row-major stream of coefficients. */
  function RowSlice(values: seq<nat>, r: nat): (s: seq<nat>)
    requires COEFFS_PER_ITEM * (r + 1) <= |values|
    ensures |s| == COEFFS_PER_ITEM && forall c :: 0 <= c < |s| ==> s[c] == values[COEFFS_PER_ITEM * r + c]
  {
    values[COEFFS_PER_ITEM * r..COEFFS_PER_ITEM * (r + 1)]
  }

  ghost predicate RowsHold(file: seq<nat>, records: nat, values: seq<nat>, n: nat) {
    && COEFFS_PER_ITEM * n <= |values|
    && forall r: nat :: r < n ==> COEFFS_PER_ITEM * (r + 1) <= |values| && RowHolds(file, records, r, RowSlice(values, r))
  }

  lemma RowsHoldAt(file: seq<nat>, records: nat, values: seq<nat>, n: nat, r: nat)
    requires RowsHold(file, records, values, n) && r < n
    ensures COEFFS_PER_ITEM * (r + 1) <= |values| && RowHolds(file, records, r, RowSlice(values, r))
  {
  }

  lemma RowsHoldLonger(file: seq<nat>, records: nat, values: seq<nat>, longer: seq<nat>, n: nat)
    requires RowsHold(file, records, values, n) && |values| <= |longer| && longer[..|values|] == values
    ensures RowsHold(file, records, longer, n)
  {
    hide RowHolds;
    forall r: nat | r < n
      ensures COEFFS_PER_ITEM * (r + 1) <= |longer| && RowHolds(file, records, r, RowSlice(longer, r))
    {
      RowsHoldAt(file, records, values, n, r);
      assert RowSlice(longer, r) == RowSlice(values, r);
    }
  }

  lemma RowsHoldStep(file: seq<nat>, records: nat, values: seq<nat>, n: nat)
    requires RowsHold(file, records, values, n) && COEFFS_PER_ITEM * (n + 1) <= |values|
    requires RowHolds(file, records, n, RowSlice(values, n))
    ensures RowsHold(file, records, values, n + 1)
  {
    hide RowHolds;
  }

  /** The stream so far: whole rows in place, and the current row's coefficients up to index at the end. */
  ghost predicate StreamHolds(file: seq<nat>, records: nat, values: seq<nat>, row: nat, index: nat, coeffs: seq<nat>) {
    if row == 0 then values == []
    else
      && index <= COEFFS_PER_ITEM == |coeffs| && |values| == COEFFS_PER_ITEM * (row - 1) + index
      && RowsHold(file, records, values, row - 1) && RowHolds(file, records, row - 1, coeffs)
      && values[COEFFS_PER_ITEM * (row - 1)..] == coeffs[..index]
  }

  lemma StreamSize(file: seq<nat>, records: nat, values: seq<nat>, row: nat, index: nat, coeffs: seq<nat>)
    requires StreamHolds(file, records, values, row, index, coeffs)
    ensures |values| == if row == 0 then 0 else COEFFS_PER_ITEM * (row - 1) + index
  {
  }

  /** A finished row joins the whole ones. */
  lemma RowFinished(file: seq<nat>, records: nat, values: seq<nat>, row: nat, coeffs: seq<nat>)
    requires row > 0 && StreamHolds(file, records, values, row, COEFFS_PER_ITEM, coeffs)
    ensures RowsHold(file, records, values, row)
  {
    hide RowHolds;
    var r := row - 1;
    assert RowSlice(values, r) == values[COEFFS_PER_ITEM * r..];
    assert coeffs[..COEFFS_PER_ITEM] == coeffs;
    RowsHoldStep(file, records, values, r);
  }

  lemma NoRows(file: seq<nat>, records: nat)
    ensures RowsHold(file, records, [], 0)
  {
  }

  /** The first coefficient of the next row. */
  lemma NewRow(file: seq<nat>, records: nat, values: seq<nat>, row: nat, coeffs: seq<nat>, next: seq<nat>)
    requires row == 0 || StreamHolds(file, records, values, row, COEFFS_PER_ITEM, coeffs)
    requires row == 0 ==> values == []
    requires |next| == COEFFS_PER_ITEM && RowHolds(file, records, row, next)
    ensures StreamHolds(file, records, values + [next[0]], row + 1, 1, next)
  {
    hide RowHolds;
    if row == 0 {
      NoRows(file, records);
    } else {
      RowFinished(file, records, values, row, coeffs);
    }
    var longer := values + [next[0]];
    RowsHoldLonger(file, records, values, longer, row);
    assert longer[COEFFS_PER_ITEM * row..] == next[..1];
  }

  lemma SameRow(file: seq<nat>, records: nat, values: seq<nat>, row: nat, index: nat, coeffs: seq<nat>)
    requires row > 0 && StreamHolds(file, records, values, row, index, coeffs) && index < COEFFS_PER_ITEM == |coeffs|
    ensures StreamHolds(file, records, values + [coeffs[index]], row, index + 1, coeffs)
  {
    hide RowHolds;
    var longer := values + [coeffs[index]];
    RowsHoldLonger(file, records, values, longer, row - 1);
    assert longer[COEFFS_PER_ITEM * (row - 1)..] == values[COEFFS_PER_ITEM * (row - 1)..] + [coeffs[index]];
    assert coeffs[..index + 1] == coeffs[..index] + [coeffs[index]];
  }

  /** Everything the iterator yields, in order: rows rows of 32768 coefficients, each row what it should be. */
  method Stream(file: seq<nat>, records: nat, rows: nat) returns (values: seq<nat>)
    requires |file| == NULLIFIER_BYTES * records && Bytes(file)
    ensures |values| == COEFFS_PER_ITEM * rows && RowsHold(file, records, values, rows)
  {
    hide RowHolds, CoeffsOf, StreamHolds, RowsHold;
    var iter := new CoeffIter(file, records, rows);
    values := [];
    StreamEmpty(file, records, iter.index, iter.coeffs[..]);
    while true
      invariant iter.Valid() && fresh(iter) && fresh(iter.item) && fresh(iter.coeffs)
      invariant iter.file == file && iter.records == records && iter.rows == rows
      invariant StreamHolds(file, records, values, iter.currentRow, iter.index, iter.coeffs[..])
      invariant |values| == iter.Emitted() <= COEFFS_PER_ITEM * rows
      invariant iter.currentRow <= rows && iter.index <= COEFFS_PER_ITEM
      decreases COEFFS_PER_ITEM * rows - |values|
    {
      ghost var row, index, coeffs := iter.currentRow, iter.index, iter.coeffs[..];
      var r := iter.Next();
      if r.None? {
        StreamSize(file, records, values, row, index, coeffs);
        break;
      }
      if index == COEFFS_PER_ITEM {
        NotStarted(file, records, values, row, index, coeffs);
        NewRow(file, records, values, row, coeffs, iter.coeffs[..]);
      } else {
        SameRow(file, records, values, row, index, coeffs);
      }
      values := values + [r.value];
      StreamSize(file, records, values, iter.currentRow, iter.index, iter.coeffs[..]);
    }
    if rows > 0 {
      LastRow(iter.currentRow, iter.index, rows, |values|);
      RowFinished(file, records, values, iter.currentRow, iter.coeffs[..]);
    } else {
      NotStarted(file, records, values, iter.currentRow, iter.index, iter.coeffs[..]);
      NoRows(file, records);
    }
  }

  lemma LastRow(row: nat, index: nat, rows: nat, emitted: nat)
    requires rows > 0 && row <= rows && index <= COEFFS_PER_ITEM && emitted == COEFFS_PER_ITEM * rows
    requires emitted == if row == 0 then 0 else COEFFS_PER_ITEM * (row - 1) + index
    ensures row == rows && index == COEFFS_PER_ITEM
  {
  }

  lemma StreamEmpty(file: seq<nat>, records: nat, index: nat, coeffs: seq<nat>)
    ensures StreamHolds(file, records, [], 0, index, coeffs)
  {
  }

  lemma NotStarted(file: seq<nat>, records: nat, values: seq<nat>, row: nat, index: nat, coeffs: seq<nat>)
    requires StreamHolds(file, records, values, row, index, coeffs)
    ensures row == 0 ==> values == []
  {
  }

  // ----- storage -----

  /** Row r read back from column-major storage with `padded` cells per column. */
  function StoredRow(stored: seq<int>, padded: nat, r: nat): (s: seq<int>)
    requires r < padded && |stored| == COEFFS_PER_ITEM * padded
    ensures |s| == COEFFS_PER_ITEM && forall c :: 0 <= c < |s| ==> s[c] == stored[Lane(COEFFS_PER_ITEM, padded, c, r)]
  {
    seq(COEFFS_PER_ITEM, c requires 0 <= c < COEFFS_PER_ITEM => stored[Lane(COEFFS_PER_ITEM, padded, c, r)])
  }

  /** The tiled ingest of the stream stores each plaintext row where column-major order puts it, and leaves the
      padding rows zero. */
  method Load(file: seq<nat>, records: nat, rows: nat, padded: nat) returns (stored: array<int>, ghost values: seq<nat>)
    requires |file| == NULLIFIER_BYTES * records && Bytes(file) && rows <= padded
    ensures fresh(stored) && stored.Length == COEFFS_PER_ITEM * padded
    ensures |values| == COEFFS_PER_ITEM * rows && RowsHold(file, records, values, rows)
    ensures forall r: nat :: r < rows ==>
              COEFFS_PER_ITEM * (r + 1) <= |values| && StoredRow(stored[..], padded, r) == RowSlice(values, r)
    ensures forall r: nat :: rows <= r < padded ==> StoredRow(stored[..], padded, r) == seq(COEFFS_PER_ITEM, _ => 0)
  {
    hide RowsHold, Progress, Lane;
    var stream := Stream(file, records, rows);
    values := stream;
    stored := new int[COEFFS_PER_ITEM * padded](_ => 0);
    ghost var init := stored[..];
    Commutes(rows);
    var max := IngestRowMajor(stream, stored, rows, COEFFS_PER_ITEM, padded);
    forall r: nat | r < rows
      ensures COEFFS_PER_ITEM * (r + 1) <= |values| && StoredRow(stored[..], padded, r) == RowSlice(values, r)
    {
      StoredRowIs(stored[..], init, stream, rows, padded, r);
    }
    forall r: nat | rows <= r < padded
      ensures StoredRow(stored[..], padded, r) == seq(COEFFS_PER_ITEM, _ => 0)
    {
      PaddingRowIs(stored[..], init, stream, rows, padded, r);
    }
  }

  lemma Commutes(rows: nat)
    ensures COEFFS_PER_ITEM * rows == rows * COEFFS_PER_ITEM
  {
  }

  lemma StoredRowIs(stored: seq<int>, init: seq<int>, values: seq<nat>, rows: nat, padded: nat, r: nat)
    requires r < rows <= padded && |values| == rows * COEFFS_PER_ITEM == COEFFS_PER_ITEM * rows
    requires Progress(stored, init, values, rows, COEFFS_PER_ITEM, padded, rows, 0, 0)
    ensures |stored| == COEFFS_PER_ITEM * padded && COEFFS_PER_ITEM * (r + 1) <= |values|
    ensures StoredRow(stored, padded, r) == RowSlice(values, r)
  {
    hide Progress, Lane;
    ProgressSize(stored, init, values, rows, COEFFS_PER_ITEM, padded, rows, 0, 0);
    forall c | 0 <= c < COEFFS_PER_ITEM
      ensures StoredRow(stored, padded, r)[c] == RowSlice(values, r)[c]
    {
      ProgressAt(stored, init, values, rows, COEFFS_PER_ITEM, padded, rows, 0, 0, c, r);
      LaneIs(rows, COEFFS_PER_ITEM, r, c);
    }
  }

  lemma PaddingRowIs(stored: seq<int>, init: seq<int>, values: seq<nat>, rows: nat, padded: nat, r: nat)
    requires rows <= r < padded && |values| == rows * COEFFS_PER_ITEM && forall x :: 0 <= x < |init| ==> init[x] == 0
    requires Progress(stored, init, values, rows, COEFFS_PER_ITEM, padded, rows, 0, 0)
    ensures |stored| == COEFFS_PER_ITEM * padded
    ensures StoredRow(stored, padded, r) == seq(COEFFS_PER_ITEM, _ => 0)
  {
    hide Progress, Lane;
    ProgressSize(stored, init, values, rows, COEFFS_PER_ITEM, padded, rows, 0, 0);
    forall c | 0 <= c < COEFFS_PER_ITEM
      ensures StoredRow(stored, padded, r)[c] == 0
    {
      ProgressAt(stored, init, values, rows, COEFFS_PER_ITEM, padded, rows, 0, 0, c, r);
    }
  }

  /** From file to record: load the snapshot, read back the stored row, decode it, take the record at its offset. */
  method RecordTrip(file: seq<nat>, records: nat, rows: nat, padded: nat, i: nat) returns (record: Option<seq<nat>>)
    requires |file| == 32 * records && Bytes(file) && i < records && (records + 1791) / 1792 <= rows <= padded
    ensures record == Some(file[32 * i..32 * (i + 1)])
  {
    hide RowHolds, FieldsWritten, ExtractNullifier, Lane, RowsHold;
    var stored, values := Load(file, records, rows, padded);
    RowInside(records, i);
    RowsHoldAt(file, records, values, rows, RecordRow(i));
    var row: seq<nat> := StoredRow(stored[..], padded, RecordRow(i));
    var out := DecodeItem(row);
    RecordRecovered(file, records, i, row, out);
    record := ExtractNullifier(out, i % NULLIFIERS_PER_ITEM);
  }
}
