/** Blocked ingestion of a row-major database into column-major storage (ipir-sp/src/server.rs). */
module Ingest {
  import opened Modular
  import opened Layout

  /** After rows below rb, and columns below cb of the next tr rows, everything else still as it was. */
  ghost predicate Progress(st: seq<int>, init: seq<int>, values: seq<int>, rows: nat, cols: nat, padded: nat, rb: nat, tr: nat, cb: nat)
    requires rb + tr <= rows <= padded && |values| == rows * cols
  {
    && |st| == |init| == cols * padded
    && forall c, r :: 0 <= c < cols && 0 <= r < padded ==>
         st[Lane(cols, padded, c, r)]
         == if r < rb || (r < rb + tr && c < cb) then values[Lane(rows, cols, r, c)] else init[Lane(cols, padded, c, r)]
  }

  lemma ProgressAt(st: seq<int>, init: seq<int>, values: seq<int>, rows: nat, cols: nat, padded: nat, rb: nat, tr: nat, cb: nat, c: nat, r: nat)
    requires rb + tr <= rows <= padded && |values| == rows * cols && c < cols && r < padded
    requires Progress(st, init, values, rows, cols, padded, rb, tr, cb)
    ensures |st| == |init| == cols * padded
    ensures st[Lane(cols, padded, c, r)]
            == if r < rb || (r < rb + tr && c < cb) then values[Lane(rows, cols, r, c)] else init[Lane(cols, padded, c, r)]
  {
  }

  lemma ProgressFrom(st: seq<int>, init: seq<int>, values: seq<int>, rows: nat, cols: nat, padded: nat, rb: nat, tr: nat, cb: nat)
    requires rb + tr <= rows <= padded && |values| == rows * cols && |st| == |init| == cols * padded
    requires forall c, r :: 0 <= c < cols && 0 <= r < padded ==>
               st[Lane(cols, padded, c, r)]
               == if r < rb || (r < rb + tr && c < cb) then values[Lane(rows, cols, r, c)] else init[Lane(cols, padded, c, r)]
    ensures Progress(st, init, values, rows, cols, padded, rb, tr, cb)
  {
  }

  lemma ProgressSize(st: seq<int>, init: seq<int>, values: seq<int>, rows: nat, cols: nat, padded: nat, rb: nat, tr: nat, cb: nat)
    requires rb + tr <= rows <= padded && |values| == rows * cols && Progress(st, init, values, rows, cols, padded, rb, tr, cb)
    ensures |st| == |init| == cols * padded
  {
  }

  lemma TileDone(st: seq<int>, init: seq<int>, values: seq<int>, rows: nat, cols: nat, padded: nat, rb: nat, tr: nat)
    requires rb + tr <= rows <= padded && |values| == rows * cols && Progress(st, init, values, rows, cols, padded, rb, tr, cols)
    ensures Progress(st, init, values, rows, cols, padded, rb + tr, 0, 0)
  {
    hide Lane;
  }

  lemma TileStart(st: seq<int>, init: seq<int>, values: seq<int>, rows: nat, cols: nat, padded: nat, rb: nat, tr: nat)
    requires rb + tr <= rows <= padded && |values| == rows * cols && Progress(st, init, values, rows, cols, padded, rb, 0, 0)
    ensures Progress(st, init, values, rows, cols, padded, rb, tr, 0)
  {
    hide Lane;
  }

  lemma NothingYet(init: seq<int>, values: seq<int>, rows: nat, cols: nat, padded: nat)
    requires rows <= padded && |values| == rows * cols && |init| == cols * padded
    ensures Progress(init, init, values, rows, cols, padded, 0, 0, 0)
  {
    hide Lane;
  }

  /** The staged tile: entry (offset, c) is row rb + offset of the input. */
  ghost predicate Staged(staging: seq<int>, values: seq<int>, rows: nat, cols: nat, rb: nat, tr: nat)
    requires rb + tr <= rows && |values| == rows * cols
  {
    && |staging| >= tr * cols
    && forall o, c :: 0 <= o < tr && 0 <= c < cols ==> staging[Lane(tr, cols, o, c)] == values[Lane(rows, cols, rb + o, c)]
  }

  lemma StagedAt(staging: seq<int>, values: seq<int>, rows: nat, cols: nat, rb: nat, tr: nat, o: nat, c: nat)
    requires rb + tr <= rows && |values| == rows * cols && Staged(staging, values, rows, cols, rb, tr) && o < tr && c < cols
    ensures |staging| >= tr * cols && staging[Lane(tr, cols, o, c)] == values[Lane(rows, cols, rb + o, c)]
  {
  }

  lemma TileOffsets(rows: nat, cols: nat, rb: nat, tr: nat, o: nat, c: nat)
    requires rb + tr <= rows && o < tr && c < cols
    ensures Lane(rows, cols, rb + o, c) == rb * cols + Lane(tr, cols, o, c)
  {
    LaneIs(rows, cols, rb + o, c);
    LaneIs(tr, cols, o, c);
    Distribute(rb, o, cols);
  }

  lemma StagedFrom(staging: seq<int>, values: seq<int>, rows: nat, cols: nat, rb: nat, tr: nat, pos: nat)
    requires rb + tr <= rows && |values| == rows * cols && pos == rb * cols && tr * cols <= |staging|
    requires pos + tr * cols <= |values|
    requires forall k :: 0 <= k < tr * cols ==> staging[k] == values[pos + k]
    ensures Staged(staging, values, rows, cols, rb, tr)
  {
    hide Lane;
    forall o, c | 0 <= o < tr && 0 <= c < cols
      ensures staging[Lane(tr, cols, o, c)] == values[Lane(rows, cols, rb + o, c)]
    {
      TileOffsets(rows, cols, rb, tr, o, c);
    }
  }

  lemma TileFits(rows: nat, cols: nat, rb: nat, tr: nat)
    requires rb + tr <= rows
    ensures rb * cols + tr * cols == (rb + tr) * cols <= rows * cols && rb * cols >= 0 && tr * cols >= 0
  {
    Distribute(rb, tr, cols);
    LargerProduct(rows, rb + tr, cols);
    LargerProduct(rb, 0, cols);
    LargerProduct(tr, 0, cols);
  }

  /** Writes one column's share of the tile: tr contiguous cells. */
  method PutColumn(stored: array<int>, staging: seq<int>, ghost init: seq<int>, ghost values: seq<int>,
                   rows: nat, cols: nat, padded: nat, rb: nat, tr: nat, col: nat)
    requires rb + tr <= rows <= padded && |values| == rows * cols && col < cols
    requires Progress(stored[..], init, values, rows, cols, padded, rb, tr, col)
    requires Staged(staging, values, rows, cols, rb, tr)
    modifies stored
    ensures Progress(stored[..], init, values, rows, cols, padded, rb, tr, col + 1)
  {
    hide *;
    ghost var before := stored[..];
    ProgressSize(before, init, values, rows, cols, padded, rb, tr, col);
    var base := col * padded + rb;
    NextRow(col, cols, padded);
    LargerProduct(col, 0, padded);
    for offset := 0 to tr
      invariant forall x :: 0 <= x < base || base + offset <= x < stored.Length ==> stored[x] == before[x]
      invariant forall x :: base <= x < base + offset ==> stored[x] == values[Lane(rows, cols, rb + (x - base), col)]
    {
      StagedAt(staging, values, rows, cols, rb, tr, offset, col);
      LaneIs(tr, cols, offset, col);
      stored[base + offset] := staging[offset * cols + col];
    }
    forall c, r | 0 <= c < cols && 0 <= r < padded
      ensures stored[Lane(cols, padded, c, r)]
              == if r < rb || (r < rb + tr && c < col + 1) then values[Lane(rows, cols, r, c)] else init[Lane(cols, padded, c, r)]
    {
      ProgressAt(before, init, values, rows, cols, padded, rb, tr, col, c, r);
      LaneIs(cols, padded, c, r);
      LaneIs(cols, padded, col, 0);
      LaneApart(cols, padded, col, c, r);
    }
    ProgressFrom(stored[..], init, values, rows, cols, padded, rb, tr, col + 1);
  }

  /** m is the largest value seen, or zero. */
  predicate RunningMax(values: seq<int>, n: nat, m: int)
    requires n <= |values|
  {
    m >= 0 && (forall k :: 0 <= k < n ==> values[k] <= m) && (m > 0 ==> exists k :: 0 <= k < n && values[k] == m)
  }

  /** ingest_row_major: every cell holds what the naive scatter would put there, and padding is untouched. */
  method IngestRowMajor(values: seq<int>, stored: array<int>, rows: nat, cols: nat, padded: nat) returns (elementMax: int)
    requires rows <= padded && |values| == rows * cols && stored.Length == cols * padded
    modifies stored
    ensures Progress(stored[..], old(stored[..]), values, rows, cols, padded, rows, 0, 0)
    ensures RunningMax(values, |values|, elementMax)
  {
    hide *;
    ghost var init := stored[..];
    NothingYet(init, values, rows, cols, padded);
    elementMax := 0;
    MaxNone(values);
    LargerProduct(64, 0, cols);
    var staging := new int[64 * cols](_ => 0);
    var rb, pos := 0, 0;
    while rb < rows
      invariant 0 <= rb <= rows && pos == rb * cols && 0 <= pos <= |values|
      invariant staging.Length == 64 * cols && fresh(staging)
      invariant RunningMax(values, pos, elementMax)
      invariant Progress(stored[..], init, values, rows, cols, padded, rb, 0, 0)
    {
      var tr := if 64 < rows - rb then 64 else rows - rb;
      TileFits(rows, cols, rb, tr);
      LargerProduct(64, tr, cols);
      var start := pos;
      for k := 0 to tr * cols
        invariant pos == start + k && RunningMax(values, pos, elementMax)
        invariant forall i :: 0 <= i < k ==> staging[i] == values[start + i]
        invariant Progress(stored[..], init, values, rows, cols, padded, rb, 0, 0)
      {
        MaxStep(values, pos, elementMax);
        elementMax := if values[pos] > elementMax then values[pos] else elementMax;
        staging[k] := values[pos];
        pos := pos + 1;
      }
      StagedFrom(staging[..], values, rows, cols, rb, tr, start);
      TileStart(stored[..], init, values, rows, cols, padded, rb, tr);
      var colBase := 0;
      while colBase < cols
        invariant 0 <= colBase
        invariant Staged(staging[..], values, rows, cols, rb, tr)
        invariant Progress(stored[..], init, values, rows, cols, padded, rb, tr, if colBase < cols then colBase else cols)
      {
        var colEnd := if colBase + 512 < cols then colBase + 512 else cols;
        for col := colBase to colEnd
          invariant Staged(staging[..], values, rows, cols, rb, tr)
          invariant Progress(stored[..], init, values, rows, cols, padded, rb, tr, col)
        {
          PutColumn(stored, staging[..], init, values, rows, cols, padded, rb, tr, col);
        }
        colBase := colBase + 512;
      }
      TileDone(stored[..], init, values, rows, cols, padded, rb, tr);
      rb := rb + tr;
    }
  }

  lemma MaxNone(values: seq<int>)
    ensures RunningMax(values, 0, 0)
  {
  }

  lemma MaxStep(values: seq<int>, n: nat, m: int)
    requires n < |values| && RunningMax(values, n, m)
    ensures RunningMax(values, n + 1, if values[n] > m then values[n] else m)
  {
    if values[n] <= m && m > 0 {
      var k :| 0 <= k < n && values[k] == m;
    }
  }
}
