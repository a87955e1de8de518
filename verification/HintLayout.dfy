/** The row-major hint and the CRS blocks cut from it (ipir-sp/src/server.rs). */
module HintLayout {
  import opened Modular
  import opened Ring
  import opened Layout

  /** The tiled transpose of generate_hint_from_query_polys. */
  method GenerateHint(columns: seq<Poly>, d: nat, cols: nat) returns (hint: array<int>)
    requires |columns| == cols && forall c :: 0 <= c < cols ==> |columns[c]| == d
    ensures fresh(hint) && hint.Length == d * cols
    ensures forall k, c :: 0 <= k < d && 0 <= c < cols ==> hint[Lane(d, cols, k, c)] == columns[c][k]
  {
    hide *;
    LargerProduct(d, 0, cols);
    hint := new int[d * cols](_ => 0);
    var colBase := 0;
    while colBase < cols
      invariant 0 <= colBase
      invariant forall k, c :: 0 <= k < d && 0 <= c < cols && c < colBase ==> hint[Lane(d, cols, k, c)] == columns[c][k]
    {
      var colEnd := if colBase + 256 < cols then colBase + 256 else cols;
      var coeffBase := 0;
      while coeffBase < d
        invariant 0 <= coeffBase
        invariant forall k, c :: 0 <= k < d && 0 <= c < colBase ==> hint[Lane(d, cols, k, c)] == columns[c][k]
        invariant forall k, c :: 0 <= k < d && k < coeffBase && colBase <= c < colEnd ==> hint[Lane(d, cols, k, c)] == columns[c][k]
      {
        var coeffEnd := if coeffBase + 256 < d then coeffBase + 256 else d;
        for coeff := coeffBase to coeffEnd
          invariant forall k, c :: 0 <= k < d && 0 <= c < colBase ==> hint[Lane(d, cols, k, c)] == columns[c][k]
          invariant forall k, c :: 0 <= k < coeff && colBase <= c < colEnd ==> hint[Lane(d, cols, k, c)] == columns[c][k]
        {
          PutRow(hint, columns, d, cols, coeff, colBase, colEnd);
        }
        coeffBase := coeffBase + 256;
      }
      colBase := colBase + 256;
    }
  }

  /** One contiguous run of a hint row. */
  method PutRow(hint: array<int>, columns: seq<Poly>, d: nat, cols: nat, coeff: nat, colBase: nat, colEnd: nat)
    requires |columns| == cols && (forall c :: 0 <= c < cols ==> |columns[c]| == d) && hint.Length == d * cols
    requires coeff < d && colBase <= colEnd <= cols
    modifies hint
    ensures forall c :: colBase <= c < colEnd ==> hint[Lane(d, cols, coeff, c)] == columns[c][coeff]
    ensures forall k, c :: 0 <= k < d && 0 <= c < cols && (k != coeff || !(colBase <= c < colEnd)) ==>
              hint[Lane(d, cols, k, c)] == old(hint[Lane(d, cols, k, c)])
  {
    hide *;
    ghost var before := hint[..];
    NextRow(coeff, d, cols);
    LargerProduct(coeff, 0, cols);
    var base := coeff * cols;
    for c := colBase to colEnd
      invariant forall x :: base + colBase <= x < base + c ==> hint[x] == columns[x - base][coeff]
      invariant forall x :: 0 <= x < base + colBase || base + c <= x < hint.Length ==> hint[x] == before[x]
    {
      hint[base + c] := columns[c][coeff];
    }
    forall c | colBase <= c < colEnd
      ensures hint[Lane(d, cols, coeff, c)] == columns[c][coeff]
    {
      LaneIs(d, cols, coeff, c);
    }
    forall k, c | 0 <= k < d && 0 <= c < cols && (k != coeff || !(colBase <= c < colEnd))
      ensures hint[Lane(d, cols, k, c)] == before[Lane(d, cols, k, c)]
    {
      LaneApart(d, cols, coeff, k, c);
      LaneIs(d, cols, coeff, 0);
    }
  }

  /** extract_crs_block: row r of block b is hint column b d + r, so assembling blocks from the columns directly
      is the same. */
  method ExtractCrsBlock(q: int, hint: seq<int>, columns: seq<Poly>, d: nat, cols: nat, block: nat) returns (rows: seq<Poly>)
    requires q > 0 && |hint| == d * cols && |columns| == cols && block * d + d <= cols && 0 <= block * d
    requires forall c :: 0 <= c < cols ==> |columns[c]| == d && Canon(q, columns[c])
    requires forall k, c :: 0 <= k < d && 0 <= c < cols ==> hint[Lane(d, cols, k, c)] == columns[c][k]
    ensures rows == columns[block * d..block * d + d]
  {
    hide Lane;
    var start := block * d;
    rows := [];
    for r := 0 to d
      invariant |rows| == r && forall i :: 0 <= i < r ==> rows[i] == columns[start + i]
    {
      var row: seq<int> := [];
      for coeff := 0 to d
        invariant |row| == coeff && row == columns[start + r][..coeff]
      {
        LaneIs(d, cols, coeff, start + r);
        var x := hint[coeff * cols + (start + r)];
        assert x == columns[start + r][coeff];
        ModSmall(x, q);
        row := row + [x % q];
      }
      rows := rows + [row];
    }
  }
}
