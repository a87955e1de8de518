/** Queries and published masks as bytes (ipir-sp/src/client.rs, ipir-sp/src/modulus_switch.rs). */
module Transport {
  import opened Wrappers
  import opened MachineWords
  import opened Galois
  import opened Bits
  import opened Rounding

  predicate Below(xs: seq<nat>, q: int) {
    forall i :: 0 <= i < |xs| ==> xs[i] < q
  }

  /** A word of the wire form of a query coefficient fits its width. */
  lemma DownBelow(x: nat, q: int, bits: nat)
    requires q > 1 && x < q
    ensures 0 <= CoeffDown(x, q, bits) < Pow(2, bits)
  {
    if bits >= ModulusBits(q) {
      BitLengthBounds(q - 1);
      PowMonotone(ModulusBits(q), bits);
    } else {
      var Y := DownParts(x, q, bits);
    }
  }

  function Down(x: nat, q: int, bits: nat): (r: nat)
    requires q > 1 && x < q
    ensures r == CoeffDown(x, q, bits)
  {
    DownBelow(x, q, bits);
    CoeffDown(x, q, bits)
  }

  function Downs(xs: seq<nat>, q: int, bits: nat): (r: seq<nat>)
    requires q > 1 && Below(xs, q)
    ensures |r| == |xs| && forall i :: 0 <= i < |xs| ==> xs[i] < q && r[i] == CoeffDown(xs[i], q, bits)
  {
    seq(|xs|, i requires 0 <= i < |xs| => Down(xs[i], q, bits))
  }

  function Ups(ys: seq<nat>, q: int, bits: nat): (r: seq<int>)
    requires q > 1 && bits >= 1
    ensures |r| == |ys| && forall i :: 0 <= i < |ys| ==> r[i] == CoeffUp(ys[i], q, bits)
  {
    seq(|ys|, i requires 0 <= i < |ys| => CoeffUp(ys[i], q, bits))
  }

  lemma DownsFit(xs: seq<nat>, q: int, bits: nat)
    requires q > 1 && Below(xs, q)
    ensures Fit(Downs(xs, q, bits), bits)
  {
    hide CoeffDown;
    forall i | 0 <= i < |xs|
      ensures Downs(xs, q, bits)[i] < Pow(2, bits)
    {
      DownBelow(xs[i], q, bits);
    }
  }

  /** to_switched_bytes. */
  method SendQuery(query: seq<nat>, q: int, bits: nat) returns (bytes: seq<nat>)
    requires q > 1 && bits >= 1 && Below(query, q)
    ensures Encodes(bytes, Downs(query, q, bits), bits)
  {
    bytes := Encode(Downs(query, q, bits), bits);
  }

  /** from_switched_bytes: accepts exactly the right length, and lifts whatever was sent. */
  method ReceiveQuery(bytes: seq<nat>, count: nat, q: int, bits: nat) returns (r: Result<seq<int>>)
    requires q > 1 && 1 <= bits <= 64 && Bytes(bytes)
    ensures r.Ok? <==> count * bits <= 8 * |bytes| < count * bits + 8
    ensures r.Ok? ==> |r.value| == count
    ensures forall sent: seq<nat> :: |sent| == count && Below(sent, q) && Encodes(bytes, Downs(sent, q, bits), bits) ==>
              r == Ok(Ups(Downs(sent, q, bits), q, bits))
  {
    hide Encodes, Words, PackedLen, CoeffDown, CoeffUp, Below;
    PackedLenLeast(count, bits);
    forall sent: seq<nat> | |sent| == count && Below(sent, q) && Encodes(bytes, Downs(sent, q, bits), bits)
      ensures |bytes| == PackedLen(count, bits)
    {
      EncodesParts(bytes, Downs(sent, q, bits), bits);
    }
    if |bytes| != PackedLen(count, bits) {
      return Err(PreprocessMismatch);
    }
    var words := Unpack(bytes, bits);
    EnoughWords(count, bits);
    PrefixWords(bytes, bits, words, count);
    var kept := words[..count];
    forall sent: seq<nat> | |sent| == count && Below(sent, q) && Encodes(bytes, Downs(sent, q, bits), bits)
      ensures kept == Downs(sent, q, bits)
    {
      DownsFit(sent, q, bits);
      DecodesBack(bytes, Downs(sent, q, bits), kept, bits);
    }
    r := Ok(Ups(kept, q, bits));
  }

  lemma ResiduesFitWidth(xs: seq<nat>, q: int)
    requires q > 1 && Below(xs, q)
    ensures ModulusBits(q) > 0 && Fit(xs, ModulusBits(q))
  {
    BitLengthBounds(q - 1);
  }

  /** published_c1_rows, one row: exact, at the width of the modulus. */
  method PublishC1(row: seq<nat>, q: int) returns (bytes: seq<nat>)
    requires q > 1 && Below(row, q)
    ensures ModulusBits(q) > 0 && Encodes(bytes, row, ModulusBits(q))
  {
    hide Encodes, ModulusBits;
    ResiduesFitWidth(row, q);
    bytes := Encode(row, ModulusBits(q));
  }

  /** recover_published_c1, one row: whatever was published comes back unchanged. */
  method RecoverC1(bytes: seq<nat>, degree: nat, q: int) returns (row: seq<nat>)
    requires 1 < q < WORD && Bytes(bytes)
    ensures ModulusBits(q) > 0
    ensures forall sent: seq<nat> :: |sent| == degree && Below(sent, q) && Encodes(bytes, sent, ModulusBits(q)) ==> row == sent
  {
    hide Encodes, ModulusBits, Words, PackedLen, Below;
    ResiduesFitWidth([], q);
    WidthOfWord(q);
    var bits := ModulusBits(q);
    var words := Unpack(bytes, bits);
    var n := if degree < |words| then degree else |words|;
    PrefixWords(bytes, bits, words, n);
    row := words[..n];
    forall sent: seq<nat> | |sent| == degree && Below(sent, q) && Encodes(bytes, sent, bits)
      ensures row == sent
    {
      ResiduesFitWidth(sent, q);
      EncodesParts(bytes, sent, bits);
      EnoughWords(degree, bits);
      DecodesBack(bytes, sent, row, bits);
    }
  }
}
