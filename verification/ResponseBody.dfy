/** Response bodies on the wire: rescale, bit-pack, unpack, rescale back (ipir-sp/src/modulus_switch.rs). */
module ResponseBody {
  import opened MachineWords
  import opened Galois
  import opened Bits
  import opened Rounding

  function RescaleAll(xs: seq<nat>, qIn: int, qOut: int): (r: seq<nat>)
    requires 0 < qIn < WORD && 0 < qOut < WORD
    ensures |r| == |xs| && forall i :: 0 <= i < |xs| ==> r[i] == Rescale(xs[i], qIn, qOut)
  {
    seq(|xs|, i requires 0 <= i < |xs| => RescaleNat(xs[i], qIn, qOut))
  }

  function RescaleNat(x: nat, qIn: int, qOut: int): (r: nat)
    requires 0 < qIn < WORD && 0 < qOut < WORD
    ensures r == Rescale(x, qIn, qOut)
  {
    Rescale(x, qIn, qOut)
  }

  /** Residues modulo m fit the width chosen for m. */
  lemma ResiduesFit(xs: seq<nat>, qIn: int, m: int)
    requires 0 < qIn < WORD && 1 < m < WORD
    ensures 0 < ModulusBits(m) <= 64 && Fit(RescaleAll(xs, qIn, m), ModulusBits(m))
  {
    hide Rescale;
    BitLengthBounds(m - 1);
    WidthOfWord(m);
    forall i | 0 <= i < |xs|
      ensures RescaleAll(xs, qIn, m)[i] < Pow(2, ModulusBits(m))
    {
      assert RescaleAll(xs, qIn, m)[i] == Rescale(xs[i], qIn, m);
    }
  }

  /** serialize_rlwe_response_bodies, one body, with the casts of rescale. */
  method SerializeBody(row: seq<nat>, q: int, q1: int) returns (bytes: seq<nat>)
    requires 0 < q < WORD && 1 < q1 < WORD
    ensures ModulusBits(q1) > 0 && Encodes(bytes, RescaleAll(row, q, q1), ModulusBits(q1))
  {
    hide Encodes, ModulusBits;
    ResiduesFit(row, q, q1);
    bytes := Encode(RescaleAll(row, q, q1), ModulusBits(q1));
  }

  /** recover_response_body: whatever was serialized comes back rescaled twice, coefficient by coefficient. */
  method RecoverBody(data: seq<nat>, degree: nat, q1: int, q: int) returns (row: seq<nat>)
    requires 0 < q < WORD && 1 < q1 < WORD && Bytes(data)
    ensures forall sent: seq<nat> :: |sent| == degree && SentAs(data, sent, q, q1) ==> row == RescaleAll(RescaleAll(sent, q, q1), q1, q)
  {
    hide Encodes, ModulusBits, Words, PackedLen;
    ResiduesFit([], q, q1);
    var bits := ModulusBits(q1);
    var words := Unpack(data, bits);
    var n := if degree < |words| then degree else |words|;
    PrefixWords(data, bits, words, n);
    var kept := words[..n];
    forall sent: seq<nat> | |sent| == degree && SentAs(data, sent, q, q1)
      ensures kept == RescaleAll(sent, q, q1)
    {
      ResiduesFit(sent, q, q1);
      EncodesParts(data, RescaleAll(sent, q, q1), bits);
      EnoughWords(degree, bits);
      DecodesBack(data, RescaleAll(sent, q, q1), kept, bits);
    }
    row := RescaleAll(kept, q1, q);
  }

  ghost predicate SentAs(data: seq<nat>, sent: seq<nat>, q: int, q1: int)
    requires 0 < q < WORD && 1 < q1 < WORD
  {
    ModulusBits(q1) > 0 && Encodes(data, RescaleAll(sent, q, q1), ModulusBits(q1))
  }

  /** The rounding a response body suffers, which the decoder's error budget has to absorb. */
  lemma BodyError(sent: seq<nat>, q: int, q1: int, i: nat)
    requires 0 < q < HALF && 1 < q1 < HALF && i < |sent|
    ensures 2 * q1 * Distance(q, RescaleAll(RescaleAll(sent, q, q1), q1, q)[i], sent[i]) <= q + q1
  {
    hide Rescale, Distance;
    RescaleTrip(sent[i], q, q1);
  }
}
