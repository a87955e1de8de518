/** Native profiles, request framing and published masks
    (ipir-native-client/src/lib.rs, ipir-sp/src/native.rs). */
module NativeWire {
  import opened Wrappers
  import opened Modular
  import opened Galois
  import opened Bits
  import R = Rounding

  // ----- profiles -----

  datatype Packing = Packing(d: nat, qBits: nat, pBits: nat, gadgetBits: nat, ell: nat, gaussian: bool) {
    predicate Ok() {
      2 <= d <= 2048 && PowerOfTwo(d) && 16 <= qBits <= 56 && 0 < pBits < qBits && 0 < gadgetBits && 1 <= ell <= 8
    }
  }

  datatype Floors = Floors(twoQuery: nat, oneQuery: nat, twoMask: Option<nat>, oneMask: Option<nat>, twoResponse: nat)

  function DefaultResponse(k: Packing): (r: nat) {
    if k.pBits + 6 < k.qBits then k.pBits + 6 else k.qBits
  }

  function FloorsOf(k: Packing): (f: Floors) {
    if k.pBits == 16 && k.gadgetBits == 19 && k.ell == 2 then Floors(43, 43, Some(27), Some(28), DefaultResponse(k))
    else if k.pBits == 8 && ((k.gadgetBits == 19 && k.ell == 2) || (k.gadgetBits == 27 && k.ell == 1)) then
      Floors(28, 49, Some(22), None, 10)
    else Floors(49, 49, None, None, DefaultResponse(k))
  }

  predicate MaskAllowed(bits: nat, floor: Option<nat>) {
    bits == 64 || bits == 54 || (floor.Some? && floor.value <= bits <= 32)
  }

  datatype Profile = Profile(pack: Packing, rows: nat, cols: nat, queryBits: nat, responseBits: nat, khBits: nat,
                             twoMask: bool, maskBits: nat, dithered: bool)

  /** Nonzero multiples of d within the size limit, Gaussian secrets, at most 16 plaintext bits. */
  predicate ShapeOk(k: Packing, rows: nat, cols: nat)
    requires k.d > 0
  {
    && rows > 0 && cols > 0 && rows % k.d == 0 && cols % k.d == 0
    && rows * cols <= (if k.pBits <= 8 then 0x8000_0000 else 0x4000_0000) && k.gaussian && k.pBits <= 16
  }

  function DefaultQuery(k: Packing): (r: nat) {
    if 49 < k.qBits then 49 else k.qBits
  }

  /** NativeProfile::new. */
  function New(k: Packing, rows: nat, cols: nat): (r: Result<Profile>)
    requires k.Ok()
  {
    if !ShapeOk(k, rows, cols) then Err(Mismatch)
    else Ok(Profile(k, rows, cols, DefaultQuery(k), DefaultResponse(k), k.qBits, false, 64, false))
  }

  datatype Call = KhBits(bits: nat) | TwoMaskOutput | PublishedMaskBits(bits: nat) | DitheredQueryBits(bits: nat) | ResponseBits(bits: nat)

  /** One builder call. */
  function Build(P: Profile, c: Call): (r: Result<Profile>) {
    var f, full := FloorsOf(P.pack), P.pack.qBits;
    match c
    case KhBits(bits) =>
      if P.twoMask && bits != full then Err(Mismatch)
      else if bits != full && !(40 <= bits < full) then Err(Mismatch)
      else Ok(P.(khBits := bits))
    case TwoMaskOutput =>
      if P.khBits != full then Err(Mismatch)
      else if !MaskAllowed(P.maskBits, f.twoMask) then Err(Mismatch)
      else Ok(P.(twoMask := true))
    case PublishedMaskBits(bits) =>
      if bits != 64 && (full != 54 || !MaskAllowed(bits, if P.twoMask then f.twoMask else f.oneMask)) then Err(Mismatch)
      else Ok(P.(maskBits := bits))
    case DitheredQueryBits(bits) =>
      if full != 54 || !((if P.twoMask then f.twoQuery else f.oneQuery) <= bits <= 49) then Err(Mismatch)
      else Ok(P.(queryBits := bits, dithered := true))
    case ResponseBits(bits) =>
      var default := DefaultResponse(P.pack);
      if !((if P.twoMask then f.twoResponse else default) <= bits <= default) || (bits != default && full != 54) then Err(Mismatch)
      else Ok(P.(responseBits := bits))
  }

  /** A whole sequence of builder calls; the first rejection ends it. */
  function BuildAll(P: Profile, calls: seq<Call>): (r: Result<Profile>)
    decreases |calls|
  {
    if calls == [] then Ok(P)
    else
      var next := Build(P, calls[0]);
      if next.Err? then Err(Mismatch) else BuildAll(next.value, calls[1..])
  }

  /** The mode rules: what every later stage relies on. */
  predicate Kept(P: Profile) {
    var k, f := P.pack, FloorsOf(P.pack);
    && k.Ok() && ShapeOk(k, P.rows, P.cols)
    && (P.khBits == k.qBits || (!P.twoMask && 40 <= P.khBits < k.qBits))
    && (if P.dithered then k.qBits == 54 && (if P.twoMask then f.twoQuery else f.oneQuery) <= P.queryBits <= 49
        else P.queryBits == DefaultQuery(k))
    && (if P.twoMask then f.twoResponse else DefaultResponse(k)) <= P.responseBits <= DefaultResponse(k)
    && (P.responseBits == DefaultResponse(k) || k.qBits == 54)
    && (P.maskBits == 64 || (k.qBits == 54 && MaskAllowed(P.maskBits, if P.twoMask then f.twoMask else f.oneMask)))
  }

  lemma NewKept(k: Packing, rows: nat, cols: nat)
    requires k.Ok()
    ensures var r := New(k, rows, cols); r.Ok? ==> Kept(r.value)
  {
  }

  lemma BuildKept(P: Profile, c: Call)
    requires Kept(P)
    ensures var r := Build(P, c); r.Ok? ==> Kept(r.value) && r.value.pack == P.pack
  {
  }

  /** After any sequence of builder calls on a new profile the mode rules hold. */
  lemma {:induction false} RunKept(P: Profile, calls: seq<Call>)
    requires Kept(P)
    ensures BuildAll(P, calls).Ok? ==> Kept(BuildAll(P, calls).value) && BuildAll(P, calls).value.pack == P.pack
    decreases |calls|
  {
    hide Build, Kept;
    if calls != [] {
      BuildKept(P, calls[0]);
      var next := Build(P, calls[0]);
      if next.Ok? {
        RunKept(next.value, calls[1..]);
      }
    }
  }

  lemma BuildStep(P: Profile, c: Call, rest: seq<Call>)
    requires Build(P, c).Ok?
    ensures BuildAll(P, [c] + rest) == BuildAll(Build(P, c).value, rest)
  {
    hide Build;
    assert ([c] + rest)[0] == c && ([c] + rest)[1..] == rest;
  }

  /** Builder calls that reach a given profile: the output mode first, then the widths. */
  function CallsFor(P: Profile): (r: seq<Call>) {
    (if P.twoMask then [TwoMaskOutput] else [])
    + ([KhBits(P.khBits)] + ([PublishedMaskBits(P.maskBits)] + ([ResponseBits(P.responseBits)]
    + if P.dithered then [DitheredQueryBits(P.queryBits)] else [])))
  }

  /** The mode rules are exact: every profile that meets them is built by some sequence of calls. */
  lemma KeptReachable(P: Profile)
    requires Kept(P)
    ensures var start := New(P.pack, P.rows, P.cols); start.Ok? && BuildAll(start.value, CallsFor(P)) == Ok(P)
  {
    hide BuildAll, ShapeOk;
    var p0 := New(P.pack, P.rows, P.cols).value.(twoMask := P.twoMask);
    var p1 := p0.(khBits := P.khBits);
    var p2 := p1.(maskBits := P.maskBits);
    var p3 := p2.(responseBits := P.responseBits);
    var last := if P.dithered then [DitheredQueryBits(P.queryBits)] else [];
    var widths := [KhBits(P.khBits)] + ([PublishedMaskBits(P.maskBits)] + ([ResponseBits(P.responseBits)] + last));
    if P.twoMask {
      BuildStep(New(P.pack, P.rows, P.cols).value, TwoMaskOutput, widths);
    } else {
      assert CallsFor(P) == widths;
    }
    BuildStep(p0, KhBits(P.khBits), [PublishedMaskBits(P.maskBits)] + ([ResponseBits(P.responseBits)] + last));
    BuildStep(p1, PublishedMaskBits(P.maskBits), [ResponseBits(P.responseBits)] + last);
    BuildStep(p2, ResponseBits(P.responseBits), last);
    if P.dithered {
      assert last == last + [];
      BuildStep(p3, DitheredQueryBits(P.queryBits), []);
    }
    BuildNone(P);
  }

  lemma BuildNone(P: Profile)
    ensures BuildAll(P, []) == Ok(P)
  {
  }

  /** The shapes a profile accepts, and its widths before any builder call, in numbers. */
  lemma NewLimits(k: Packing, rows: nat, cols: nat)
    requires k.Ok()
    ensures New(k, rows, cols).Ok? <==>
              rows > 0 && cols > 0 && rows % k.d == 0 && cols % k.d == 0 && k.gaussian && k.pBits <= 16
              && rows * cols <= if k.pBits <= 8 then Pow(2, 31) else Pow(2, 30)
    ensures New(k, rows, cols).Ok? ==>
              var P := New(k, rows, cols).value;
              && P.pack == k && P.rows == rows && P.cols == cols && P.khBits == k.qBits && !P.twoMask && P.maskBits == 64 && !P.dithered
              && P.queryBits == (if k.qBits < 49 then k.qBits else 49)
              && P.responseBits == (if k.qBits < k.pBits + 6 then k.qBits else k.pBits + 6)
  {
    hide Pow;
    WordPower64();
    PowAdd(2, 32, 32);
    HalvedPowers();
  }

  lemma HalvedPowers()
    ensures Pow(2, 31) == 0x8000_0000 && Pow(2, 30) == 0x4000_0000
  {
    hide Pow;
    BytePower();
    PowAdd(2, 8, 8);
    PowAdd(2, 16, 16);
    R.HalfPower(32);
    R.HalfPower(31);
  }

  /** The widths each builder call accepts and sets, in numbers: the certified pairs are 16-bit plaintexts with two 19-bit
      digits, and 8-bit plaintexts with two 19-bit digits or one 27-bit digit. */
  lemma BuildLimits(P: Profile, bits: nat)
    requires P.pack.Ok()
    ensures var k := P.pack;
            var p16, p8 := k.pBits == 16 && k.gadgetBits == 19 && k.ell == 2,
                           k.pBits == 8 && ((k.gadgetBits == 19 && k.ell == 2) || (k.gadgetBits == 27 && k.ell == 1));
            var default := if k.qBits < k.pBits + 6 then k.qBits else k.pBits + 6;
            && (Build(P, KhBits(bits)).Ok? <==> bits == k.qBits || (!P.twoMask && 40 <= bits < k.qBits))
            && (Build(P, TwoMaskOutput).Ok? <==>
                  P.khBits == k.qBits
                  && (P.maskBits == 64 || P.maskBits == 54 || (p16 && 27 <= P.maskBits <= 32) || (p8 && 22 <= P.maskBits <= 32)))
            && (Build(P, PublishedMaskBits(bits)).Ok? <==>
                  bits == 64
                  || (k.qBits == 54 && (bits == 54 || (p16 && (if P.twoMask then 27 else 28) <= bits <= 32)
                                        || (p8 && P.twoMask && 22 <= bits <= 32))))
            && (Build(P, DitheredQueryBits(bits)).Ok? <==>
                  k.qBits == 54 && bits <= 49 && (if p16 then 43 else if p8 && P.twoMask then 28 else 49) <= bits)
            && (Build(P, ResponseBits(bits)).Ok? <==>
                  bits == default || (k.qBits == 54 && p8 && P.twoMask && 10 <= bits < default))
    ensures Build(P, KhBits(bits)).Ok? ==> Build(P, KhBits(bits)).value == P.(khBits := bits)
    ensures Build(P, TwoMaskOutput).Ok? ==> Build(P, TwoMaskOutput).value == P.(twoMask := true)
    ensures Build(P, PublishedMaskBits(bits)).Ok? ==> Build(P, PublishedMaskBits(bits)).value == P.(maskBits := bits)
    ensures Build(P, DitheredQueryBits(bits)).Ok? ==>
              Build(P, DitheredQueryBits(bits)).value == P.(queryBits := bits, dithered := true)
    ensures Build(P, ResponseBits(bits)).Ok? ==> Build(P, ResponseBits(bits)).value == P.(responseBits := bits)
  {
  }

  // ----- request bytes -----

  type Id = seq<nat>

  predicate IdOk(id: Id) {
    |id| == 32 && Bytes(id)
  }

  datatype Mode = OneKeyBoth | OneKeySplit | TwoMasks

  function ModeOf(P: Profile): (m: Mode) {
    if P.twoMask then TwoMasks else if P.khBits == P.pack.qBits then OneKeyBoth else OneKeySplit
  }

  /** RNQ1, RNQ2, RNQ3. */
  function RequestMagic(P: Profile): (m: seq<nat>)
    ensures |m| == 4 && Bytes(m)
  {
    match ModeOf(P)
    case OneKeyBoth => [82, 78, 81, 49]
    case OneKeySplit => [82, 78, 81, 50]
    case TwoMasks => [82, 78, 81, 51]
  }

  /** The words a request carries, as transmitted. */
  datatype Wire = Wire(kg: seq<nat>, kh: seq<nat>, query: seq<nat>)

  function Half(P: Profile): (r: nat) {
    P.pack.ell * P.pack.d
  }

  predicate WireOk(P: Profile, w: Wire) {
    && |w.kg| == Half(P) && |w.kh| == (if P.twoMask then 0 else Half(P)) && |w.query| == P.rows
    && Fit(w.kg, P.pack.qBits) && Fit(w.kh, P.khBits) && Fit(w.query, P.queryBits)
  }

  lemma WireParts(P: Profile, w: Wire)
    requires WireOk(P, w)
    ensures |w.kg| == Half(P) && |w.kh| == (if P.twoMask then 0 else Half(P)) && |w.query| == P.rows
    ensures Fit(w.kg, P.pack.qBits) && Fit(w.kh, P.khBits) && Fit(w.query, P.queryBits)
  {
  }

  function KgLen(P: Profile): (r: nat) {
    PackedLen(Half(P), P.pack.qBits)
  }

  function KeysLen(P: Profile): (r: nat) {
    match ModeOf(P)
    case TwoMasks => KgLen(P)
    case OneKeyBoth => PackedLen(2 * Half(P), P.khBits)
    case OneKeySplit => KgLen(P) + PackedLen(Half(P), P.khBits)
  }

  predicate WidthsOk(P: Profile) {
    && 1 <= P.queryBits <= 64 && 1 <= P.khBits <= 64 && 1 <= P.pack.qBits <= 64 && 1 <= P.responseBits <= 64
    && (P.twoMask ==> P.khBits == P.pack.qBits)
  }

  lemma KeptWidths(P: Profile)
    requires Kept(P)
    ensures WidthsOk(P)
  {
  }

  /** The key section of the mode: K_g and K_h together, separately padded, or K_g alone. */
  ghost predicate KeysEncode(P: Profile, w: Wire, keys: seq<nat>)
    requires WidthsOk(P)
  {
    match ModeOf(P)
    case TwoMasks => Encodes(keys, w.kg, P.pack.qBits)
    case OneKeyBoth => Encodes(keys, w.kg + w.kh, P.khBits)
    case OneKeySplit =>
      KgLen(P) <= |keys| && Encodes(keys[..KgLen(P)], w.kg, P.pack.qBits) && Encodes(keys[KgLen(P)..], w.kh, P.khBits)
  }

  ghost predicate Framed(P: Profile, id: Id, w: Wire, bytes: seq<nat>)
    requires WidthsOk(P)
  {
    && |bytes| == 36 + KeysLen(P) + PackedLen(P.rows, P.queryBits)
    && bytes[..4] == RequestMagic(P) && bytes[4..36] == id
    && KeysEncode(P, w, bytes[36..36 + KeysLen(P)])
    && Encodes(bytes[36 + KeysLen(P)..], w.query, P.queryBits)
  }

  lemma FramedFrom(P: Profile, id: Id, w: Wire, keys: seq<nat>, query: seq<nat>)
    requires WidthsOk(P) && |id| == 32 && WireOk(P, w) && |keys| == KeysLen(P) && KeysEncode(P, w, keys)
    requires Encodes(query, w.query, P.queryBits)
    ensures Framed(P, id, w, RequestMagic(P) + id + keys + query)
  {
    hide KeysEncode, Encodes, RequestMagic, KeysLen, WireOk, PackedLen;
    WireParts(P, w);
    EncodesParts(query, w.query, P.queryBits);
    assert |RequestMagic(P)| == 4;
    var bytes := RequestMagic(P) + id + keys + query;
    assert bytes[..4] == RequestMagic(P);
    assert bytes[4..36] == id;
    assert bytes[36..36 + KeysLen(P)] == keys;
    assert bytes[36 + KeysLen(P)..] == query;
  }

  /** The layout in full: four magic bytes RNQ1, RNQ2 or RNQ3, the setup identifier, the key section of the mode and the
      query, each section padded to bytes. */
  lemma FramedLayout(P: Profile, id: Id, w: Wire, bytes: seq<nat>)
    requires WidthsOk(P) && |id| == 32 && WireOk(P, w)
    ensures var half := P.pack.ell * P.pack.d;
            var kg, kh, both := PackedLen(half, P.pack.qBits), PackedLen(half, P.khBits), PackedLen(2 * half, P.khBits);
            var keys := if P.twoMask then kg else if P.khBits == P.pack.qBits then both else kg + kh;
            Framed(P, id, w, bytes) <==>
              && |bytes| == 36 + keys + PackedLen(P.rows, P.queryBits)
              && bytes[..4] == [82, 78, 81, if P.twoMask then 51 else if P.khBits == P.pack.qBits then 49 else 50]
              && bytes[4..36] == id
              && (if P.twoMask then Encodes(bytes[36..36 + kg], w.kg, P.pack.qBits)
                  else if P.khBits == P.pack.qBits then Encodes(bytes[36..36 + both], w.kg + w.kh, P.khBits)
                  else && Encodes(bytes[36..36 + kg], w.kg, P.pack.qBits)
                       && Encodes(bytes[36 + kg..36 + kg + kh], w.kh, P.khBits))
              && Encodes(bytes[36 + keys..], w.query, P.queryBits)
  {
    hide Encodes, Fit, PackedLen;
    if |bytes| >= 36 + KeysLen(P) {
      var section := bytes[36..36 + KeysLen(P)];
      if ModeOf(P) == OneKeySplit {
        assert section[..KgLen(P)] == bytes[36..36 + KgLen(P)];
        assert section[KgLen(P)..] == bytes[36 + KgLen(P)..36 + KeysLen(P)];
      }
    }
  }

  /** The framing half of generate_with_rng. */
  method FrameRequest(P: Profile, id: Id, w: Wire) returns (bytes: seq<nat>)
    requires WidthsOk(P) && IdOk(id) && WireOk(P, w)
    ensures Framed(P, id, w, bytes)
    ensures |bytes| >= 36 && bytes[4..36] == id
    ensures bytes[..4] == [82, 78, 81, if P.twoMask then 51 else if P.khBits == P.pack.qBits then 49 else 50]
  {
    hide Encodes, Fit, Bytes;
    var keys := FrameKeys(P, w);
    var query := Encode(w.query, P.queryBits);
    FramedFrom(P, id, w, keys, query);
    bytes := RequestMagic(P) + id + keys + query;
  }

  method FrameKeys(P: Profile, w: Wire) returns (keys: seq<nat>)
    requires WidthsOk(P) && WireOk(P, w)
    ensures |keys| == KeysLen(P) && KeysEncode(P, w, keys)
  {
    hide Encodes, Fit, Bytes, PackedLen;
    match ModeOf(P) {
      case TwoMasks =>
        keys := Encode(w.kg, P.pack.qBits);
        EncodesParts(keys, w.kg, P.pack.qBits);
      case OneKeyBoth =>
        keys := Encode(w.kg + w.kh, P.khBits);
        EncodesParts(keys, w.kg + w.kh, P.khBits);
      case OneKeySplit =>
        var first := Encode(w.kg, P.pack.qBits);
        var second := Encode(w.kh, P.khBits);
        EncodesParts(first, w.kg, P.pack.qBits);
        EncodesParts(second, w.kh, P.khBits);
        keys := first + second;
        assert keys[..KgLen(P)] == first && keys[KgLen(P)..] == second;
    }
  }

  lemma FitConcat(x: seq<nat>, y: seq<nat>, bits: nat)
    ensures Fit(x + y, bits) <==> Fit(x, bits) && Fit(y, bits)
  {
    if Fit(x + y, bits) {
      forall i | 0 <= i < |x| ensures x[i] < Pow(2, bits) {
        assert (x + y)[i] == x[i];
      }
      forall i | 0 <= i < |y| ensures y[i] < Pow(2, bits) {
        assert (x + y)[|x| + i] == y[i];
      }
    }
  }

  /** The parsing half of respond: accepts exactly the framed requests of this profile and setup, and returns
      the words that were framed. */
  method ParseRequest(P: Profile, id: Id, bytes: seq<nat>) returns (r: Result<Wire>)
    requires WidthsOk(P) && IdOk(id) && Bytes(bytes)
    ensures r.Ok? ==> WireOk(P, r.value) && Framed(P, id, r.value, bytes)
    ensures forall w :: WireOk(P, w) && Framed(P, id, w, bytes) ==> r == Ok(w)
  {
    hide Encodes, Fit, PaddingZero;
    var keysLen := KeysLen(P);
    if |bytes| != 36 + keysLen + PackedLen(P.rows, P.queryBits) || bytes[..4] != RequestMagic(P) || bytes[4..36] != id {
      return Err(Mismatch);
    }
    var section := bytes[36..36 + keysLen];
    var keys := ParseKeys(P, section);
    var query := Decode(bytes[36 + keysLen..], P.rows, P.queryBits);
    forall w | WireOk(P, w) && Framed(P, id, w, bytes)
      ensures keys == Ok((w.kg, w.kh)) && query == Ok(w.query)
    {
    }
    if keys.Err? || !query.Ok? {
      return Err(Mismatch);
    }
    r := Ok(Wire(keys.value.0, keys.value.1, query.value));
  }

  method ParseKeys(P: Profile, keys: seq<nat>) returns (r: Result<(seq<nat>, seq<nat>)>)
    requires WidthsOk(P) && Bytes(keys) && |keys| == KeysLen(P)
    ensures r.Ok? ==> |r.value.0| == Half(P) && |r.value.1| == (if P.twoMask then 0 else Half(P))
    ensures r.Ok? ==> Fit(r.value.0, P.pack.qBits) && Fit(r.value.1, P.khBits)
    ensures r.Ok? ==> KeysEncode(P, Wire(r.value.0, r.value.1, []), keys)
    ensures forall w :: WireOk(P, w) && KeysEncode(P, w, keys) ==> r == Ok((w.kg, w.kh))
  {
    hide Encodes, Fit, PaddingZero;
    var half := Half(P);
    match ModeOf(P)
    case TwoMasks =>
      var kg := Decode(keys, half, P.pack.qBits);
      EmptyFits(P.khBits);
      forall w | WireOk(P, w) && KeysEncode(P, w, keys)
        ensures kg == Ok(w.kg) && w.kh == []
      {
      }
      if !kg.Ok? {
        return Err(Mismatch);
      }
      r := Ok((kg.value, []));
    case OneKeyBoth =>
      var both := Decode(keys, 2 * half, P.khBits);
      forall w | WireOk(P, w) && KeysEncode(P, w, keys)
        ensures both == Ok(w.kg + w.kh) && w.kg == (w.kg + w.kh)[..half] && w.kh == (w.kg + w.kh)[half..]
      {
        FitConcat(w.kg, w.kh, P.khBits);
      }
      if !both.Ok? {
        return Err(Mismatch);
      }
      var kg, kh := both.value[..half], both.value[half..];
      assert kg + kh == both.value;
      FitConcat(kg, kh, P.khBits);
      r := Ok((kg, kh));
    case OneKeySplit =>
      var split := KgLen(P);
      var kg := Decode(keys[..split], half, P.pack.qBits);
      var kh := Decode(keys[split..], half, P.khBits);
      forall w | WireOk(P, w) && KeysEncode(P, w, keys)
        ensures kg == Ok(w.kg) && kh == Ok(w.kh)
      {
      }
      if !kg.Ok? || !kh.Ok? {
        return Err(Mismatch);
      }
      r := Ok((kg.value, kh.value));
  }

  lemma EmptyFits(bits: nat)
    ensures Fit([], bits)
  {
  }

  // ----- rounding on the way -----

  function Down(x: nat, qBits: nat, bits: nat): (r: nat)
    requires bits <= qBits && x < Pow(2, qBits)
    ensures r < Pow(2, bits)
  {
    DownFits(x, qBits - bits, bits);
    R.NativeDown(x, qBits - bits, bits)
  }

  lemma DownFits(x: nat, shift: nat, bits: nat)
    requires x < Pow(2, bits + shift)
    ensures 0 <= R.NativeDown(x, shift, bits) < Pow(2, bits)
  {
    PowPositive(2, bits);
  }

  function Dithered(x: nat, qBits: nat, bits: nat, draw: nat): (r: nat)
    requires bits <= qBits
    ensures r < Pow(2, bits)
  {
    PowPositive(2, bits);
    R.NativeDithered(x, qBits - bits, bits, draw)
  }

  function Up(y: nat, qBits: nat, bits: nat): (r: nat)
    requires bits <= qBits && y < Pow(2, bits)
    ensures r < Pow(2, qBits)
  {
    R.UnitProduct(bits, qBits - bits);
    R.ScaleOrder(Pow(2, qBits - bits), y + 1, Pow(2, bits));
    UpBound(y, Pow(2, bits), Pow(2, qBits - bits));
    R.NativeUp(y, qBits - bits)
  }

  lemma UpBound(y: nat, M: int, u: int)
    requires y < M && u > 0
    ensures 0 <= y * u < M * u
  {
    Distribute(y, 1, u);
    R.ScaleOrder(u, y + 1, M);
    Commute(u, y + 1);
    Commute(u, M);
  }

  function DownAll(xs: seq<nat>, qBits: nat, bits: nat): (r: seq<nat>)
    requires bits <= qBits && Fit(xs, qBits)
    ensures |r| == |xs| && Fit(r, bits) && forall i :: 0 <= i < |xs| ==> xs[i] < Pow(2, qBits) && r[i] == Down(xs[i], qBits, bits)
  {
    seq(|xs|, i requires 0 <= i < |xs| => Down(xs[i], qBits, bits))
  }

  function DitheredAll(xs: seq<nat>, qBits: nat, bits: nat, draws: seq<nat>): (r: seq<nat>)
    requires bits <= qBits && |draws| == |xs|
    ensures |r| == |xs| && Fit(r, bits) && forall i :: 0 <= i < |xs| ==> r[i] == Dithered(xs[i], qBits, bits, draws[i])
  {
    seq(|xs|, i requires 0 <= i < |xs| => Dithered(xs[i], qBits, bits, draws[i]))
  }

  function UpAll(ys: seq<nat>, qBits: nat, bits: nat): (r: seq<nat>)
    requires bits <= qBits && Fit(ys, bits)
    ensures |r| == |ys| && Fit(r, qBits) && forall i :: 0 <= i < |ys| ==> ys[i] < Pow(2, bits) && r[i] == Up(ys[i], qBits, bits)
  {
    seq(|ys|, i requires 0 <= i < |ys| => Up(ys[i], qBits, bits))
  }

  /** Re-rounding what was rounded changes nothing. */
  lemma RoundedFixed(ys: seq<nat>, qBits: nat, bits: nat)
    requires bits <= qBits && Fit(ys, bits)
    ensures DownAll(UpAll(ys, qBits, bits), qBits, bits) == ys
  {
    hide R.NativeDown, R.NativeUp;
    forall i | 0 <= i < |ys|
      ensures DownAll(UpAll(ys, qBits, bits), qBits, bits)[i] == ys[i]
    {
      R.NativeIdempotent(ys[i], qBits - bits, bits, 0);
    }
  }

  /** Nearest rounding and lifting, coefficient by coefficient: the nearest multiple of the unit, halves upwards. */
  lemma NearestReceived(xs: seq<nat>, qBits: nat, bits: nat)
    requires bits <= qBits && Fit(xs, qBits)
    ensures var got, u, q := UpAll(DownAll(xs, qBits, bits), qBits, bits), Pow(2, qBits - bits), Pow(2, qBits);
            && u > 0 && q > 0 && |got| == |xs|
            && (forall i :: 0 <= i < |xs| ==> got[i] == ((xs[i] + u / 2) / u * u) % q)
            && (forall i :: 0 <= i < |xs| ==> 2 * R.Distance(q, got[i], xs[i]) <= u)
  {
    hide R.NativeDown, R.NativeUp, R.Distance, Pow;
    PowPositive(2, qBits - bits);
    PowPositive(2, qBits);
    forall i | 0 <= i < |xs|
      ensures var got, u, q := UpAll(DownAll(xs, qBits, bits), qBits, bits), Pow(2, qBits - bits), Pow(2, qBits);
              got[i] == ((xs[i] + u / 2) / u * u) % q && 2 * R.Distance(q, got[i], xs[i]) <= u
    {
      R.NativeNearest(xs[i], qBits - bits, bits);
      R.NativeTrip(xs[i], qBits - bits, bits);
    }
  }

  /** Dithered rounding and lifting: up exactly when the draw's low bits are below the dropped ones. */
  lemma DitheredReceived(xs: seq<nat>, qBits: nat, bits: nat, draws: seq<nat>)
    requires bits <= qBits && Fit(xs, qBits) && |draws| == |xs|
    ensures var got, u, q := UpAll(DitheredAll(xs, qBits, bits, draws), qBits, bits), Pow(2, qBits - bits), Pow(2, qBits);
            && u > 0 && q > 0 && |got| == |xs|
            && (forall i :: 0 <= i < |xs| ==> got[i] == (xs[i] - xs[i] % u + if draws[i] % u < xs[i] % u then u else 0) % q)
            && (forall i :: 0 <= i < |xs| ==> R.Distance(q, got[i], xs[i]) < u)
  {
    hide R.NativeDithered, R.NativeUp, R.Distance, Pow;
    PowPositive(2, qBits - bits);
    PowPositive(2, qBits);
    forall i | 0 <= i < |xs|
      ensures var got, u, q := UpAll(DitheredAll(xs, qBits, bits, draws), qBits, bits), Pow(2, qBits - bits), Pow(2, qBits);
              got[i] == (xs[i] - xs[i] % u + if draws[i] % u < xs[i] % u then u else 0) % q && R.Distance(q, got[i], xs[i]) < u
    {
      R.DitheredExact(xs[i], qBits - bits, bits, draws[i]);
      R.DitheredTrip(xs[i], qBits - bits, bits, draws[i]);
    }
  }

  /** Full width loses nothing. */
  lemma FullWidth(xs: seq<nat>, qBits: nat)
    requires Fit(xs, qBits)
    ensures DownAll(xs, qBits, qBits) == xs && UpAll(xs, qBits, qBits) == xs
  {
    forall i | 0 <= i < |xs|
      ensures Down(xs[i], qBits, qBits) == xs[i] && Up(xs[i], qBits, qBits) == xs[i]
    {
      R.PowZero();
    }
  }

  // ----- a request, client to server -----

  /** What the client puts on the wire for keys and query below q. */
  function WireOf(P: Profile, kg: seq<nat>, kh: seq<nat>, query: seq<nat>, draws: seq<nat>): (w: Wire)
    requires P.khBits <= P.pack.qBits && P.queryBits <= P.pack.qBits && |draws| == |query|
    requires Fit(kh, P.pack.qBits) && Fit(query, P.pack.qBits)
  {
    Wire(kg, if P.twoMask then [] else DownAll(kh, P.pack.qBits, P.khBits),
         if P.dithered then DitheredAll(query, P.pack.qBits, P.queryBits, draws)
         else DownAll(query, P.pack.qBits, P.queryBits))
  }

  /** What the server works with after lifting. */
  datatype Received = Received(kg: seq<nat>, kh: seq<nat>, query: seq<nat>)

  function Lift(P: Profile, w: Wire): (r: Received)
    requires P.khBits <= P.pack.qBits && P.queryBits <= P.pack.qBits && Fit(w.kh, P.khBits) && Fit(w.query, P.queryBits)
  {
    Received(w.kg, UpAll(w.kh, P.pack.qBits, P.khBits), UpAll(w.query, P.pack.qBits, P.queryBits))
  }

  predicate InputsOk(P: Profile, kg: seq<nat>, kh: seq<nat>, query: seq<nat>, draws: seq<nat>) {
    && |kg| == Half(P) && |kh| == Half(P) && |query| == |draws| == P.rows
    && Fit(kg, P.pack.qBits) && Fit(kh, P.pack.qBits) && Fit(query, P.pack.qBits)
  }

  /** Generated requests satisfy the shape the server checks. */
  lemma GeneratedShape(P: Profile, kg: seq<nat>, kh: seq<nat>, query: seq<nat>, draws: seq<nat>)
    requires Kept(P) && InputsOk(P, kg, kh, query, draws)
    ensures WidthsOk(P) && P.khBits <= P.pack.qBits && P.queryBits <= P.pack.qBits
    ensures WireOk(P, WireOf(P, kg, kh, query, draws))
  {
    KeptWidths(P);
    EmptyFits(P.khBits);
  }

  /** Client framing then server parsing.  K_g arrives unchanged; K_h arrives rounded to its width, unchanged at full
      width and not at all in two-mask mode; the query arrives rounded to nearest or as its draws say. */
  method SendReceive(P: Profile, id: Id, kg: seq<nat>, kh: seq<nat>, query: seq<nat>, draws: seq<nat>) returns (r: Received)
    requires Kept(P) && IdOk(id) && InputsOk(P, kg, kh, query, draws)
    ensures P.khBits <= P.pack.qBits && P.queryBits <= P.pack.qBits
    ensures r.kg == kg && |r.kg| == P.pack.ell * P.pack.d && |r.query| == |query| == P.rows
    ensures P.twoMask ==> r.kh == []
    ensures !P.twoMask && P.khBits == P.pack.qBits ==> r.kh == kh
    ensures var u, q := Pow(2, P.pack.qBits - P.khBits), Pow(2, P.pack.qBits);
            u > 0 && q > 0 && (!P.twoMask ==>
              && |r.kh| == |kh|
              && (forall i :: 0 <= i < |kh| ==> r.kh[i] == ((kh[i] + u / 2) / u * u) % q)
              && forall i :: 0 <= i < |kh| ==> 2 * R.Distance(q, r.kh[i], kh[i]) <= u)
    ensures var u, q := Pow(2, P.pack.qBits - P.queryBits), Pow(2, P.pack.qBits);
            u > 0 && q > 0 && (!P.dithered ==>
              && (forall i :: 0 <= i < |query| ==> r.query[i] == ((query[i] + u / 2) / u * u) % q)
              && forall i :: 0 <= i < |query| ==> 2 * R.Distance(q, r.query[i], query[i]) <= u)
    ensures var u, q := Pow(2, P.pack.qBits - P.queryBits), Pow(2, P.pack.qBits);
            u > 0 && q > 0 && |draws| == |query| && (P.dithered ==>
              && (forall i :: 0 <= i < |query| ==>
                    r.query[i] == (query[i] - query[i] % u + if draws[i] % u < query[i] % u then u else 0) % q)
              && forall i :: 0 <= i < |query| ==> R.Distance(q, r.query[i], query[i]) < u)
  {
    hide Encodes, Fit, WireOk, Framed, Kept, DownAll, UpAll, DitheredAll, Pow, R.Distance;
    GeneratedShape(P, kg, kh, query, draws);
    var w := WireOf(P, kg, kh, query, draws);
    WireParts(P, w);
    var bytes := FrameRequest(P, id, w);
    FramedBytes(P, id, w, bytes);
    var parsed := ParseRequest(P, id, bytes);
    assert parsed == Ok(w);
    r := Lift(P, parsed.value);
    LiftedWire(P, kg, kh, query, draws);
  }

  /** What lifting makes of the words on the wire. */
  lemma LiftedWire(P: Profile, kg: seq<nat>, kh: seq<nat>, query: seq<nat>, draws: seq<nat>)
    requires P.khBits <= P.pack.qBits && P.queryBits <= P.pack.qBits && |draws| == |query|
    requires Fit(kh, P.pack.qBits) && Fit(query, P.pack.qBits)
    ensures var w := WireOf(P, kg, kh, query, draws); Fit(w.kh, P.khBits) && Fit(w.query, P.queryBits)
    ensures var r := Lift(P, WireOf(P, kg, kh, query, draws));
            && r.kg == kg && |r.query| == |query| && (P.twoMask ==> r.kh == [])
            && (!P.twoMask && P.khBits == P.pack.qBits ==> r.kh == kh)
    ensures var r, u, q := Lift(P, WireOf(P, kg, kh, query, draws)), Pow(2, P.pack.qBits - P.khBits), Pow(2, P.pack.qBits);
            u > 0 && q > 0 && (!P.twoMask ==>
              && |r.kh| == |kh|
              && (forall i :: 0 <= i < |kh| ==> r.kh[i] == ((kh[i] + u / 2) / u * u) % q)
              && forall i :: 0 <= i < |kh| ==> 2 * R.Distance(q, r.kh[i], kh[i]) <= u)
    ensures var r, u, q := Lift(P, WireOf(P, kg, kh, query, draws)), Pow(2, P.pack.qBits - P.queryBits), Pow(2, P.pack.qBits);
            u > 0 && q > 0 && (!P.dithered ==>
              && (forall i :: 0 <= i < |query| ==> r.query[i] == ((query[i] + u / 2) / u * u) % q)
              && forall i :: 0 <= i < |query| ==> 2 * R.Distance(q, r.query[i], query[i]) <= u)
    ensures var r, u, q := Lift(P, WireOf(P, kg, kh, query, draws)), Pow(2, P.pack.qBits - P.queryBits), Pow(2, P.pack.qBits);
            u > 0 && q > 0 && (P.dithered ==>
              && (forall i :: 0 <= i < |query| ==>
                    r.query[i] == (query[i] - query[i] % u + if draws[i] % u < query[i] % u then u else 0) % q)
              && forall i :: 0 <= i < |query| ==> R.Distance(q, r.query[i], query[i]) < u)
  {
    hide Fit, DownAll, UpAll, DitheredAll, Pow, R.Distance;
    EmptyFits(P.khBits);
    NearestReceived(kh, P.pack.qBits, P.khBits);
    NothingRounds(P.pack.qBits, P.khBits);
    if P.khBits == P.pack.qBits {
      FullWidth(kh, P.pack.qBits);
    }
    if P.dithered {
      DitheredReceived(query, P.pack.qBits, P.queryBits, draws);
    } else {
      NearestReceived(query, P.pack.qBits, P.queryBits);
    }
  }

  /** Framed requests are byte strings. */
  lemma FramedBytes(P: Profile, id: Id, w: Wire, bytes: seq<nat>)
    requires WidthsOk(P) && IdOk(id) && WireOk(P, w) && Framed(P, id, w, bytes)
    ensures Bytes(bytes)
  {
    hide PaddingZero, Fit, BitAt, WordBit;
    var n := 36 + KeysLen(P);
    assert bytes == bytes[..4] + bytes[4..36] + bytes[36..n] + bytes[n..];
    EncodesParts(bytes[n..], w.query, P.queryBits);
    KeysBytes(P, w, bytes[36..n]);
    BytesConcat(bytes[..4], bytes[4..36]);
    BytesConcat(bytes[..4] + bytes[4..36], bytes[36..n]);
    BytesConcat(bytes[..4] + bytes[4..36] + bytes[36..n], bytes[n..]);
  }

  lemma BytesConcat(x: seq<nat>, y: seq<nat>)
    requires Bytes(x) && Bytes(y)
    ensures Bytes(x + y)
  {
  }

  lemma KeysBytes(P: Profile, w: Wire, keys: seq<nat>)
    requires WidthsOk(P) && KeysEncode(P, w, keys)
    ensures Bytes(keys)
  {
    hide Encodes, PackedLen;
    match ModeOf(P) {
      case TwoMasks => EncodesParts(keys, w.kg, P.pack.qBits);
      case OneKeyBoth => EncodesParts(keys, w.kg + w.kh, P.khBits);
      case OneKeySplit =>
        EncodesParts(keys[..KgLen(P)], w.kg, P.pack.qBits);
        EncodesParts(keys[KgLen(P)..], w.kh, P.khBits);
        assert keys == keys[..KgLen(P)] + keys[KgLen(P)..];
        BytesConcat(keys[..KgLen(P)], keys[KgLen(P)..]);
    }
  }

  // ----- published masks -----

  /** Flattened masks of all blocks, and the second family in two-mask mode. */
  datatype Published = Published(masks: seq<nat>, others: Option<seq<nat>>)

  function Round(P: Profile, xs: seq<nat>): (r: seq<nat>)
    requires Fit(xs, P.pack.qBits) && (P.maskBits == 64 || P.maskBits <= P.pack.qBits)
    ensures |r| == |xs| && Fit(r, P.pack.qBits)
  {
    if P.maskBits == 64 then xs else UpAll(DownAll(xs, P.pack.qBits, P.maskBits), P.pack.qBits, P.maskBits)
  }

  predicate MasksFit(P: Profile, masks: seq<nat>, others: Option<seq<nat>>) {
    && |masks| == P.cols && Fit(masks, P.pack.qBits) && (others.Some? <==> P.twoMask)
    && (others.Some? ==> |others.value| == P.cols && Fit(others.value, P.pack.qBits))
  }

  /** from_masks, on flattened blocks. */
  function FromMasks(P: Profile, masks: seq<nat>, others: Option<seq<nat>>): (r: Result<Published>)
    requires P.maskBits == 64 || P.maskBits <= P.pack.qBits
  {
    if !MasksFit(P, masks, others) then Err(Mismatch)
    else Ok(Published(Round(P, masks), if others.Some? then Some(Round(P, others.value)) else None))
  }

  function AllWords(pub: Published): (r: seq<nat>) {
    pub.masks + if pub.others.Some? then pub.others.value else []
  }

  /** Published state is already at its publication width. */
  predicate PublishedOk(P: Profile, pub: Published)
    requires P.maskBits == 64 || P.maskBits <= P.pack.qBits
  {
    && MasksFit(P, pub.masks, pub.others) && Round(P, pub.masks) == pub.masks
    && (pub.others.Some? ==> Round(P, pub.others.value) == pub.others.value)
  }

  lemma RoundTwice(P: Profile, xs: seq<nat>)
    requires Fit(xs, P.pack.qBits) && (P.maskBits == 64 || P.maskBits <= P.pack.qBits)
    ensures Round(P, Round(P, xs)) == Round(P, xs)
  {
    hide Fit, DownAll, UpAll;
    if P.maskBits != 64 {
      RoundedFixed(DownAll(xs, P.pack.qBits, P.maskBits), P.pack.qBits, P.maskBits);
    }
  }

  lemma FromMasksPublished(P: Profile, masks: seq<nat>, others: Option<seq<nat>>)
    requires P.maskBits == 64 || P.maskBits <= P.pack.qBits
    ensures FromMasks(P, masks, others).Ok? ==> PublishedOk(P, FromMasks(P, masks, others).value)
  {
    hide Fit, Round;
    if MasksFit(P, masks, others) {
      RoundTwice(P, masks);
      if others.Some? {
        RoundTwice(P, others.value);
      }
    }
  }

  /** RNP1, RNP2 for exact words, RNP3 for packed ones. */
  function PublishedMagic(P: Profile): (m: seq<nat>)
    ensures |m| == 4 && Bytes(m)
  {
    if P.maskBits != 64 then [82, 78, 80, 51] else if P.twoMask then [82, 78, 80, 50] else [82, 78, 80, 49]
  }

  function MaskCount(P: Profile): (r: nat) {
    if P.twoMask then 2 * P.cols else P.cols
  }

  /** The transmitted words of a published state; exact words travel as 64-bit little-endian. */
  function Transmitted(P: Profile, pub: Published): (r: seq<nat>)
    requires (P.maskBits == 64 || P.maskBits <= P.pack.qBits) && Fit(AllWords(pub), P.pack.qBits)
    ensures |r| == |AllWords(pub)|
  {
    if P.maskBits == 64 then AllWords(pub) else DownAll(AllWords(pub), P.pack.qBits, P.maskBits)
  }

  predicate MaskWidthOk(P: Profile) {
    1 <= P.maskBits <= 64 && P.pack.qBits <= 64 && (P.maskBits == 64 || P.maskBits <= P.pack.qBits)
  }

  lemma KeptMaskWidth(P: Profile)
    requires Kept(P)
    ensures MaskWidthOk(P)
  {
  }

  lemma WordsFitPublished(P: Profile, pub: Published)
    requires MaskWidthOk(P) && PublishedOk(P, pub)
    ensures Fit(AllWords(pub), P.pack.qBits) && |AllWords(pub)| == MaskCount(P)
    ensures Fit(Transmitted(P, pub), P.maskBits)
  {
    EmptyFits(P.pack.qBits);
    FitConcat(pub.masks, if pub.others.Some? then pub.others.value else [], P.pack.qBits);
    if P.maskBits == 64 {
      PowMonotone(P.pack.qBits, 64);
    }
  }

  /** Magic, setup identifier and packed words of a published state. */
  ghost predicate PublishedFrame(P: Profile, id: Id, pub: Published, bytes: seq<nat>)
    requires MaskWidthOk(P)
  {
    && Fit(AllWords(pub), P.pack.qBits) && |bytes| >= 36 && bytes[..4] == PublishedMagic(P) && bytes[4..36] == id
    && Encodes(bytes[36..], Transmitted(P, pub), P.maskBits)
  }

  /** The layout in full: RNP1 or RNP2 before exact 64-bit words, RNP3 before words of the publication width, which lifted
      give the masks back; then the setup identifier, then the masks of the first family before those of the second. */
  lemma PublishedLayout(P: Profile, id: Id, pub: Published, bytes: seq<nat>) returns (words: seq<nat>)
    requires MaskWidthOk(P) && PublishedOk(P, pub) && PublishedFrame(P, id, pub, bytes)
    ensures |bytes| >= 36 && bytes[..4] == [82, 78, 80, if P.maskBits != 64 then 51 else if P.twoMask then 50 else 49]
    ensures bytes[4..36] == id && Encodes(bytes[36..], words, P.maskBits)
    ensures |pub.masks| == P.cols && |words| == if P.twoMask then 2 * P.cols else P.cols
    ensures pub.others.Some? <==> P.twoMask
    ensures pub.others.Some? ==> |pub.others.value| == P.cols
    ensures var u := if P.maskBits == 64 then 1 else Pow(2, P.pack.qBits - P.maskBits);
            && (forall i :: 0 <= i < P.cols ==> words[i] * u == pub.masks[i])
            && (P.twoMask ==> forall i :: 0 <= i < P.cols ==> words[P.cols + i] * u == pub.others.value[i])
  {
    hide Encodes, Fit, DownAll, UpAll, Pow, Round;
    words := Transmitted(P, pub);
    WordsFitPublished(P, pub);
    BackToWords(P, pub);
    var all := AllWords(pub);
    assert forall i :: 0 <= i < P.cols ==> all[i] == pub.masks[i];
    assert P.twoMask ==> forall i :: 0 <= i < P.cols ==> all[P.cols + i] == pub.others.value[i];
    if P.maskBits != 64 {
      LiftedWords(words, all, P.pack.qBits, P.maskBits);
    }
  }

  lemma LiftedWords(words: seq<nat>, all: seq<nat>, qBits: nat, bits: nat)
    requires bits <= qBits && Fit(words, bits) && UpAll(words, qBits, bits) == all
    ensures |words| == |all| && forall i :: 0 <= i < |words| ==> words[i] * Pow(2, qBits - bits) == all[i]
  {
    hide Pow;
    forall i | 0 <= i < |words|
      ensures words[i] * Pow(2, qBits - bits) == all[i]
    {
      assert all[i] == Up(words[i], qBits, bits);
    }
  }

  /** to_bytes. */
  method ToBytes(P: Profile, id: Id, pub: Published) returns (bytes: seq<nat>)
    requires MaskWidthOk(P) && IdOk(id) && PublishedOk(P, pub)
    ensures PublishedFrame(P, id, pub, bytes) && Bytes(bytes)
  {
    hide Encodes, Fit, Round, DownAll;
    WordsFitPublished(P, pub);
    var body := Encode(Transmitted(P, pub), P.maskBits);
    EncodesParts(body, Transmitted(P, pub), P.maskBits);
    bytes := PublishedMagic(P) + id + body;
    assert bytes[36..] == body;
    BytesConcat(PublishedMagic(P), id);
    BytesConcat(PublishedMagic(P) + id, body);
  }

  /** from_bytes accepts exactly the frames of published states, and returns the state that was written. */
  method FromBytes(P: Profile, id: Id, bytes: seq<nat>) returns (r: Result<Published>)
    requires MaskWidthOk(P) && IdOk(id) && Bytes(bytes)
    ensures forall pub :: PublishedOk(P, pub) && PublishedFrame(P, id, pub, bytes) ==> r == Ok(pub)
    ensures r.Ok? ==> PublishedOk(P, r.value) && PublishedFrame(P, id, r.value, bytes)
  {
    hide Encodes, Fit, Round, DownAll, UpAll, PackedLen, PaddingZero;
    var count := MaskCount(P);
    forall pub | PublishedOk(P, pub) && |bytes| >= 36 && Fit(AllWords(pub), P.pack.qBits)
                 && Encodes(bytes[36..], Transmitted(P, pub), P.maskBits)
      ensures |bytes| == 36 + PackedLen(count, P.maskBits) && |Transmitted(P, pub)| == count && Fit(Transmitted(P, pub), P.maskBits)
    {
      WordsFitPublished(P, pub);
      EncodesParts(bytes[36..], Transmitted(P, pub), P.maskBits);
    }
    if |bytes| != 36 + PackedLen(count, P.maskBits) || bytes[..4] != PublishedMagic(P) || bytes[4..36] != id {
      return Err(Mismatch);
    }
    var raw := Decode(bytes[36..], count, P.maskBits);
    if !raw.Ok? {
      return Err(Mismatch);
    }
    var words := if P.maskBits == 64 then raw.value else UpAll(raw.value, P.pack.qBits, P.maskBits);
    forall pub | PublishedOk(P, pub) && Fit(AllWords(pub), P.pack.qBits) && Encodes(bytes[36..], Transmitted(P, pub), P.maskBits)
      ensures words == AllWords(pub) && Fit(words, P.pack.qBits)
    {
      assert raw == Ok(Transmitted(P, pub));
      BackToWords(P, pub);
    }
    if !Fit(words, P.pack.qBits) {
      return Err(Mismatch);
    }
    var first, second := words[..P.cols], words[P.cols..];
    assert words == first + second;
    FitConcat(first, second, P.pack.qBits);
    r := Ok(Published(first, if P.twoMask then Some(second) else None));
    ParsedPublished(P, raw.value, words, r.value);
    forall pub | PublishedOk(P, pub) && words == AllWords(pub)
      ensures pub.masks == first && (pub.others.Some? ==> pub.others.value == second)
    {
      SplitWords(pub, words, P.cols);
    }
  }

  /** A stretch of lifted words is at its publication width already. */
  lemma RoundedSlice(ys: seq<nat>, qBits: nat, bits: nat, lo: nat, hi: nat)
    requires bits <= qBits && Fit(ys, bits) && lo <= hi <= |ys|
    ensures var xs := UpAll(ys, qBits, bits)[lo..hi]; Fit(xs, qBits) && UpAll(DownAll(xs, qBits, bits), qBits, bits) == xs
  {
    hide Up, Down;
    var part := ys[lo..hi];
    assert UpAll(ys, qBits, bits)[lo..hi] == UpAll(part, qBits, bits);
    RoundedFixed(part, qBits, bits);
  }

  /** What the parser rebuilds from canonical words is a published state that sends those words. */
  lemma ParsedPublished(P: Profile, raw: seq<nat>, words: seq<nat>, pub: Published)
    requires MaskWidthOk(P) && Fit(raw, P.maskBits) && |raw| == |words| == MaskCount(P) && Fit(words, P.pack.qBits)
    requires words == if P.maskBits == 64 then raw else UpAll(raw, P.pack.qBits, P.maskBits)
    requires pub == Published(words[..P.cols], if P.twoMask then Some(words[P.cols..]) else None)
    ensures PublishedOk(P, pub) && AllWords(pub) == words && Transmitted(P, pub) == raw
  {
    hide Fit, UpAll, DownAll;
    assert words == words[..P.cols] + words[P.cols..];
    FitConcat(words[..P.cols], words[P.cols..], P.pack.qBits);
    if P.maskBits != 64 {
      RoundedFixed(raw, P.pack.qBits, P.maskBits);
      RoundedSlice(raw, P.pack.qBits, P.maskBits, 0, P.cols);
      RoundedSlice(raw, P.pack.qBits, P.maskBits, P.cols, |raw|);
      assert words[..P.cols] == words[0..P.cols] && words[P.cols..] == words[P.cols..|raw|];
    }
  }

  lemma SplitWords(pub: Published, words: seq<nat>, cols: nat)
    requires words == AllWords(pub) && |pub.masks| == cols
    ensures pub.masks == words[..cols] && (pub.others.Some? ==> pub.others.value == words[cols..])
  {
  }

  lemma UpDownConcat(x: seq<nat>, y: seq<nat>, qBits: nat, bits: nat)
    requires bits <= qBits && Fit(x, qBits) && Fit(y, qBits) && Fit(x + y, qBits)
    ensures UpAll(DownAll(x + y, qBits, bits), qBits, bits)
            == UpAll(DownAll(x, qBits, bits), qBits, bits) + UpAll(DownAll(y, qBits, bits), qBits, bits)
  {
  }

  lemma BackToWords(P: Profile, pub: Published)
    requires MaskWidthOk(P) && PublishedOk(P, pub) && Fit(AllWords(pub), P.pack.qBits)
    ensures P.maskBits != 64 ==> Fit(Transmitted(P, pub), P.maskBits)
    ensures P.maskBits != 64 ==> UpAll(Transmitted(P, pub), P.pack.qBits, P.maskBits) == AllWords(pub)
  {
    hide Fit, DownAll, UpAll;
    if P.maskBits != 64 {
      var y := if pub.others.Some? then pub.others.value else [];
      EmptyFits(P.pack.qBits);
      UpDownConcat(pub.masks, y, P.pack.qBits, P.maskBits);
      NothingRounds(P.pack.qBits, P.maskBits);
    }
  }

  lemma NothingRounds(qBits: nat, bits: nat)
    requires bits <= qBits
    ensures Fit([], qBits) && UpAll(DownAll([], qBits, bits), qBits, bits) == []
  {
  }

  /** Rounding to the publication width moves each coefficient by at most half a unit. */
  lemma RoundNearest(P: Profile, xs: seq<nat>)
    requires Fit(xs, P.pack.qBits) && (P.maskBits == 64 || P.maskBits <= P.pack.qBits)
    ensures var u, q := if P.maskBits == 64 then 1 else Pow(2, P.pack.qBits - P.maskBits), Pow(2, P.pack.qBits);
            && u > 0 && q > 0
            && (forall i :: 0 <= i < |xs| ==> Round(P, xs)[i] == ((xs[i] + u / 2) / u * u) % q)
            && forall i :: 0 <= i < |xs| ==> 2 * R.Distance(q, Round(P, xs)[i], xs[i]) <= u
  {
    hide Pow, R.Distance, UpAll, DownAll;
    PowPositive(2, P.pack.qBits);
    var q := Pow(2, P.pack.qBits);
    if P.maskBits == 64 {
      forall i | 0 <= i < |xs|
        ensures xs[i] % q == xs[i] && R.Distance(q, xs[i], xs[i]) == 0
      {
        ModSmall(xs[i], q);
        SameIs(q, xs[i] - xs[i], 0);
        R.DistanceAtMost(q, xs[i], xs[i], 0);
      }
    } else {
      NearestReceived(xs, P.pack.qBits, P.maskBits);
    }
  }

  /** Publishing under any reachable profile: exactly the masks of the right shape with coefficients below q are
      accepted; each is rounded to the nearest multiple of the unit of the publication width, halves upwards, and the
      bytes change nothing more. */
  method PublishTrip(P: Profile, id: Id, masks: seq<nat>, others: Option<seq<nat>>) returns (r: Result<Published>)
    requires Kept(P) && IdOk(id)
    ensures P.maskBits == 64 || P.maskBits <= P.pack.qBits
    ensures r.Ok? <==> && |masks| == P.cols && (forall i :: 0 <= i < |masks| ==> masks[i] < Pow(2, P.pack.qBits))
                       && (others.Some? <==> P.twoMask)
                       && (others.Some? ==> |others.value| == P.cols
                                            && forall i :: 0 <= i < |others.value| ==> others.value[i] < Pow(2, P.pack.qBits))
    ensures var u, q := if P.maskBits == 64 then 1 else Pow(2, P.pack.qBits - P.maskBits), Pow(2, P.pack.qBits);
            u > 0 && q > 0 && (r.Ok? ==>
              && |r.value.masks| == |masks| && (r.value.others.Some? <==> others.Some?)
              && (forall i :: 0 <= i < |masks| ==> r.value.masks[i] == ((masks[i] + u / 2) / u * u) % q)
              && (forall i :: 0 <= i < |masks| ==> 2 * R.Distance(q, r.value.masks[i], masks[i]) <= u))
    ensures var u, q := if P.maskBits == 64 then 1 else Pow(2, P.pack.qBits - P.maskBits), Pow(2, P.pack.qBits);
            u > 0 && q > 0 && (r.Ok? && others.Some? ==>
              && r.value.others.Some? && |r.value.others.value| == |others.value|
              && (forall i :: 0 <= i < |others.value| ==> r.value.others.value[i] == ((others.value[i] + u / 2) / u * u) % q)
              && (forall i :: 0 <= i < |others.value| ==> 2 * R.Distance(q, r.value.others.value[i], others.value[i]) <= u))
  {
    hide Fit, Round, Kept, PublishedOk, PublishedFrame, Pow, R.Distance;
    KeptMaskWidth(P);
    FitsMeans(P, masks, others);
    PowPositive(2, P.pack.qBits);
    PowPositive(2, if P.maskBits == 64 then 0 else P.pack.qBits - P.maskBits);
    var published := FromMasks(P, masks, others);
    FromMasksPublished(P, masks, others);
    if published.Err? {
      return published;
    }
    var bytes := ToBytes(P, id, published.value);
    r := FromBytes(P, id, bytes);
    RoundNearest(P, masks);
    if others.Some? {
      RoundNearest(P, others.value);
    }
  }

  lemma FitsMeans(P: Profile, masks: seq<nat>, others: Option<seq<nat>>)
    ensures Fit(masks, P.pack.qBits) <==> forall i :: 0 <= i < |masks| ==> masks[i] < Pow(2, P.pack.qBits)
    ensures others.Some? ==>
              (Fit(others.value, P.pack.qBits) <==> forall i :: 0 <= i < |others.value| ==> others.value[i] < Pow(2, P.pack.qBits))
  {
  }
}
