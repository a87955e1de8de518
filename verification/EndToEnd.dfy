/** One private retrieval from the database to the decoded block, on machine words: query and answer travel as bytes, the
    server packs on the fused path against a stored public trace, and the client decodes against the published mask. */
module EndToEnd {
  import opened Modular
  import opened MachineWords
  import opened Ring
  import opened Galois
  import opened KeySwitch
  import opened Intermediate
  import opened Collapse
  import opened MaskCascade
  import opened Packing
  import opened Preprocess
  import opened KgPart
  import opened Ntt
  import opened NttInverse
  import opened Automorph
  import opened AggregateNtt
  import opened FusedPack
  import opened SimplePir
  import opened Retrieval
  import opened NoiseBound
  import opened Budget
  import Bits
  import W = Rounding
  import T = Transport
  import B = ResponseBody

  // ----- rounding as an error -----

  /** The circular distance of a transport trip bounds the magnitude of the difference. */
  lemma MagDistance(q: int, x: int, y: int)
    requires q > 0
    ensures Mag(q, x - y) <= W.Distance(q, x, y)
  {
    hide Mag;
    DivMod(x - y, q);
    DivMod(y - x, q);
    ReduceTwice(x - y, q);
    SameIs(q, x - y, (x - y) % q);
    MagLeast(q, x - y, (x - y) % q);
    SubRight(0, y - x, q);
    SameIs(q, x - y, 0 - (y - x) % q);
    MagLeast(q, x - y, 0 - (y - x) % q);
  }

  /** The largest D with 2 b D <= q + b. */
  function TripBound(q: int, b: int): (r: int)
    requires b > 0
  {
    (q + b) / (2 * b)
  }

  lemma TripWithin(q: int, b: int, D: int)
    requires b > 0 && 2 * b * D <= q + b
    ensures D <= TripBound(q, b)
  {
    DivMod(q + b, 2 * b);
    var k := TripBound(q, b);
    if D > k {
      ProductOrder(k + 1, D, 2 * b);
      Distribute(k, 1, 2 * b);
      Commute(D, 2 * b);
    }
  }

  /** How far a query coefficient can move on the wire. */
  function QueryRounding(q: int, bits: nat): (r: int)
    requires q > 1
  {
    PowPositive(2, bits);
    if bits >= W.ModulusBits(q) then 0 else TripBound(q, Pow(2, bits))
  }

  lemma QueryMoves(q: int, bits: nat, x: int)
    requires q > 1 && bits >= 1 && 0 <= x < q
    ensures W.CoeffDown(x, q, bits) >= 0
    ensures Mag(q, W.CoeffUp(W.CoeffDown(x, q, bits), q, bits) - x) <= QueryRounding(q, bits)
    ensures 0 <= W.CoeffUp(W.CoeffDown(x, q, bits), q, bits) < q
  {
    hide Mag, W.CoeffUp, W.CoeffDown, W.Distance, TripBound, W.ModulusBits;
    W.CoeffTrip(x, q, bits);
    UpRange(x, q, bits);
    var y := W.CoeffUp(W.CoeffDown(x, q, bits), q, bits);
    PowPositive(2, bits);
    if bits >= W.ModulusBits(q) {
      MagZero(q);
      assert y - x == 0;
    } else {
      MagDistance(q, y, x);
      TripWithin(q, Pow(2, bits), W.Distance(q, y, x));
    }
  }

  lemma UpRange(x: int, q: int, bits: nat)
    requires q > 1 && bits >= 1 && 0 <= x < q
    ensures W.CoeffDown(x, q, bits) >= 0 && 0 <= W.CoeffUp(W.CoeffDown(x, q, bits), q, bits) < q
  {
    if bits < W.ModulusBits(q) {
      var Y := W.DownParts(x, q, bits);
      var Z := W.UpParts(W.CoeffDown(x, q, bits), q, bits);
    }
  }

  /** The query errors once the query has been replaced by another one. */
  function ErrsAfter(q: int, errs: seq<int>, query: seq<int>, received: seq<int>): (r: Poly)
    requires q > 0 && |errs| == |query| == |received|
    ensures |r| == |errs| && Canon(q, r)
    ensures forall j :: 0 <= j < |errs| ==> r[j] == (errs[j] + (received[j] - query[j])) % q
  {
    seq(|errs|, j requires 0 <= j < |errs| => (errs[j] + (received[j] - query[j])) % q)
  }

  lemma MovedEntry(q: int, delta: int, hit: bool, err: int, inner: int, x: int, y: int)
    requires q > 0 && 0 <= y < q && x == Entry(q, delta, hit, err, inner)
    ensures y == Entry(q, delta, hit, (err + (y - x)) % q, inner)
  {
    var sel := if hit then delta else 0;
    AddLeft(sel + err - inner, y - x, q);
    AddLeft(err + (y - x), sel - inner, q);
    SubRight(sel + err - inner + y, sel + err - inner, q);
    assert sel + (err + (y - x)) % q - inner == (err + (y - x)) % q + (sel - inner);
    assert err + (y - x) + (sel - inner) == sel + err - inner + y - (sel + err - inner) % q;
    ModSmall(y, q);
  }

  /** A query moved by rounding is a query with the movement added to its errors. */
  lemma MovedQuery(q: int, d: nat, delta: int, target: nat, polys: seq<Poly>, s: Poly, query: seq<int>, errs: seq<int>, received: seq<int>)
    requires q > 0 && d > 0 && |s| == d && QueryHolds(q, d, delta, target, polys, s, query, errs)
    requires |received| == |query| && forall j :: 0 <= j < |received| ==> 0 <= received[j] < q
    ensures |errs| == |query|
    ensures QueryHolds(q, d, delta, target, polys, s, received, ErrsAfter(q, errs, query, received))
  {
    hide Slice, Mul, ATilde, Canon, Entry, BlockQuery, QueryHolds;
    QueryShape(q, d, delta, target, polys, s, query, errs);
    var after := ErrsAfter(q, errs, query, received);
    forall b | 0 <= b < |polys|
      ensures |polys[b]| == d && Canon(q, polys[b]) && b * d + d <= |polys| * d
      ensures BlockQuery(q, delta, target, b * d, Slice(received, d, b), Slice(after, d, b), Mul(q, ATilde(q, polys[b]), s))
    {
      QueryAt(q, d, delta, target, polys, s, query, errs, b);
      MovedBlock(q, d, delta, target, b, query, errs, received, Mul(q, ATilde(q, polys[b]), s));
    }
    QueryFrom(q, d, delta, target, polys, s, received, after);
  }

  lemma MovedBlock(q: int, d: nat, delta: int, target: nat, b: nat, query: seq<int>, errs: seq<int>, received: seq<int>, inner: Poly)
    requires q > 0 && |query| == |errs| == |received| && b * d + d <= |query| && |inner| == d
    requires forall j :: 0 <= j < |received| ==> 0 <= received[j] < q
    requires BlockQuery(q, delta, target, b * d, Slice(query, d, b), Slice(errs, d, b), inner)
    ensures BlockQuery(q, delta, target, b * d, Slice(received, d, b), Slice(ErrsAfter(q, errs, query, received), d, b), inner)
  {
    hide Entry;
    forall j | 0 <= j < d
      ensures Slice(received, d, b)[j]
              == Entry(q, delta, b * d + j == target, Slice(ErrsAfter(q, errs, query, received), d, b)[j], inner[j])
    {
      var i := b * d + j;
      assert Slice(query, d, b)[j] == query[i] && Slice(errs, d, b)[j] == errs[i];
      MovedEntry(q, delta, i == target, errs[i], inner[j], query[i], received[i]);
    }
  }

  /** Its errors grow by the rounding at most. */
  lemma MovedErrors(q: int, errs: seq<int>, query: seq<int>, received: seq<int>, E: int, D: int)
    requires q > 0 && |errs| == |query| == |received| && Within(q, errs, E)
    requires forall j :: 0 <= j < |errs| ==> Mag(q, received[j] - query[j]) <= D
    ensures Within(q, ErrsAfter(q, errs, query, received), E + D)
  {
    hide Mag;
    forall j | 0 <= j < |errs|
      ensures Mag(q, ErrsAfter(q, errs, query, received)[j]) <= E + D
    {
      WithinAt(q, errs, E, j);
      MagMod(q, errs[j] + (received[j] - query[j]));
      MagSum(q, errs[j], received[j] - query[j]);
    }
  }

  // ----- the database -----

  /** Column c of column-major storage. */
  function ColumnsOf(db: seq<int>, rows: nat, n: nat): (r: seq<seq<int>>)
    requires |db| == n * rows
    ensures |r| == n && forall c :: 0 <= c < n ==> c * rows + rows <= |db| && r[c] == Slice(db, rows, c)
  {
    Fits(rows, n);
    seq(n, c requires 0 <= c < n => Slice(db, rows, c))
  }

  lemma Fits(rows: nat, n: nat)
    ensures forall c :: 0 <= c < n ==> c * rows + rows <= n * rows
  {
    forall c | 0 <= c < n
      ensures c * rows + rows <= n * rows
    {
      BlockFits(rows, n, c);
    }
  }

  lemma ColumnsPlain(p: int, db: seq<int>, rows: nat, n: nat)
    requires |db| == n * rows && forall x :: 0 <= x < |db| ==> 0 <= db[x] < p
    ensures ColumnsOk(p, rows, ColumnsOf(db, rows, n))
  {
  }

  /** The words of a reduced polynomial. */
  function AsWords(p: Poly, q: int): (r: seq<nat>)
    requires Canon(q, p)
    ensures r == p && T.Below(r, q)
  {
    p
  }

  // ----- server, offline -----

  method HintsOf(q: int, d: nat, polys: seq<Poly>, columns: seq<seq<int>>) returns (rows: seq<seq<int>>)
    requires q > 0 && d > 0 && (forall b :: 0 <= b < |polys| ==> |polys[b]| == d)
    requires forall k :: 0 <= k < |columns| ==> |columns[k]| == |polys| * d
    ensures rows == HintRows(q, d, polys, columns)
  {
    rows := [];
    for k := 0 to |columns|
      invariant |rows| == k && forall i :: 0 <= i < k ==> rows[i] == HintRows(q, d, polys, columns)[i]
    {
      var hint := HintColumn(q, d, polys, columns[k]);
      rows := rows + [hint];
    }
  }

  function Tildes(q: int, d: nat, rows: seq<seq<int>>): (r: seq<Poly>)
    requires q > 0 && d > 0 && RowsShape(d, rows)
    ensures Embedded(q, d, rows, r)
  {
    seq(|rows|, k requires 0 <= k < |rows| => ATilde(q, rows[k]))
  }

  /** from_ntt on every row of a table. */
  method BackwardRows(N: Slots, dInv: int, slots: array2<int>, ghost want: seq<Poly>) returns (a: seq<Poly>)
    requires N.Ok() && N.d >= 2 && Inverses(N.q, N.d, dInv) && slots.Length0 == slots.Length1 == N.d == |want|
    requires forall j :: 0 <= j < N.d ==> |want[j]| == N.d && Canon(N.q, want[j])
    requires forall j, s :: 0 <= j < N.d && 0 <= s < N.d ==> slots[j, s] == Forward(N, want[j])[s]
    ensures a == want
  {
    hide *;
    a := [];
    for j := 0 to N.d
      invariant |a| == j && forall i :: 0 <= i < j ==> a[i] == want[i]
    {
      var row := RowOf(slots, j);
      assert row == Forward(N, want[j]);
      BackwardForward(N, dInv, want[j]);
      a := a + [Backward(N, dInv, row)];
    }
  }

  /** The tables of X -> X^5 and X -> X^-1 that all others are composed from. */
  predicate Generators(N: Slots, g: Table, h: Table)
    requires N.Ok()
  {
    Realises(N, g) && Realises(N, h) && N.d > 0 && g.exponent == 5 % (2 * N.d) && h.exponent == 2 * N.d - 1
  }

  lemma GeneratorsAre(N: Slots, g: Table, h: Table)
    requires N.Ok() && Generators(N, g, h)
    ensures Realises(N, g) && Realises(N, h) && N.d > 0 && g.exponent == 5 % (2 * N.d) && h.exponent == 2 * N.d - 1
  {
  }

  lemma AggregateShape(q: int, d: nat, dInv: int, rows: seq<seq<int>>)
    requires q > 0 && d > 0 && d % 2 == 0 && RowsShape(d, rows)
    ensures |AAgg(q, d, dInv, rows)| == d && Elems(q, d, AAgg(q, d, dInv, rows))
    ensures forall j :: 0 <= j < d ==> |AAgg(q, d, dInv, rows)[j]| == d && Canon(q, AAgg(q, d, dInv, rows)[j])
  {
    hide AggSlot;
  }

  /** The aggregate in coefficient form, by the transposed transforms and the inverse transform. */
  method AggregateOf(N: Slots, S: Setting, dInv: int, rows: seq<seq<int>>, g: Table, h: Table) returns (a: seq<Poly>)
    requires Matches(N, S) && N.Ok() && S.q > 0 && S.d > 0 && Inverses(S.q, S.d, dInv) && RowsShape(S.d, rows) && |rows| == S.d
    requires Generators(N, g, h)
    ensures a == AAgg(S.q, S.d, dInv, rows) && |a| == S.d && Elems(S.q, S.d, a)
  {
    hide *;
    MatchSizes(N, S);
    GeneratorsAre(N, g, h);
    AggregateShape(S.q, S.d, dInv, rows);
    var slots := BuildAAgg(N, dInv, rows, Tildes(N.q, N.d, rows), g, h);
    a := BackwardRows(N, dInv, slots, AAgg(N.q, N.d, dInv, rows));
  }

  // ----- server, online -----

  /** The packed body of a query against a stored trace, back in coefficient form. */
  method PackBody(N: Slots, S: Setting, dInv: int, g: Table, h: Table, t: Trace, kgBody: seq<Poly>, khBody: seq<Poly>,
                  b: Poly, plan: R.Plan) returns (row: Poly)
    requires Matches(N, S) && N.Ok() && S.Ok() && S.q < WORD && S.d >= 2 && S.d % 2 == 0 && Inverses(S.q, S.d, dInv) && R.Span(plan) == S.d - 1
    requires Generators(N, g, h)
    requires RowOk(S, kgBody) && RowOk(S, khBody) && |b| == S.d
    requires |t.blocks| == S.d - 1 && BlocksOk(S, t.blocks) && Reduced(S, t.blocks)
    ensures LanesFit(S) ==> row == UploadedPack(S, t, kgBody, khBody, b).b
  {
    hide *;
    MatchSizes(N, S);
    GeneratorsAre(N, g, h);
    var left, right := TauGPowerTables(N, g, h, S.d / 2 - 1);
    TablesFrom(N, left, right);
    var slots := CollapseUploaded(N, S, left, right, t, kgBody, khBody, b, plan);
    LanesFitIs(S);
    BackwardForward(N, dInv, UploadedPack(S, t, kgBody, khBody, b).b);
    row := Backward(N, dInv, slots);
  }

  /** The lane sums of the fused collapse stay within 64 bits. */
  predicate LanesFit(S: Setting) {
    S.q <= HALF || (S.d - 1) * S.ell >= 4
  }

  lemma LanesFitIs(S: Setting)
    ensures LanesFit(S) <==> S.q <= HALF || (S.d - 1) * S.ell >= 4
  {
  }

  lemma TablesFrom(N: Slots, left: seq<Table>, right: seq<Table>)
    requires N.Ok() && N.d >= 2 && |left| == |right| == N.d / 2 - 1
    requires forall i :: 0 <= i < N.d / 2 - 1 ==> left[i].exponent == LeftExp(N.d, i) && right[i].exponent == RightExp(N.d, i)
    requires forall i :: 0 <= i < N.d / 2 - 1 ==> Realises(N, left[i]) && Realises(N, right[i])
    ensures TablesRealise(N, left, right)
  {
    hide LeftExp, RightExp, Realises;
  }

  method AnswersOf(q: int, query: seq<int>, db: seq<int>, rows: nat, n: nat) returns (bs: seq<int>)
    requires 0 < q < WORD && |query| == rows && |db| == n * rows && AllWords(query) && AllWords(db)
    ensures forall c :: 0 <= c < n ==> |ColumnsOf(db, rows, n)[c]| == |query|
    ensures bs == Answers(q, query, ColumnsOf(db, rows, n))
  {
    hide Inner, Slice;
    var out := MultiplyQuery(q, db, rows, n, query);
    bs := out[..];
    SliceSizes(db, rows, n);
  }

  lemma SliceSizes(db: seq<int>, rows: nat, n: nat)
    requires |db| == n * rows
    ensures forall c :: 0 <= c < n ==> |ColumnsOf(db, rows, n)[c]| == rows
  {
  }

  // ----- joining the parts -----

  /** What rounding the body added. */
  function BodyMoved(q: int, row: Poly, back: Poly): (u: Poly)
    requires q > 0 && |row| == |back|
    ensures |u| == |row| && forall k :: 0 <= k < |row| ==> u[k] == (back[k] - row[k]) % q
  {
    seq(|row|, k requires 0 <= k < |row| => (back[k] - row[k]) % q)
  }

  /** Decrypting the rounded body is decrypting the exact one plus what rounding added. */
  lemma MovedPhase(q: int, c1: Poly, row: Poly, back: Poly, s: Poly)
    requires q > 0 && |c1| == |row| == |back| == |s| > 0
    ensures Phase(q, Pair(c1, back), s) == Add(q, Phase(q, Pair(c1, row), s), BodyMoved(q, row, back))
  {
    hide *;
    forall k | 0 <= k < |s|
      ensures Phase(q, Pair(c1, back), s)[k] == Add(q, Phase(q, Pair(c1, row), s), BodyMoved(q, row, back))[k]
    {
      PhaseEntry(q, c1, back, s, k);
      PhaseEntry(q, c1, row, s, k);
      AddEntry(q, Phase(q, Pair(c1, row), s), BodyMoved(q, row, back), k);
      MovedValue(q, row[k], back[k], Mul(q, c1, s)[k]);
    }
  }

  lemma MovedValue(q: int, x: int, y: int, m: int)
    requires q > 0
    ensures (y + m) % q == ((x + m) % q + (y - x) % q) % q
  {
    PartsReduced(q, x + m, y - x, y + m);
  }

  lemma PartsReduced(q: int, x: int, y: int, sum: int)
    requires q > 0 && sum == x + y
    ensures sum % q == (x % q + y % q) % q
  {
    ModAdd(x, y, q);
  }

  lemma MovedWithin(q: int, q1: int, row: seq<nat>, back: seq<nat>)
    requires 0 < q < HALF && 1 < q1 < HALF && back == B.RescaleAll(B.RescaleAll(row, q, q1), q1, q)
    ensures Within(q, BodyMoved(q, row, back), TripBound(q, q1))
  {
    hide Mag, TripBound, W.Distance, W.Rescale;
    forall k | 0 <= k < |row|
      ensures Mag(q, BodyMoved(q, row, back)[k]) <= TripBound(q, q1)
    {
      B.BodyError(row, q, q1, k);
      var x: int, y: int := row[k], back[k];
      TripWithin(q, q1, W.Distance(q, y, x));
      MagDistance(q, y, x);
      MagMod(q, y - x);
    }
  }

  /** Uploading the bodies against the stored trace of the hints is packing the batch. */
  lemma UploadIsBatch(S: Setting, dInv: int, kg: Key, kh: Key, rows: seq<seq<int>>, bs: seq<int>)
    requires S.Ok() && S.d >= 2 && S.d % 2 == 0 && PowerOfTwo(S.d) && |rows| == |bs| == S.d && RowsShape(S.d, rows)
    requires Shaped(S.q, S.d, S.ell, kg) && Shaped(S.q, S.d, S.ell, kh)
    ensures S.q > 0 && RowOk(S, kg.w) && RowOk(S, kh.w) && RowOk(S, kg.y) && RowOk(S, kh.y)
    ensures Elems(S.q, S.d, AAgg(S.q, S.d, dInv, rows)) && |AAgg(S.q, S.d, dInv, rows)| == S.d
    ensures UploadedPack(S, BlockTrace(S, AAgg(S.q, S.d, dInv, rows), kg.w, kh.w), kg.y, kh.y, BTilde(S.q, bs))
            == PackBatch(S, dInv, kg, kh, rows, bs)
  {
    hide *;
    SettingSizes(S);
    PackBatchIs(S, dInv, kg, kh, rows, bs);
    UploadedMatchesBound(S, AAgg(S.q, S.d, dInv, rows), kg, kh, BTilde(S.q, bs));
  }

  /** Bounds of everything random, and a budget that covers them together with both roundings. */
  predicate WithinBudget(S: Setting, p: int, q1: int, bits: nat, errs: seq<int>, eg: seq<Poly>, eh: seq<Poly>, E: int, K: int)
    requires S.q > 1 && p > 0 && q1 > 1
  {
    && Within(S.q, errs, E) && AllWithin(S.q, eg, K) && AllWithin(S.q, eh, K) && K >= 0
    && 2 * (|errs| * ((E + QueryRounding(S.q, bits)) * (p - 1)) + (S.d - 1) * (S.d * (K * ((S.ell + 1) * (S.z / 2))))
            + TripBound(S.q, q1)) < S.q / p
  }

  lemma BudgetParts(S: Setting, p: int, q1: int, bits: nat, errs: seq<int>, eg: seq<Poly>, eh: seq<Poly>, E: int, K: int)
    requires S.q > 1 && p > 0 && q1 > 1 && WithinBudget(S, p, q1, bits, errs, eg, eh, E, K)
    ensures Within(S.q, errs, E) && AllWithin(S.q, eg, K) && AllWithin(S.q, eh, K) && K >= 0
    ensures 2 * (|errs| * ((E + QueryRounding(S.q, bits)) * (p - 1)) + (S.d - 1) * (S.d * (K * ((S.ell + 1) * (S.z / 2))))
                 + TripBound(S.q, q1)) < S.q / p
  {
  }

  /** The budget on parameters alone. */
  lemma BudgetMeans(S: Setting, p: int, q1: int, bits: nat, errs: seq<int>, eg: seq<Poly>, eh: seq<Poly>, E: int, K: int)
    requires S.q > 1 && p > 0 && q1 > 1
    ensures Pow(2, bits) > 0
    ensures WithinBudget(S, p, q1, bits, errs, eg, eh, E, K) <==>
              var queryMove := if S.q - 1 < Pow(2, bits) then 0 else (S.q + Pow(2, bits)) / (2 * Pow(2, bits));
              && Within(S.q, errs, E) && AllWithin(S.q, eg, K) && AllWithin(S.q, eh, K) && K >= 0
              && 2 * (|errs| * ((E + queryMove) * (p - 1)) + (S.d - 1) * (S.d * (K * ((S.ell + 1) * (S.z / 2))))
                      + (S.q + q1) / (2 * q1)) < S.q / p
  {
    hide Within, AllWithin, W.ModulusBits, Pow;
    PowPositive(2, bits);
    W.ModulusBitsLeast(S.q, bits);
  }

  /** The query as received is the sent one moved coefficient by coefficient. */
  predicate ReceivedAs(q: int, bits: nat, query: seq<int>, received: seq<int>)
    requires q > 1
  {
    |received| == |query| && forall j :: 0 <= j < |query| ==> 0 <= received[j] < q && Mag(q, received[j] - query[j]) <= QueryRounding(q, bits)
  }

  /** The decoded block is the target row, for keys that hide what they should. */
  lemma BlockDecoded(S: Setting, dInv: int, p: int, q1: int, bits: nat, kg: Key, kh: Key, s: Poly, eg: seq<Poly>, eh: seq<Poly>,
                     target: nat, polys: seq<Poly>, query: seq<int>, errs: seq<int>, received: seq<int>, columns: seq<seq<int>>,
                     row: seq<nat>, back: seq<nat>, c1: Poly, k: nat, E: int, K: int)
    requires S.Ok() && 1 < S.q < HALF && S.d >= 2 && PowerOfTwo(S.d) && Inverses(S.q, S.d, dInv) && KeysHide(S, kg, kh, s, eg, eh)
    requires 0 < p <= S.q && 1 < q1 < HALF && |s| == S.d && QueryHolds(S.q, S.d, S.q / p, target, polys, s, query, errs)
    requires |columns| == S.d && ColumnsOk(p, |polys| * S.d, columns) && target < |polys| * S.d && k < S.d
    requires S.q % p <= S.q / p - (S.q / p) / 2
    requires ReceivedAs(S.q, bits, query, received) && |errs| == |query| == |polys| * S.d
    requires WithinBudget(S, p, q1, bits, errs, eg, eh, E, K)
    requires back == B.RescaleAll(B.RescaleAll(row, S.q, q1), q1, S.q) && |row| == |c1| == S.d
    requires Shaped(S.q, S.d, S.ell, kg) && Shaped(S.q, S.d, S.ell, kh)
    requires (forall b :: 0 <= b < |polys| ==> |polys[b]| == S.d) && forall i :: 0 <= i < |columns| ==> |columns[i]| == |polys| * S.d
    requires Pair(c1, row) == PackBatch(S, dInv, kg, kh, HintRows(S.q, S.d, polys, columns), Answers(S.q, received, columns))
    ensures S.q / p > 0 && Decode(Phase(S.q, Pair(c1, back), s)[k], S.q / p, p) == columns[k][target]
  {
    hide *;
    BudgetParts(S, p, q1, bits, errs, eg, eh, E, K);
    ReceivedParts(S.q, bits, query, received);
    MovedQuery(S.q, S.d, S.q / p, target, polys, s, query, errs, received);
    MovedErrors(S.q, errs, query, received, E, QueryRounding(S.q, bits));
    MovedWithin(S.q, q1, row, back);
    MovedPhase(S.q, c1, row, back, s);
    RetrievedWithinBudget(S, dInv, p, kg, kh, s, eg, eh, target, polys, received, ErrsAfter(S.q, errs, query, received), columns,
                          BodyMoved(S.q, row, back), k, E + QueryRounding(S.q, bits), K, TripBound(S.q, q1));
  }

  lemma ReceivedParts(q: int, bits: nat, query: seq<int>, received: seq<int>)
    requires q > 1 && ReceivedAs(q, bits, query, received)
    ensures |received| == |query|
    ensures forall j :: 0 <= j < |query| ==> 0 <= received[j] < q && Mag(q, received[j] - query[j]) <= QueryRounding(q, bits)
  {
  }

  /** Query bytes and back. */
  method CarryQuery(q: int, bits: nat, query: seq<int>) returns (received: seq<int>)
    requires q > 1 && 1 <= bits <= 64 && Canon(q, query)
    ensures ReceivedAs(q, bits, query, received)
  {
    hide Bits.Encodes, Mag, QueryRounding, W.CoeffUp, W.CoeffDown;
    var words := AsWords(query, q);
    var bytes := T.SendQuery(words, q, bits);
    Bits.EncodesParts(bytes, T.Downs(words, q, bits), bits);
    var r := T.ReceiveQuery(bytes, |words|, q, bits);
    received := r.value;
    forall j | 0 <= j < |query|
      ensures 0 <= received[j] < q && Mag(q, received[j] - query[j]) <= QueryRounding(q, bits)
    {
      CanonAt(q, query, j);
      QueryMoves(q, bits, query[j]);
    }
  }

  /** Response bytes and back. */
  method CarryBody(q: int, q1: int, row: seq<nat>) returns (back: seq<nat>)
    requires 0 < q < WORD && 1 < q1 < WORD
    ensures back == B.RescaleAll(B.RescaleAll(row, q, q1), q1, q)
  {
    hide Bits.Encodes, B.RescaleAll, W.ModulusBits;
    var bytes := B.SerializeBody(row, q, q1);
    Bits.EncodesParts(bytes, B.RescaleAll(row, q, q1), W.ModulusBits(q1));
    back := B.RecoverBody(bytes, |row|, q1, q);
    assert B.SentAs(bytes, row, q, q1);
  }

  /** Published mask bytes and back. */
  method CarryMask(q: int, c1: Poly) returns (r: Poly)
    requires 1 < q < WORD && Canon(q, c1)
    ensures r == c1
  {
    hide Bits.Encodes, W.ModulusBits;
    var words := AsWords(c1, q);
    var bytes := T.PublishC1(words, q);
    Bits.EncodesParts(bytes, words, W.ModulusBits(q));
    r := T.RecoverC1(bytes, |words|, q);
  }

  /** The server's packed block: the mask of the trace it stored, whose top rows it computes from the public masks alone,
      and the packed body of the received query under the uploaded bodies. */
  method ServeBlock(N: Slots, S: Setting, dInv: int, g: Table, h: Table, plan: R.Plan, db: seq<int>, polys: seq<Poly>,
                    received: seq<int>, ag: seq<Poly>, ah: seq<Poly>, kgBody: seq<Poly>, khBody: seq<Poly>)
    returns (c1: Poly, row: Poly)
    requires Matches(N, S) && N.Ok() && Generators(N, g, h) && S.Ok() && 0 < S.q < WORD && S.d >= 2 && PowerOfTwo(S.d)
    requires Inverses(S.q, S.d, dInv) && R.Span(plan) == S.d - 1 && AllWords(db) && AllWords(received)
    requires |db| == S.d * (|polys| * S.d) && |received| == |polys| * S.d && forall b :: 0 <= b < |polys| ==> |polys[b]| == S.d
    requires RowOk(S, ag) && RowOk(S, ah) && RowOk(S, kgBody) && RowOk(S, khBody)
    ensures var columns := ColumnsOf(db, |polys| * S.d, S.d);
            var kg, kh := Key(MaskTop(S.q, ag), kgBody), Key(MaskTop(S.q, ah), khBody);
            && Shaped(S.q, S.d, S.ell, kg) && Shaped(S.q, S.d, S.ell, kh)
            && (forall i :: 0 <= i < |columns| ==> |columns[i]| == |polys| * S.d)
            && (LanesFit(S) ==>
                  Pair(c1, row) == PackBatch(S, dInv, kg, kh, HintRows(S.q, S.d, polys, columns), Answers(S.q, received, columns)))
    ensures LanesFit(S) ==> |c1| == |row| == S.d && Canon(S.q, c1) && Canon(S.q, row)
  {
    hide *;
    MatchSizes(N, S);
    TopRowOk(S, ag);
    TopRowOk(S, ah);
    var kgTop, khTop := MaskTop(S.q, ag), MaskTop(S.q, ah);
    ghost var kg, kh := Key(kgTop, kgBody), Key(khTop, khBody);
    RestoredShape(S, kgTop, kgBody);
    RestoredShape(S, khTop, khBody);
    var n := |polys| * S.d;
    var columns := ColumnsOf(db, n, S.d);
    SliceSizes(db, n, S.d);
    var hints := HintsOf(S.q, S.d, polys, columns);
    var a := AggregateOf(N, S, dInv, hints, g, h);
    var bs := AnswersOf(S.q, received, db, n, S.d);
    UploadIsBatch(S, dInv, kg, kh, hints, bs);
    var t := PrecomputeReferenceTrace(S, a, kgTop, khTop);
    BlockTraceIs(S, a, kgTop, khTop);
    TraceReduced(S, a, LeftRows(S, kgTop), RightRows(S, kgTop), khTop);
    var body := FillBody(S.q, bs);
    row := PackBody(N, S, dInv, g, h, t, kgBody, khBody, body[..], plan);
    c1 := t.c1;
    UploadedPackIs(S, t, kgBody, khBody, BTilde(S.q, bs));
  }

  lemma RestoredShape(S: Setting, top: seq<Poly>, body: seq<Poly>)
    requires RowOk(S, top) && RowOk(S, body)
    ensures Shaped(S.q, S.d, S.ell, Key(top, body))
  {
  }

  /** Private retrieval of one block: the client uploads key bodies for its secret under the public masks, the server
      restores nothing but what those masks give it, and whenever the budget covers the query errors, the key errors and both roundings,
      the client decodes the target row of the block's d columns.  Both moduli are below 2^63, where every 64-bit sum,
      cast and lane of the run computes what it should. */
  method RetrieveBlock(N: Slots, S: Setting, dInv: int, p: int, q1: int, bits: nat, g: Table, h: Table, plan: R.Plan,
                       db: seq<int>, polys: seq<Poly>, target: nat, s: Poly, errs: seq<int>,
                       ag: seq<Poly>, eg: seq<Poly>, ah: seq<Poly>, eh: seq<Poly>, ghost E: int, ghost K: int) returns (out: seq<int>)
    requires Matches(N, S) && N.Ok() && Generators(N, g, h) && S.Ok() && 1 < S.q < HALF && S.d >= 2 && PowerOfTwo(S.d)
    requires Inverses(S.q, S.d, dInv) && R.Span(plan) == S.d - 1
    requires 2 <= p <= S.q && S.q % p <= S.q / p - (S.q / p) / 2
    requires 1 < q1 < HALF && 1 <= bits <= 64
    requires |db| == S.d * (|polys| * S.d) && (forall x :: 0 <= x < |db| ==> 0 <= db[x] < p) && target < |polys| * S.d
    requires forall b :: 0 <= b < |polys| ==> |polys[b]| == S.d && Canon(S.q, polys[b])
    requires Elem(S.q, S.d, s) && |errs| == |polys| * S.d && (forall r :: 0 <= r < |errs| ==> 0 <= errs[r] < S.q)
    requires RowOk(S, ag) && RowOk(S, eg) && RowOk(S, ah) && RowOk(S, eh)
    ensures |out| == S.d && Pow(2, bits) > 0
    ensures var queryMove := if S.q - 1 < Pow(2, bits) then 0 else (S.q + Pow(2, bits)) / (2 * Pow(2, bits));
            && Within(S.q, errs, E) && AllWithin(S.q, eg, K) && AllWithin(S.q, eh, K) && K >= 0
            && 2 * (|errs| * ((E + queryMove) * (p - 1)) + (S.d - 1) * (S.d * (K * ((S.ell + 1) * (S.z / 2))))
                    + (S.q + q1) / (2 * q1)) < S.q / p ==>
              forall k :: 0 <= k < S.d ==> 0 <= k * (|polys| * S.d) + target < |db| && out[k] == db[k * (|polys| * S.d) + target]
  {
    hide *;
    MatchSizes(N, S);
    ElemSize(S.q, S.d, s);
    var n, delta := |polys| * S.d, S.q / p;
    StepRange(S.q, p);
    NarrowModulus(S, p);
    W.WordOrder();
    BudgetMeans(S, p, q1, bits, errs, eg, eh, E, K);
    RestoredKeysHide(S, s, ag, eg, ah, eh);
    var kgBody := BodyRow(S.q, S.z, Tau(S.q, s, LeftExp(S.d, 1)), s, ag, eg);
    var khBody := BodyRow(S.q, S.z, Tau(S.q, s, 2 * S.d - 1), s, ah, eh);
    ghost var kg, kh := Key(MaskTop(S.q, ag), kgBody), Key(MaskTop(S.q, ah), khBody);
    KeysHideParts(S, kg, kh, s, eg, eh);
    var sent := EncryptedSelectionQuery(S.q, S.d, delta, polys, s, target, errs);
    var query := sent[..];
    QueryCanon(S.q, S.d, delta, target, polys, s, query, errs);
    var received := CarryQuery(S.q, bits, query);
    ReceivedParts(S.q, bits, query, received);
    ResiduesAreWords(db, p);
    ResiduesAreWords(received, S.q);
    var mask, row := ServeBlock(N, S, dInv, g, h, plan, db, polys, received, ag, ah, kgBody, khBody);
    var c1 := CarryMask(S.q, mask);
    var words := AsWords(row, S.q);
    var back := CarryBody(S.q, q1, words);
    RescaledCanon(words, q1, S.q);
    out := DecodeRows(S.q, p, delta, c1, back, s);
    ghost var columns := ColumnsOf(db, n, S.d);
    ColumnsPlain(p, db, n, S.d);
    if WithinBudget(S, p, q1, bits, errs, eg, eh, E, K) {
      forall k | 0 <= k < S.d
        ensures 0 <= k * n + target < |db| && out[k] == db[k * n + target]
      {
        BlockDecoded(S, dInv, p, q1, bits, kg, kh, s, eg, eh, target, polys, query, errs, received, columns, words, back, c1, k, E, K);
        EntryOf(db, n, S.d, k, target);
      }
    }
  }

  /** Below 2^63 no sum of the query, of a lane or of the decoder wraps. */
  lemma NarrowModulus(S: Setting, p: int)
    requires 0 < S.q < HALF && p > 0 && 0 < S.q / p < S.q
    ensures S.q < WORD && S.q / p + S.q <= WORD && LanesFit(S) && WordDecodes(S.q, p, S.q / p)
  {
  }

  lemma ResiduesAreWords(xs: seq<int>, q: int)
    requires q < WORD && forall i :: 0 <= i < |xs| ==> 0 <= xs[i] < q
    ensures AllWords(xs)
  {
  }

  lemma StepRange(q: int, p: int)
    requires 2 <= p <= q
    ensures 0 < q / p < q
  {
    ScalingParts(q, p);
    DivMod(q, p);
    ProductOrder(2, p, q / p);
    Commute(q / p, p);
  }

  /** Query entries are residues. */
  lemma QueryCanon(q: int, d: nat, delta: int, target: nat, polys: seq<Poly>, s: Poly, query: seq<int>, errs: seq<int>)
    requires q > 0 && d > 0 && |s| == d && QueryHolds(q, d, delta, target, polys, s, query, errs)
    ensures Canon(q, query) && |query| == |errs| == |polys| * d
  {
    hide Slice, Mul, ATilde, BlockQuery, QueryHolds, Entry;
    QueryShape(q, d, delta, target, polys, s, query, errs);
    forall i | 0 <= i < |query|
      ensures 0 <= query[i] < q
    {
      var b, j := i / d, i % d;
      DivMod(i, d);
      BlockOfRow(i, d, |polys|);
      QueryAt(q, d, delta, target, polys, s, query, errs, b);
      BlockEntry(q, delta, target, b * d, Slice(query, d, b), Slice(errs, d, b), Mul(q, ATilde(q, polys[b]), s), j);
      assert Slice(query, d, b)[j] == query[b * d + j];
    }
  }

  lemma BlockOfRow(i: nat, d: nat, n: nat)
    requires d > 0 && i < n * d
    ensures 0 <= i / d < n
  {
    DivMod(i, d);
    MulStrict(i / d, d);
    if i / d >= n {
      ProductOrder(n, i / d, d);
    }
  }

  lemma BlockEntry(q: int, delta: int, target: nat, base: nat, query: seq<int>, errs: seq<int>, inner: seq<int>, j: nat)
    requires q > 0 && |query| == |errs| == |inner| && BlockQuery(q, delta, target, base, query, errs, inner) && j < |query|
    ensures 0 <= query[j] < q
  {
  }

  lemma RescaledCanon(words: seq<nat>, q1: int, q: int)
    requires 0 < q < WORD && 0 < q1 < WORD
    ensures Canon(q, B.RescaleAll(B.RescaleAll(words, q, q1), q1, q))
  {
    hide W.Rescale;
  }

  lemma EntryOf(db: seq<int>, rows: nat, n: nat, k: nat, target: nat)
    requires |db| == n * rows && k < n && target < rows
    ensures 0 <= k * rows + target < |db| && |ColumnsOf(db, rows, n)[k]| == rows
    ensures ColumnsOf(db, rows, n)[k][target] == db[k * rows + target]
  {
    BlockFits(rows, n, k);
  }
}
