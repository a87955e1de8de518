/** Gadget decomposition and key switching (inspiring/src/key_switching.rs). */
module KeySwitch {
  import opened Modular
  import opened Ring
  import opened RingLaws
  import opened Galois

  // ----- balanced gadget digits of one coefficient -----

  /** Base-z digits of x: all but the last balanced in [-z/2, z/2), the last one the remaining
      quotient.  Every digit is stored modulo q. */
  function Digits(q: int, z: int, ell: nat, x: int): (r: seq<int>)
    requires q > 0 && z >= 2 && ell > 0
    ensures |r| == ell
    decreases ell
  {
    if ell == 1 then [x % q]
    else
      var low := x % z;
      if low >= z / 2 then [q - (z - low)] + Digits(q, z, ell - 1, x / z + 1)
      else [low] + Digits(q, z, ell - 1, x / z)
  }

  /** ds[0] + ds[1] z + ds[2] z^2 + ... */
  function Value(z: int, ds: seq<int>): (r: int) {
    if ds == [] then 0 else ds[0] + z * Value(z, ds[1..])
  }

  /** The stored digits recompose to x modulo q. */
  lemma {:induction false} DigitsRecompose(q: int, z: int, ell: nat, x: int)
    requires q > 0 && z >= 2 && ell > 0
    ensures Value(z, Digits(q, z, ell, x)) % q == x % q
    decreases ell
  {
    var ds := Digits(q, z, ell, x);
    if ell == 1 {
      assert ds[1..] == [];
      assert Value(z, ds) == x % q;
      ModAdd(x, 0, q);
    } else {
      var low := x % z;
      var rest := if low >= z / 2 then x / z + 1 else x / z;
      DivMod(x, z);
      DigitsRecompose(q, z, ell - 1, rest);
      var v := Value(z, Digits(q, z, ell - 1, rest));
      assert ds[1..] == Digits(q, z, ell - 1, rest);
      assert Value(z, ds) == ds[0] + z * v;
      DigitStep(q, z, x, ds[0], v, rest, if low >= z / 2 then 1 else 0);
    }
  }

  lemma DigitStep(q: int, z: int, x: int, digit: int, v: int, rest: int, carry: int)
    requires q > 0 && v % q == rest % q && digit + z * rest == x + carry * q
    ensures (digit + z * v) % q == x % q
  {
    MulRight(z, v, q);
    MulRight(z, rest, q);
    ModAdd(digit, z * v, q);
    ModAdd(digit, z * rest, q);
    ModMultiple(x, carry, q);
  }

  /** Low digits are balanced, and the carry never pushes the top digit above z. */
  lemma {:induction false} DigitsBounded(q: int, z: int, ell: nat, x: int)
    requires z >= 2 && z % 2 == 0 && ell > 0 && z / 2 <= q && 0 <= x <= Pow(z, ell)
    ensures forall j :: 0 <= j < ell ==> 0 <= Digits(q, z, ell, x)[j] < q
    ensures forall j :: 0 <= j < ell - 1 ==>
              Digits(q, z, ell, x)[j] < z / 2 || q - z / 2 <= Digits(q, z, ell, x)[j]
    ensures exists top: int :: 0 <= top <= z && Digits(q, z, ell, x)[ell - 1] == top % q
    decreases ell
  {
    var ds := Digits(q, z, ell, x);
    if ell == 1 {
      assert Pow(z, 1) == z;
      assert ds[0] == x % q;
    } else {
      var low := x % z;
      var rest := if low >= z / 2 then x / z + 1 else x / z;
      QuotientBounded(z, ell, x);
      DigitsBounded(q, z, ell - 1, rest);
      var tail := Digits(q, z, ell - 1, rest);
      assert ds == [ds[0]] + tail;
      assert forall j :: 0 < j < ell ==> ds[j] == tail[j - 1];
      assert ds[ell - 1] == tail[ell - 2];
    }
  }

  lemma QuotientBounded(z: int, ell: nat, x: int)
    requires z >= 2 && ell > 1 && 0 <= x <= Pow(z, ell)
    ensures 0 <= x / z && (if x % z >= z / 2 then x / z + 1 else x / z) <= Pow(z, ell - 1)
  {
    assert Pow(z, ell) == z * Pow(z, ell - 1);
    CarryBounded(z, Pow(z, ell - 1), x, x / z, x % z);
    DivMod(x, z);
  }

  lemma CarryBounded(z: int, m: int, x: int, n: int, low: int)
    requires z >= 2 && 0 <= x <= z * m && x == n * z + low && 0 <= low < z
    ensures 0 <= n && (if low >= z / 2 then n + 1 else n) <= m
  {
    MulStrict(n, z);
    Distribute(n, m, z);
    MulStrict(n - m, z);
    assert m * z == z * m;
  }

  /** The low digit of x, masked out. */
  function MaskLow(x: int, z: int): (r: int)
    requires z > 0
  {
    x % z
  }

  /** What is left of x when its low digit is shifted out. */
  function ShiftOut(x: int, z: int): (r: int)
    requires z > 0
  {
    x / z
  }

  lemma DigitsUnfold(q: int, z: int, ell: nat, x: int)
    requires q > 0 && z >= 2 && ell > 1 && x >= 0
    ensures ShiftOut(x, z) >= 0
    ensures Digits(q, z, ell, x)
            == if MaskLow(x, z) >= z / 2 then [q - (z - MaskLow(x, z))] + Digits(q, z, ell - 1, ShiftOut(x, z) + 1)
               else [MaskLow(x, z)] + Digits(q, z, ell - 1, ShiftOut(x, z))
  {
  }

  lemma DigitsTop(q: int, z: int, x: int)
    requires q > 0 && z >= 2 && x >= 0
    ensures Digits(q, z, 1, x) == [Reduce(x, q)]
  {
    if x < q {
      ModSmall(x, q);
    }
  }

  function Reduce(x: int, q: int): (r: int)
    requires q > 0
  {
    if x >= q then x % q else x
  }

  lemma ReduceIs(x: int, q: int)
    requires q > 0 && x >= 0
    ensures Reduce(x, q) == x % q && 0 <= x % q
  {
    if x < q {
      ModSmall(x, q);
    }
  }

  /** The digit loop of one coefficient: mask, shift, and carry one when the low part is z/2 or more. */
  method DecomposeCoefficient(q: int, z: int, ell: nat, coeff: int) returns (digits: array<int>)
    requires q > 0 && ell > 0 && z >= 2 && coeff >= 0
    ensures fresh(digits) && digits[..] == Digits(q, z, ell, coeff % q)
  {
    hide *;
    var half := z / 2;
    digits := new int[ell];
    ReduceIs(coeff, q);
    var x := Reduce(coeff, q);
    ghost var want := Digits(q, z, ell, x);
    var j := 0;
    while j < ell - 1
      invariant 0 <= j <= ell - 1 && x >= 0
      invariant digits[..j] + Digits(q, z, ell - j, x) == want
    {
      ghost var before := digits[..j];
      DigitsUnfold(q, z, ell - j, x);
      var low := MaskLow(x, z);
      x := ShiftOut(x, z);
      var digit;
      if low >= half {
        x := x + 1;
        digit := q - (z - low);
      } else {
        digit := low;
      }
      digits[j] := digit;
      j := j + 1;
      assert digits[..j] == before + [digit];
    }
    DigitsTop(q, z, x);
    digits[ell - 1] := Reduce(x, q);
    assert digits[..] == digits[..ell - 1] + [digits[ell - 1]];
  }

  // ----- digits of a polynomial -----

  function Column(q: int, z: int, ell: nat, c: Poly, j: nat): (r: Poly)
    requires q > 0 && z >= 2 && j < ell
    ensures |r| == |c|
    ensures forall i :: 0 <= i < |c| ==> r[i] == Digits(q, z, ell, c[i] % q)[j]
  {
    seq(|c|, i requires 0 <= i < |c| => Digits(q, z, ell, c[i] % q)[j])
  }

  /** The ell digit polynomials of c. */
  function GadgetDigits(q: int, z: int, ell: nat, c: Poly): (r: seq<Poly>)
    requires q > 0 && z >= 2 && ell > 0
    ensures |r| == ell
    ensures forall j :: 0 <= j < ell ==> |r[j]| == |c| && r[j] == Column(q, z, ell, c, j)
  {
    seq(ell, j requires 0 <= j < ell => Column(q, z, ell, c, j))
  }

  function GadgetVector(z: int, ell: nat): (r: seq<int>)
    ensures |r| == ell && forall j :: 0 <= j < ell ==> r[j] == Pow(z, j)
  {
    seq(ell, j requires j >= 0 => Pow(z, j))
  }

  method SignedGadgetInvert(q: int, z: int, ell: nat, input: Poly) returns (out: array2<int>)
    requires q > 0 && ell > 0 && z >= 2 && z / 2 <= q
    requires forall i :: 0 <= i < |input| ==> input[i] >= 0
    ensures fresh(out) && out.Length0 == ell && out.Length1 == |input|
    ensures forall j, i :: 0 <= j < ell && 0 <= i < |input| ==> out[j, i] == GadgetDigits(q, z, ell, input)[j][i]
  {
    out := new int[ell, |input|];
    for c := 0 to |input|
      invariant forall j, i :: 0 <= j < ell && 0 <= i < c ==> out[j, i] == Digits(q, z, ell, input[i] % q)[j]
    {
      var digits := DecomposeCoefficient(q, z, ell, input[c]);
      ghost var ds := digits[..];
      for k := 0 to ell
        invariant digits[..] == ds
        invariant forall j, i :: 0 <= j < ell && 0 <= i < c ==> out[j, i] == Digits(q, z, ell, input[i] % q)[j]
        invariant forall j :: 0 <= j < k ==> out[j, c] == ds[j]
      {
        out[k, c] := digits[k];
      }
    }
  }

  lemma {:induction false} ValueSnoc(z: int, ds: seq<int>, x: int)
    ensures Value(z, ds + [x]) == Value(z, ds) + Pow(z, |ds|) * x
  {
    if ds == [] {
      assert ds + [x] == [x];
    } else {
      ValueSnoc(z, ds[1..], x);
      assert (ds + [x])[1..] == ds[1..] + [x];
      var p := Pow(z, |ds| - 1);
      assert z * (Value(z, ds[1..]) + p * x) == z * Value(z, ds[1..]) + (z * p) * x;
    }
  }

  lemma {:induction false} CoeffSumIsValue(z: int, ds: seq<int>, ell: nat, ps: seq<Poly>, i: nat, n: nat)
    requires n <= ell && n <= |ds| && n <= |ps|
    requires forall j :: 0 <= j < n ==> i < |ps[j]| && ps[j][i] == ds[j]
    ensures CoeffSum(GadgetVector(z, ell), ps, i, n) == Value(z, ds[..n])
  {
    if n > 0 {
      CoeffSumIsValue(z, ds, ell, ps, i, n - 1);
      assert ds[..n] == ds[..n - 1] + [ds[n - 1]];
      ValueSnoc(z, ds[..n - 1], ds[n - 1]);
    }
  }

  /** Exactness: combining the digit polynomials with 1, z, z^2, ... gives back c. */
  lemma GadgetRecomposes(q: int, z: int, ell: nat, c: Poly)
    requires q > 0 && z >= 2 && ell > 0 && Canon(q, c)
    ensures Comb(q, |c|, GadgetVector(z, ell), GadgetDigits(q, z, ell, c), ell) == c
  {
    var ps := GadgetDigits(q, z, ell, c);
    forall i | 0 <= i < |c|
      ensures Comb(q, |c|, GadgetVector(z, ell), ps, ell)[i] == c[i]
    {
      hide Digits, Comb;
      var ds := Digits(q, z, ell, c[i] % q);
      CombCoeff(q, |c|, GadgetVector(z, ell), ps, i, ell);
      CoeffSumIsValue(z, ds, ell, ps, i, ell);
      assert ds[..ell] == ds;
      DigitsRecompose(q, z, ell, c[i] % q);
      ModSmall(c[i], q);
    }
  }

  lemma GadgetDigitsCanon(q: int, z: int, ell: nat, c: Poly)
    requires q > 0 && z >= 2 && z % 2 == 0 && ell > 0 && z / 2 <= q <= Pow(z, ell)
    ensures Elems(q, |c|, GadgetDigits(q, z, ell, c))
  {
    forall j, i | 0 <= j < ell && 0 <= i < |c|
      ensures 0 <= GadgetDigits(q, z, ell, c)[j][i] < q
    {
      DigitsBounded(q, z, ell, c[i] % q);
    }
  }

  // ----- keys -----

  /** A key-switching matrix: the mask row w over the body row y, one column per gadget digit. */
  datatype Key = Key(w: seq<Poly>, y: seq<Poly>)

  predicate Shaped(q: int, d: nat, ell: nat, k: Key) {
    |k.w| == ell && |k.y| == ell && Elems(q, d, k.w) && Elems(q, d, k.y)
  }

  /** Column i of the key, read under sTo: the phase is the error es[i] plus z^i * sFrom. */
  predicate ColumnHides(q: int, z: int, d: nat, k: Key, i: nat, sFrom: Poly, sTo: Poly, es: seq<Poly>)
    requires q > 0 && d > 0 && i < |k.w| && i < |k.y| && i < |es|
    requires |k.w[i]| == |k.y[i]| == |es[i]| == |sFrom| == |sTo| == d
  {
    Add(q, Mul(q, k.w[i], sTo), k.y[i]) == Add(q, es[i], Scale(q, Pow(z, i), sFrom))
  }

  /** k switches from sFrom to sTo with column errors es. */
  ghost predicate Switches(q: int, z: int, d: nat, ell: nat, k: Key, sFrom: Poly, sTo: Poly, es: seq<Poly>) {
    && q > 0 && d > 0
    && Shaped(q, d, ell, k)
    && Elem(q, d, sFrom) && Elem(q, d, sTo)
    && |es| == ell && Elems(q, d, es)
    && forall i :: 0 <= i < ell ==> ColumnHides(q, z, d, k, i, sFrom, sTo, es)
  }

  /** The top row of a key: minus its masks.  It depends on nothing else, so a server computes it from public masks. */
  function MaskTop(q: int, a: seq<Poly>): (w: seq<Poly>)
    requires q > 0
    ensures |w| == |a| && forall i :: 0 <= i < |a| ==> |w[i]| == |a[i]|
  {
    seq(|a|, i requires 0 <= i < |a| => Scale(q, -1, a[i]))
  }

  /** The body row of a key: s_to a + e + z^i s_from. */
  function BodyRow(q: int, z: int, sFrom: Poly, sTo: Poly, a: seq<Poly>, e: seq<Poly>): (y: seq<Poly>)
    requires q > 0 && |sFrom| == |sTo| > 0 && |a| == |e|
    requires forall i :: 0 <= i < |a| ==> |a[i]| == |sTo| && |e[i]| == |sTo|
    ensures |y| == |a|
  {
    seq(|a|, i requires 0 <= i < |a| => Add(q, Add(q, Mul(q, sTo, a[i]), e[i]), Scale(q, Pow(z, i), sFrom)))
  }

  /** KS.Setup with its random masks a and errors e made explicit. */
  function KsSetup(q: int, z: int, sFrom: Poly, sTo: Poly, a: seq<Poly>, e: seq<Poly>): (k: Key)
    requires q > 0 && |sFrom| == |sTo| > 0 && |a| == |e|
    requires forall i :: 0 <= i < |a| ==> |a[i]| == |sTo| && |e[i]| == |sTo|
    ensures |k.w| == |a| && |k.y| == |a|
  {
    Key(MaskTop(q, a), BodyRow(q, z, sFrom, sTo, a, e))
  }

  /** The drawn masks cancel the top row. */
  lemma MasksCancel(q: int, a: seq<Poly>)
    requires q > 0
    ensures forall i :: 0 <= i < |a| ==> Add(q, MaskTop(q, a)[i], a[i]) == Zero(|a[i]|)
  {
    hide Add, Scale, Zero;
    forall i | 0 <= i < |a|
      ensures Add(q, MaskTop(q, a)[i], a[i]) == Zero(|a[i]|)
    {
      AddNeg(q, a[i]);
    }
  }

  lemma SetupColumn(q: int, sTo: Poly, a: Poly, e: Poly, g: Poly)
    requires q > 0 && |sTo| == |a| == |e| == |g| > 0 && Canon(q, sTo) && Canon(q, a)
    ensures Add(q, Mul(q, Scale(q, -1, a), sTo), Add(q, Add(q, Mul(q, sTo, a), e), g)) == Add(q, e, g)
  {
    hide *;
    var m := Mul(q, sTo, a);
    MulScaleLeft(q, -1, a, sTo);
    MulComm(q, sTo, a);
    AddAssoc(q, m, e, g);
    AddAssoc(q, Scale(q, -1, m), m, Add(q, e, g));
    AddNeg(q, m);
    AddZero(q, Add(q, e, g));
  }

  /** A generated key switches from s_from to s_to with exactly its errors, and its top row is cancelled by its masks. */
  lemma SetupSwitches(q: int, z: int, sFrom: Poly, sTo: Poly, a: seq<Poly>, e: seq<Poly>)
    requires q > 0 && |sFrom| == |sTo| > 0 && |a| == |e|
    requires Canon(q, sFrom) && Canon(q, sTo) && Elems(q, |sTo|, a) && Elems(q, |sTo|, e)
    ensures var k := KsSetup(q, z, sFrom, sTo, a, e);
            forall i :: 0 <= i < |a| ==> |k.w[i]| == |a[i]| && Add(q, k.w[i], a[i]) == Zero(|sTo|)
    ensures Switches(q, z, |sTo|, |a|, KsSetup(q, z, sFrom, sTo, a, e), sFrom, sTo, e)
  {
    var k := KsSetup(q, z, sFrom, sTo, a, e);
    MasksCancel(q, a);
    forall i | 0 <= i < |a|
      ensures ColumnHides(q, z, |sTo|, k, i, sFrom, sTo, e)
    {
      SetupColumn(q, sTo, a[i], e[i], Scale(q, Pow(z, i), sFrom));
    }
  }

  function MapTau(q: int, ps: seq<Poly>, t: int): (r: seq<Poly>)
    requires q > 0 && forall i :: 0 <= i < |ps| ==> |ps[i]| > 0
    ensures |r| == |ps|
    ensures forall i :: 0 <= i < |ps| ==> r[i] == Tau(q, ps[i], t) && |r[i]| == |ps[i]| && Canon(q, r[i])
  {
    seq(|ps|, i requires 0 <= i < |ps| => Tau(q, ps[i], t))
  }

  /** tau_t applied to every polynomial of the key. */
  function KeyImage(q: int, k: Key, t: int): (r: Key)
    requires q > 0
    requires forall i :: 0 <= i < |k.w| ==> |k.w[i]| > 0
    requires forall i :: 0 <= i < |k.y| ==> |k.y[i]| > 0
    ensures |r.w| == |k.w| && |r.y| == |k.y|
  {
    Key(MapTau(q, k.w, t), MapTau(q, k.y, t))
  }

  lemma ImageColumn(q: int, d: nat, t: int, w: Poly, y: Poly, s: Poly, e: Poly, c: int, f: Poly)
    requires q > 0 && |w| == |y| == |s| == |e| == |f| == d > 0 && Canon(q, s) && t % 2 == 1
    requires Add(q, Mul(q, w, s), y) == Add(q, e, Scale(q, c, f))
    ensures Add(q, Mul(q, Tau(q, w, t), Tau(q, s, t)), Tau(q, y, t))
            == Add(q, Tau(q, e, t), Scale(q, c, Tau(q, f, t)))
  {
    hide *;
    TauMul(q, w, s, t);
    TauAdd(q, Mul(q, w, s), y, t);
    TauAdd(q, e, Scale(q, c, f), t);
    TauScale(q, c, f, t);
  }

  /** The image of a key from sFrom to sTo is a key from tau(sFrom) to tau(sTo), with the errors' images. */
  lemma ImageSwitches(q: int, z: int, d: nat, ell: nat, k: Key, sFrom: Poly, sTo: Poly, es: seq<Poly>, t: int)
    requires Switches(q, z, d, ell, k, sFrom, sTo, es) && t % 2 == 1
    ensures Switches(q, z, d, ell, KeyImage(q, k, t), Tau(q, sFrom, t), Tau(q, sTo, t), MapTau(q, es, t))
  {
    var r := KeyImage(q, k, t);
    forall i | 0 <= i < ell
      ensures ColumnHides(q, z, d, r, i, Tau(q, sFrom, t), Tau(q, sTo, t), MapTau(q, es, t))
    {
      assert ColumnHides(q, z, d, k, i, sFrom, sTo, es);
      ImageColumn(q, d, t, k.w[i], k.y[i], sTo, es[i], Pow(z, i), sFrom);
    }
  }

  // ----- the switch -----

  datatype Pair = Pair(a: Poly, b: Poly)

  function SwitchWithDigits(q: int, d: nat, k: Key, digits: seq<Poly>, c2: Poly): (r: Pair)
    requires q > 0 && d > 0 && Shaped(q, d, |digits|, k) && |c2| == d
    requires forall i :: 0 <= i < |digits| ==> |digits[i]| == d
    ensures |r.a| == d && |r.b| == d && Canon(q, r.a) && Canon(q, r.b)
  {
    Pair(Dot(q, d, k.w, digits, |digits|), Add(q, Dot(q, d, k.y, digits, |digits|), c2))
  }

  function KsSwitch(q: int, z: int, ell: nat, d: nat, k: Key, c1: Poly, c2: Poly): (r: Pair)
    requires q > 0 && d > 0 && z >= 2 && ell > 0 && Shaped(q, d, ell, k) && |c1| == d && |c2| == d
    ensures |r.a| == d && |r.b| == d && Canon(q, r.a) && Canon(q, r.b)
  {
    SwitchWithDigits(q, d, k, GadgetDigits(q, z, ell, c1), c2)
  }

  /** One column: (w s + y) D == e D + z^i D f. */
  lemma SwitchColumn(q: int, d: nat, w: Poly, y: Poly, s: Poly, e: Poly, c: int, f: Poly, D: Poly)
    requires q > 0 && d > 0 && |y| == |e| == d
    requires Elem(q, d, w) && Elem(q, d, s) && Elem(q, d, f) && Elem(q, d, D)
    requires Add(q, Mul(q, w, s), y) == Add(q, e, Scale(q, c, f))
    ensures Add(q, Mul(q, Mul(q, w, D), s), Mul(q, y, D)) == Add(q, Mul(q, e, D), Mul(q, Scale(q, c, D), f))
  {
    hide Add, Mul, Scale;
    MulAssoc(q, w, D, s);
    MulComm(q, D, s);
    MulAssoc(q, w, s, D);
    MulAddLeft(q, Mul(q, w, s), y, D);
    MulAddLeft(q, e, Scale(q, c, f), D);
    MulScaleLeft(q, c, f, D);
    MulScaleLeft(q, c, D, f);
    MulComm(q, f, D);
  }

  lemma {:induction false} SwitchSum(q: int, z: int, d: nat, ell: nat, k: Key, sFrom: Poly, sTo: Poly, es: seq<Poly>,
                                     Ds: seq<Poly>, n: nat)
    requires Switches(q, z, d, ell, k, sFrom, sTo, es) && |Ds| == ell && Elems(q, d, Ds) && n <= ell
    ensures Add(q, Mul(q, Dot(q, d, k.w, Ds, n), sTo), Dot(q, d, k.y, Ds, n))
            == Add(q, Dot(q, d, es, Ds, n), Mul(q, Comb(q, d, GadgetVector(z, ell), Ds, n), sFrom))
  {
    hide Add, Mul, Scale, Dot, Comb;
    var G := GadgetVector(z, ell);
    if n == 0 {
      DotNil(q, d, k.w, Ds);
      DotNil(q, d, k.y, Ds);
      DotNil(q, d, es, Ds);
      CombNil(q, d, G, Ds);
      MulZeroLeft(q, sTo);
      MulZeroLeft(q, sFrom);
    } else {
      var m := n - 1;
      DotStep(q, d, k.w, Ds, m);
      DotStep(q, d, k.y, Ds, m);
      DotStep(q, d, es, Ds, m);
      CombStep(q, d, G, Ds, m);
      SwitchSum(q, z, d, ell, k, sFrom, sTo, es, Ds, m);
      assert ColumnHides(q, z, d, k, m, sFrom, sTo, es);
      SwitchColumn(q, d, k.w[m], k.y[m], sTo, es[m], Pow(z, m), sFrom, Ds[m]);
      SwitchSumStep(q, d, Dot(q, d, k.w, Ds, m), Mul(q, k.w[m], Ds[m]), sTo, Dot(q, d, k.y, Ds, m), Mul(q, k.y[m], Ds[m]),
                    Dot(q, d, es, Ds, m), Mul(q, es[m], Ds[m]),
                    Comb(q, d, G, Ds, m), Scale(q, Pow(z, m), Ds[m]), sFrom);
    }
  }

  lemma SwitchSumStep(q: int, d: nat, a: Poly, x: Poly, s: Poly, b: Poly, y: Poly, e: Poly, u: Poly, c: Poly, v: Poly, f: Poly)
    requires q > 0 && d > 0
    requires |a| == |x| == |s| == |b| == |y| == |e| == |u| == |c| == |v| == |f| == d
    requires Add(q, Mul(q, a, s), b) == Add(q, e, Mul(q, c, f))
    requires Add(q, Mul(q, x, s), y) == Add(q, u, Mul(q, v, f))
    ensures Add(q, Mul(q, Add(q, a, x), s), Add(q, b, y)) == Add(q, Add(q, e, u), Mul(q, Add(q, c, v), f))
  {
    hide *;
    MulAddLeft(q, a, x, s);
    AddSwap(q, Mul(q, a, s), Mul(q, x, s), b, y);
    MulAddLeft(q, c, v, f);
    AddSwap(q, e, Mul(q, c, f), u, Mul(q, v, f));
  }

  /** The error one switch of c1 adds: the key errors times the digits of c1. */
  function SwitchError(q: int, z: int, ell: nat, d: nat, es: seq<Poly>, c1: Poly): (r: Poly)
    requires q > 0 && d > 0 && z >= 2 && ell > 0 && |es| == ell && |c1| == d
    requires forall i :: 0 <= i < ell ==> |es[i]| == d
    ensures |r| == d && Canon(q, r)
  {
    Dot(q, d, es, GadgetDigits(q, z, ell, c1), ell)
  }

  /** z is an even base at least 2 whose digits fit below q and cover it, as RlweParams::new checks. */
  predicate GadgetFits(q: int, z: int, ell: nat) {
    q > 0 && z >= 2 && z % 2 == 0 && ell > 0 && z / 2 <= q <= Pow(z, ell)
  }

  /** KS.Switch: the result, read under sTo, is c1 sFrom + c2 plus the switch error. */
  lemma KsSwitchPhase(q: int, z: int, ell: nat, d: nat, k: Key, sFrom: Poly, sTo: Poly, es: seq<Poly>, c1: Poly, c2: Poly)
    requires GadgetFits(q, z, ell) && Switches(q, z, d, ell, k, sFrom, sTo, es) && Elem(q, d, c1) && Elem(q, d, c2)
    ensures var r := KsSwitch(q, z, ell, d, k, c1, c2);
            Add(q, Mul(q, r.a, sTo), r.b)
            == Add(q, Add(q, Mul(q, c1, sFrom), c2), SwitchError(q, z, ell, d, es, c1))
  {
    var Ds := GadgetDigits(q, z, ell, c1);
    GadgetDigitsCanon(q, z, ell, c1);
    GadgetRecomposes(q, z, ell, c1);
    SwitchSum(q, z, d, ell, k, sFrom, sTo, es, Ds, ell);
    var a, b := Dot(q, d, k.w, Ds, ell), Dot(q, d, k.y, Ds, ell);
    var e, m := SwitchError(q, z, ell, d, es, c1), Mul(q, c1, sFrom);
    assert Add(q, Mul(q, a, sTo), b) == Add(q, e, m);
    hide *;
    AddAssoc(q, Mul(q, a, sTo), b, c2);
    AddComm(q, e, m);
    AddAssoc(q, m, e, c2);
    AddComm(q, e, c2);
    AddAssoc(q, m, c2, e);
  }
}
