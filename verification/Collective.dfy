/** n-of-n delinearized multisignatures (collective.c, ed25519_delinearized_partial_sign in sign.c). */
module Collective {
  import opened Words
  import opened Field
  import opened Limbs
  import opened FeLinear
  import opened Edwards
  import opened Multiples
  import opened Coordinates
  import opened GeTypes
  import opened Ge
  import opened GePoints
  import opened Decompress
  import opened PointBytes
  import opened PointDecode
  import opened BasePoint
  import opened Scalars
  import opened DoubleScalar
  import opened Signing

  /** The sum of a list of points, folded as the aggregation loops do. */
  ghost function Sum(ps: seq<Pt>): Pt
  {
    if ps == [] then ZERO else Add(Sum(ps[..|ps| - 1]), ps[|ps| - 1])
  }

  ghost predicate AllOnCurve(ps: seq<Pt>)
  {
    forall i :: 0 <= i < |ps| ==> OnCurve(ps[i])
  }

  lemma {:induction false} SumOnCurve(ps: seq<Pt>)
    requires Ed25519Holds() && AllOnCurve(ps)
    ensures OnCurve(Sum(ps))
  {
    hide OnCurve, Add, Ed25519Holds;
    ZeroOnCurve();
    if ps != [] {
      SumOnCurve(ps[..|ps| - 1]);
      Closed(Sum(ps[..|ps| - 1]), ps[|ps| - 1]);
    }
  }

  lemma SumGrow(ps: seq<Pt>, i: nat)
    requires i < |ps|
    ensures Sum(ps[..i + 1]) == Add(Sum(ps[..i]), ps[i])
  {
    assert ps[..i + 1][..i] == ps[..i];
  }

  /** Every point counts once: a single one is its own sum, and two lists add up. */
  lemma {:induction false} SumConcat(ps: seq<Pt>, qs: seq<Pt>)
    requires Ed25519Holds() && AllOnCurve(ps) && AllOnCurve(qs)
    ensures Sum(ps + qs) == Add(Sum(ps), Sum(qs))
    ensures |ps| == 1 ==> Sum(ps) == ps[0]
  {
    hide OnCurve, Add, Ed25519Holds;
    SumOnCurve(ps);
    AddZero(Sum(ps));
    if |ps| == 1 {
      AddZero(ps[0]);
    }
    if qs == [] {
      assert ps + qs == ps;
    } else {
      var n := |qs| - 1;
      SumConcat(ps, qs[..n]);
      assert (ps + qs)[..|ps| + n] == ps + qs[..n];
      SumOnCurve(qs[..n]);
      Associate(Sum(ps), Sum(qs[..n]), qs[n]);
    }
  }

  ghost function Total(xs: seq<int>): int
  {
    if xs == [] then 0 else Total(xs[..|xs| - 1]) + xs[|xs| - 1]
  }

  lemma {:induction false} TotalConcat(xs: seq<int>, ys: seq<int>)
    ensures Total(xs + ys) == Total(xs) + Total(ys)
    ensures |xs| == 1 ==> Total(xs) == xs[0]
  {
    if ys == [] {
      assert xs + ys == xs;
    } else {
      assert (xs + ys)[..|xs| + |ys| - 1] == xs + ys[..|ys| - 1];
      TotalConcat(xs, ys[..|ys| - 1]);
    }
  }

  /** A sum of multiples of B is the multiple by the total. */
  lemma {:induction false} SumOfMultiples(ps: seq<Pt>, xs: seq<int>)
    requires Ed25519Holds() && |ps| == |xs| && forall i :: 0 <= i < |ps| ==> ps[i] == ZMul(xs[i], BASE)
    ensures Sum(ps) == ZMul(Total(xs), BASE)
  {
    hide OnCurve, Add, Ed25519Holds, ZMul;
    if ps == [] {
      ZMulZero(BASE);
    } else {
      var n := |ps| - 1;
      SumOfMultiples(ps[..n], xs[..n]);
      AboutBase();
      ZMulAdds(Total(xs[..n]), xs[n], BASE);
    }
  }

  // ---- points in and out of byte strings ----

  /** The i-th of the 32-byte strings stored one after the other. */
  function Item(keys: seq<byte>, i: nat): (k: seq<byte>)
    requires 32 * i + 32 <= |keys|
    ensures |k| == 32
  {
    keys[32 * i..32 * i + 32]
  }

  lemma ItemMeaning(before: seq<byte>, k: seq<byte>, behind: seq<byte>, i: nat)
    requires |before| == 32 * i && |k| == 32
    ensures Item(before + k + behind, i) == k
  {
  }

  /** The point that a string stands for: ge_frombytes_negate_vartime gives its negative. */
  ghost function Point(s: seq<byte>): Pt
  {
    Neg(Decoded(EncodedY(s), EncodedSign(s)))
  }

  lemma NegParity(x: int)
    requires IsResidue(x)
    ensures FNeg(x) == 0 <==> x == 0
    ensures x != 0 ==> FNeg(x) % 2 != x % 2
  {
    ModIs(-x);
    if x != 0 {
      assert FNeg(x) == P - x;
    }
  }

  /** Negating a curve point changes the parity of a nonzero x and nothing else. */
  lemma AboutNeg(d: Pt)
    requires OnCurve(d)
    ensures OnCurve(Neg(d)) && Neg(Neg(d)) == d && Neg(d).y == d.y
    ensures Neg(d).x == 0 <==> d.x == 0
    ensures d.x != 0 ==> Neg(d).x % 2 != d.x % 2
  {
    NegOnCurve(d);
    NegNeg(d);
    CurveResidues(d);
    NegParity(d.x);
    hide OnCurve, FNeg;
  }

  /** It is on the curve, with the y coordinate of the string and, unless x is 0, the parity that the top bit says. */
  lemma AboutPoint(s: seq<byte>)
    requires |s| == 32 && Decodable(EncodedY(s))
    ensures OnCurve(Point(s)) && Point(s).y == EncodedY(s) && (Point(s).x != 0 ==> Point(s).x % 2 == EncodedSign(s))
    ensures Neg(Point(s)) == Decoded(EncodedY(s), EncodedSign(s))
  {
    var y, sign := EncodedY(s), EncodedSign(s);
    var d := Decoded(y, sign);
    assert d.y == y;
    SignedRange(s);
    hide OnCurve, Decodable, Decoded, EncodedY, EncodedSign, Neg;
    DecodedOnCurve(y, sign);
    AboutNeg(d);
  }

  /** The encoding of a curve point stands for that point. */
  lemma EncodingPoint(a: Pt, s: seq<byte>)
    requires FieldInverses() && OnCurve(a) && LittleEndian(s) == Encoding(a)
    ensures Decodable(EncodedY(s)) && Point(s) == a
  {
    RoundTrip(a, s);
    NegNeg(a);
  }

  /** Every string stands for a point, and ps are these points. */
  ghost predicate Decodes(keys: seq<byte>, ps: seq<Pt>)
  {
    && |keys| == 32 * |ps|
    && forall i :: 0 <= i < |ps| ==> Decodable(EncodedY(Item(keys, i))) && ps[i] == Point(Item(keys, i))
  }

  lemma EncodesDecodes(keys: seq<byte>, ps: seq<Pt>)
    requires FieldInverses() && Encodes(keys, ps)
    ensures Decodes(keys, ps)
  {
    hide FieldInverses, OnCurve, LittleEndian, Encoding, Decodable, Point, EncodedY;
    forall i | 0 <= i < |ps|
      ensures Decodable(EncodedY(Item(keys, i))) && ps[i] == Point(Item(keys, i))
    {
      EncodingPoint(ps[i], Item(keys, i));
    }
  }

  /** The strings are the encodings of the points ps. */
  ghost predicate Encodes(keys: seq<byte>, ps: seq<Pt>)
  {
    && |keys| == 32 * |ps| && AllOnCurve(ps)
    && forall i :: 0 <= i < |ps| ==> LittleEndian(Item(keys, i)) == Encoding(ps[i])
  }

  lemma NegProductSum(m: int, z: int)
    ensures (-m) * z == -(m * z)
  {
  }

  lemma NegScaled(q: int, n: int, m: int, z: int)
    requires Cong(q, n * z) && Cong(n, -m)
    ensures Cong(FNeg(q), m * z)
  {
    CongMul(n, -m, z, z);
    NegProductSum(m, z);
    CongMod(-q);
    var y, w := n * z, m * z;
    CongTrans(q, y, -w);
    CongAdd(0, 0, q, -w);
    CongTrans(FNeg(q), -q, w);
  }

  /** Negating X and T negates an extended point. */
  lemma NegExtended(q: Quad, a: Pt)
    requires IsP3(q, Neg(a)) && OnCurve(a)
    ensures IsP3(Quad(FNeg(q.x), q.y, q.z, FNeg(q.t)), a)
  {
    var n := Neg(a);
    assert n.y == a.y;
    hide OnCurve, Neg, FNeg, Cong;
    NegOnCurve(a);
    CongMul(n.x, -a.x, a.y, a.y);
    NegProductSum(a.x, a.y);
    NegScaled(q.x, n.x, a.x, q.z);
    NegScaled(q.t, n.x * a.y, a.x * a.y, q.z);
  }

  /** ge_frombytes_negate_vartime with the negation undone. Its result is ignored, but the negation of T is defined
      only when decoding has succeeded and set T. */
  method Unpack(P: GeP3, s: seq<byte>)
    requires FieldInverses() && P.Ok() && |s| == 32 && Decodable(EncodedY(s))
    modifies P.Repr()
    ensures P.Holds(Point(s)) && OnCurve(Point(s))
  {
    AboutPoint(s);
    hide FieldInverses, OnCurve, LittleEndian, Decodable, Decoded, EncodedY, EncodedSign, Point, Fm, Neg, GeP3.Holds;
    var r := GeFromBytesNegate(P, s);
    Negate(P, Point(s));
  }

  /** X and T negated in place. */
  method Negate(P: GeP3, ghost a: Pt)
    requires P.Ok() && P.Holds(Neg(a)) && OnCurve(a)
    modifies P.Repr()
    ensures P.Holds(a)
  {
    hide OnCurve, Fm, Bound, IsP3, Neg, FNeg;
    NegExtended(P.View(), a);
    FeNeg(P.X, P.X, TIGHT);
    FeNeg(P.T, P.T, TIGHT);
  }

  /** One turn of an aggregation loop: the first point is copied, later ones are added. */
  method Accumulate(sum: GeP3, p: GeP3, first: bool, ghost a: Pt, ghost b: Pt)
    requires Ed25519Holds() && sum.Ok() && p.Ok() && sum.Repr() !! p.Repr()
    requires OnCurve(b) && sum.Holds(a) && p.Holds(b) && (first ==> a == ZERO)
    modifies sum.Repr()
    ensures sum.Holds(Add(a, b))
  {
    hide FieldInverses, CurveGroup, OnCurve, Add, Fm, Bound, IsP3, IsCached, IsP1P1;
    if first {
      CopyPoint(sum, p);
      AddZero(b);
      return;
    }
    var cached := new GeCached();
    var tmp := new GeP1P1();
    Cache(cached, p, b);
    AddTo(tmp, sum, cached, a, b);
    Extend(sum, tmp, Add(a, b));
  }

  /** ed25519_aggregate_commitments: the encoding of the sum. */
  method AggregateCommitments(commitments: seq<byte>, n: nat, ghost ps: seq<Pt>) returns (agg: seq<byte>)
    requires Ed25519Holds() && n == |ps| && Decodes(commitments, ps)
    ensures |agg| == 32 && LittleEndian(agg) == Encoding(Sum(ps))
  {
    hide FieldInverses, CurveGroup, OnCurve, Add, LittleEndian, Encoding, Decodable, Point, EncodedY, GeP3.Holds;
    var sum := new GeP3();
    GeP3Zero(sum);
    assert ps[..0] == [];
    var p := new GeP3();
    for i := 0 to n
      invariant sum.Holds(Sum(ps[..i]))
    {
      Unpack(p, Item(commitments, i));
      SumGrow(ps, i);
      Accumulate(sum, p, i == 0, Sum(ps[..i]), ps[i]);
    }
    assert ps[..n] == ps;
    agg := GeP3ToBytes(sum, Sum(ps));
  }

  // ---- delinearization ----

  /** The coefficient H(C || P) mod l. */
  ghost function Coefficient(H: Hash, C: seq<byte>, pk: seq<byte>): (d: int)
    ensures 0 <= d < L
  {
    LittleEndian(H(C + pk)) % L
  }

  /** The hashed string by positions: C, then the key. */
  lemma CoefficientByPositions(H: Hash, C: seq<byte>, pk: seq<byte>)
    ensures forall x {:trigger H(x)} :: |x| == |C| + |pk| && x[..|C|] == C && x[|C|..] == pk ==>
              Coefficient(H, C, pk) == LittleEndian(H(x)) % L
  {
    hide LittleEndian;
    forall x | |x| == |C| + |pk| && x[..|C|] == C && x[|C|..] == pk
      ensures Coefficient(H, C, pk) == LittleEndian(H(x)) % L
    {
      assert x == x[..|C|] + x[|C|..];
    }
  }

  /** ed25519_delinearize_public_key: H(C || P) P. */
  method DelinearizePublicKey(H: Hash, C: seq<byte>, pk: seq<byte>, odd: seq<GePrecomp>, ghost S: set<object>)
    returns (d: seq<byte>)
    requires Ed25519Holds() && BaseTable(odd, S) && |pk| == 32 && Decodable(EncodedY(pk))
    ensures |d| == 32 && LittleEndian(d) == Encoding(ZMul(Coefficient(H, C, pk), Point(pk)))
    ensures forall x {:trigger H(x)} :: |x| == |C| + 32 && x[..|C|] == C && x[|C|..] == pk ==>
              LittleEndian(d) == Encoding(ZMul(LittleEndian(H(x)) % L, Point(pk)))
  {
    hide FieldInverses, CurveGroup, BaseTable, OnCurve, ZMul, Add, LittleEndian, Encoding, Decodable, Point, EncodedY,
         Bytes, GeP2.Holds, GeP3.Holds;
    ghost var a := Point(pk);
    var P := new GeP3();
    Unpack(P, pk);
    var pH := ScReduce(H(C + pk));
    ReducedTopBits(pH);
    var zero := Bytes(0, 32);
    ZeroScalar();
    var P' := new GeP2();
    GeDoubleScalarMult(P', pH, P, zero, odd, S, a);
    ZMulZero(BASE);
    ZMulOnCurve(Coefficient(H, C, pk), a);
    AddZero(ZMul(Coefficient(H, C, pk), a));
    CoefficientByPositions(H, C, pk);
    d := GeToBytes(P', ZMul(Coefficient(H, C, pk), a));
  }

  /** SC_0 and SC_1. */
  lemma ZeroScalar()
    ensures LittleEndian(Bytes(0, 32)) == 0 && LittleEndian(Bytes(1, 32)) == 1 && TOP > 0
  {
    hide Bytes, Pow2, LittleEndian;
    BelowOrder();
    BytesLittleEndian(0, 32);
    BytesLittleEndian(1, 32);
  }

  /** The delinearized points H(C || P_i) P_i. */
  ghost function Delinearized(H: Hash, C: seq<byte>, keys: seq<byte>, ps: seq<Pt>): (qs: seq<Pt>)
    requires |keys| == 32 * |ps|
    ensures |qs| == |ps|
  {
    seq(|ps|, i requires 0 <= i < |ps| => ZMul(Coefficient(H, C, Item(keys, i)), ps[i]))
  }

  /** A delinearized key unpacked. */
  method UnpackDelinearized(p: GeP3, H: Hash, C: seq<byte>, pk: seq<byte>, odd: seq<GePrecomp>, ghost S: set<object>)
    requires Ed25519Holds() && BaseTable(odd, S) && |pk| == 32 && Decodable(EncodedY(pk)) && p.Ok()
    modifies p.Repr()
    ensures p.Holds(ZMul(Coefficient(H, C, pk), Point(pk))) && OnCurve(ZMul(Coefficient(H, C, pk), Point(pk)))
  {
    hide FieldInverses, CurveGroup, BaseTable, OnCurve, Add, ZMul, LittleEndian, Encoding, Decodable, Point, EncodedY,
         Coefficient, GeP3.Holds;
    var d := DelinearizePublicKey(H, C, pk, odd, S);
    AboutPoint(pk);
    ZMulOnCurve(Coefficient(H, C, pk), Point(pk));
    EncodingPoint(ZMul(Coefficient(H, C, pk), Point(pk)), d);
    Unpack(p, d);
  }

  /** ed25519_aggregate_delinearized_public_keys: the encoding of the sum of H(C || P_i) P_i. */
  method AggregateDelinearizedPublicKeys(H: Hash, C: seq<byte>, keys: seq<byte>, n: nat, odd: seq<GePrecomp>,
                                         ghost S: set<object>, ghost ps: seq<Pt>)
    returns (agg: seq<byte>)
    requires Ed25519Holds() && BaseTable(odd, S) && n == |ps| && Decodes(keys, ps)
    ensures |agg| == 32 && LittleEndian(agg) == Encoding(Sum(Delinearized(H, C, keys, ps)))
  {
    hide FieldInverses, CurveGroup, BaseTable, OnCurve, Add, ZMul, LittleEndian, Encoding, Decodable, Point, EncodedY,
         Coefficient, GeP3.Holds;
    var sum := new GeP3();
    GeP3Zero(sum);
    ghost var qs := Delinearized(H, C, keys, ps);
    assert qs[..0] == [];
    var p := new GeP3();
    for i := 0 to n
      invariant sum.Holds(Sum(qs[..i]))
    {
      UnpackDelinearized(p, H, C, Item(keys, i), odd, S);
      SumGrow(qs, i);
      Accumulate(sum, p, i == 0, Sum(qs[..i]), qs[i]);
    }
    assert qs[..n] == qs;
    agg := GeP3ToBytes(sum, Sum(qs));
  }

  /** ed25519_derive_delinearized_private_key */
  method DeriveDelinearizedPrivateKey(H: Hash, C: seq<byte>, pk: seq<byte>, sk: seq<byte>) returns (x: seq<byte>)
    requires Hashes(H)
    ensures |x| == 32 && LittleEndian(x) == (Coefficient(H, C, pk) * Secret(H, sk)) % L
    ensures forall m {:trigger H(m)} :: |m| == |C| + |pk| && m[..|C|] == C && m[|C|..] == pk ==>
              LittleEndian(x) == (LittleEndian(H(m)) % L * Secret(H, sk)) % L
  {
    hide LittleEndian, PrivateKeyDecompress, Bytes;
    var r := ScReduce(H(C + pk));
    var az := PrivateKeyDecompress(H, sk);
    ZeroScalar();
    CoefficientByPositions(H, C, pk);
    x := ScMulAdd(r, az[..32], Bytes(0, 32));
  }

  /** ed25519_add_scalars */
  method AddScalars(a: seq<byte>, b: seq<byte>) returns (s: seq<byte>)
    ensures |s| == 32 && LittleEndian(s) == (LittleEndian(a) + LittleEndian(b)) % L
  {
    hide LittleEndian, Bytes;
    ZeroScalar();
    s := ScMulAdd(Bytes(1, 32), a, b);
  }

  /** ed25519_create_commitment: fails exactly when the reduced hash is 0 or 1. */
  method CreateCommitment(H: Hash, randomness: seq<byte>, base: seq<seq<GePrecomp>>, odd: seq<GePrecomp>,
                          ghost S: set<object>)
    returns (ok: bool, secret: seq<byte>, R: seq<byte>)
    requires Setting(base, odd, S)
    ensures ok <==> LittleEndian(H(randomness)) % L > 1
    ensures ok ==> |secret| == 32 && LittleEndian(secret) == LittleEndian(H(randomness)) % L
    ensures ok ==> |R| == 32 && LittleEndian(R) == Encoding(ZMul(LittleEndian(secret), BASE))
  {
    hide Setting, ZMul, LittleEndian, Encoding;
    var r := ScReduce(H(randomness));
    if !ScValidReduction(r) {
      return false, [], [];
    }
    R := Commit(r, base, odd, S);
    return true, r, R;
  }

  /** ed25519_delinearized_partial_sign: c x + r with x the delinearized key and c the challenge for the
      aggregated key. */
  method PartialSign(H: Hash, msg: seq<byte>, R: seq<byte>, r: seq<byte>, keys: seq<byte>, n: nat, pk: seq<byte>,
                     sk: seq<byte>, odd: seq<GePrecomp>, ghost S: set<object>, ghost ps: seq<Pt>)
    returns (s: seq<byte>, ghost agg: seq<byte>)
    requires Hashes(H) && Ed25519Holds() && BaseTable(odd, S) && n == |ps| && Decodes(keys, ps)
    ensures |agg| == 32 && LittleEndian(agg) == Encoding(Sum(Delinearized(H, H(keys), keys, ps)))
    ensures |s| == 32
    ensures LittleEndian(s) == (Challenge(H, R, agg, msg) * ((Coefficient(H, H(keys), pk) * Secret(H, sk)) % L)
                                + LittleEndian(r)) % L
  {
    hide FieldInverses, CurveGroup, BaseTable, OnCurve, Decodes, ZMul, LittleEndian, Encoding, Secret, Coefficient,
         Delinearized, Sum, Challenge;
    var C := H(keys);
    var x := DeriveDelinearizedPrivateKey(H, C, pk, sk);
    var key := AggregateDelinearizedPublicKeys(H, C, keys, n, odd, S, ps);
    s := CreateSignature(H, msg, R, r, key, x);
    agg := key;
  }
}
