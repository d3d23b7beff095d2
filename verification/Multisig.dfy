/** A whole n-of-n session: honest cosigners produce a signature that the ordinary verifier accepts under the
    aggregated key. */
module Multisig {
  import opened Words
  import opened Nonlinear
  import opened Edwards
  import opened Multiples
  import opened GeTypes
  import opened PointBytes
  import opened BasePoint
  import opened Scalars
  import opened DoubleScalar
  import opened BaseScalar
  import opened Signing
  import opened Collective

  /** The delinearized secret scalars H(C || P_i) a_i mod l. */
  ghost function Shares(H: Hash, C: seq<byte>, keys: seq<byte>, sks: seq<seq<byte>>): (xs: seq<int>)
    requires Hashes(H) && |keys| == 32 * |sks|
    ensures |xs| == |sks|
  {
    seq(|sks|, i requires 0 <= i < |sks| => (Coefficient(H, C, Item(keys, i)) * Secret(H, sks[i])) % L)
  }

  ghost function PublicPoints(H: Hash, sks: seq<seq<byte>>): (ps: seq<Pt>)
    requires Hashes(H)
    ensures |ps| == |sks|
  {
    seq(|sks|, i requires 0 <= i < |sks| => ZMul(Secret(H, sks[i]), BASE))
  }

  /** The aggregated key is the multiple of B by the sum of the shares. */
  lemma AggregateKey(H: Hash, C: seq<byte>, keys: seq<byte>, sks: seq<seq<byte>>)
    requires Hashes(H) && Ed25519Holds() && BaseOrder() && |keys| == 32 * |sks|
    ensures Sum(Delinearized(H, C, keys, PublicPoints(H, sks))) == ZMul(Total(Shares(H, C, keys, sks)), BASE)
  {
    hide Ed25519Holds, BaseOrder, OnCurve, Add, ZMul, Sum, Total, Secret, Coefficient;
    var ps, xs := PublicPoints(H, sks), Shares(H, C, keys, sks);
    var qs := Delinearized(H, C, keys, ps);
    AboutBase();
    forall i | 0 <= i < |sks| ensures qs[i] == ZMul(xs[i], BASE) {
      var d, a := Coefficient(H, C, Item(keys, i)), Secret(H, sks[i]);
      ZMulMul(d, a, BASE);
      ReducedMultiple(d * a);
    }
    SumOfMultiples(qs, xs);
  }

  /** The responses c x_i + r_i mod l. */
  ghost function Responses(c: int, xs: seq<int>, rs: seq<int>): (ss: seq<int>)
    requires |xs| == |rs|
    ensures |ss| == |xs|
  {
    seq(|xs|, i requires 0 <= i < |xs| => (c * xs[i] + rs[i]) % L)
  }

  /** Adding up the responses gives the response for the sums. */
  lemma {:induction false} TotalResponse(c: int, xs: seq<int>, rs: seq<int>)
    requires |xs| == |rs|
    ensures Total(Responses(c, xs, rs)) % L == (c * Total(xs) + Total(rs)) % L
  {
    if xs != [] {
      var n := |xs| - 1;
      var ss := Responses(c, xs, rs);
      assert ss[..n] == Responses(c, xs[..n], rs[..n]);
      TotalResponse(c, xs[..n], rs[..n]);
      MulDistr(c, Total(xs[..n]), xs[n]);
      ModSum(Total(ss[..n]), c * Total(xs[..n]) + Total(rs[..n]), c * xs[n] + rs[n]);
    } else {
      assert Responses(c, xs, rs) == [];
    }
  }

  lemma ModSum(a: int, b: int, y: int)
    requires a % L == b % L
    ensures (a + y % L) % L == (b + y) % L
  {
    var u, v, w := a / L, b / L, y / L;
    DivUnique(a + y % L, L, (a + y % L) / L, (a + y % L) % L);
    DivUnique(b + y, L, (a + y % L) / L + w + v - u, (a + y % L) % L);
  }

  lemma TotalGrow(xs: seq<int>, i: nat)
    requires i < |xs|
    ensures Total(xs[..i + 1]) == Total(xs[..i]) + xs[i]
  {
    assert xs[..i + 1][..i] == xs[..i];
  }

  /** Step 1: every cosigner derives a public key; the keys are stored one after the other. */
  method DeriveKeys(H: Hash, sks: seq<seq<byte>>, base: seq<seq<GePrecomp>>, odd: seq<GePrecomp>, ghost S: set<object>)
    returns (keys: seq<byte>)
    requires Hashes(H) && Setting(base, odd, S)
    ensures Encodes(keys, PublicPoints(H, sks))
  {
    hide Setting, OnCurve, ZMul, LittleEndian, Encoding, Secret;
    keys := [];
    ghost var ps := PublicPoints(H, sks);
    AllMultiples(ps, seq(|sks|, i requires 0 <= i < |sks| => Secret(H, sks[i])), base, odd, S);
    for i := 0 to |sks|
      invariant |keys| == 32 * i
      invariant forall j :: 0 <= j < i ==> LittleEndian(Item(keys, j)) == Encoding(ps[j])
    {
      var pk := PublicKeyDerive(H, sks[i], base, odd, S);
      keys := Append(keys, pk, i);
    }
  }

  /** Storing one more string leaves the earlier ones in place. */
  function Append(keys: seq<byte>, k: seq<byte>, n: nat): (r: seq<byte>)
    requires |keys| == 32 * n && |k| == 32
    ensures |r| == 32 * (n + 1) && Item(r, n) == k
    ensures forall j :: 0 <= j < n ==> Item(r, j) == Item(keys, j)
  {
    keys + k
  }

  lemma AllMultiples(ps: seq<Pt>, xs: seq<int>, base: seq<seq<GePrecomp>>, odd: seq<GePrecomp>, S: set<object>)
    requires Setting(base, odd, S) && |ps| == |xs| && forall i :: 0 <= i < |ps| ==> ps[i] == ZMul(xs[i], BASE)
    ensures AllOnCurve(ps)
  {
    hide OnCurve, ZMul, FieldInverses, CurveGroup, BaseOrder, CombTable, BaseTable;
    forall i | 0 <= i < |ps| ensures OnCurve(ps[i]) {
      AboutBase();
      ZMulOnCurve(xs[i], BASE);
    }
  }

  ghost function NoncePoints(rs: seq<seq<byte>>): (ps: seq<Pt>)
    ensures |ps| == |rs|
  {
    seq(|rs|, i requires 0 <= i < |rs| => ZMul(LittleEndian(rs[i]), BASE))
  }

  ghost function Numbers(rs: seq<seq<byte>>): (ns: seq<int>)
    ensures |ns| == |rs|
  {
    seq(|rs|, i requires 0 <= i < |rs| => LittleEndian(rs[i]))
  }

  /** Step 2: every cosigner commits to a nonce; the session stops if one of them must be drawn again. */
  method CommitAll(H: Hash, randomness: seq<seq<byte>>, base: seq<seq<GePrecomp>>, odd: seq<GePrecomp>,
                   ghost S: set<object>)
    returns (ok: bool, rs: seq<seq<byte>>, commitments: seq<byte>)
    requires Hashes(H) && Setting(base, odd, S)
    ensures ok <==> forall i :: 0 <= i < |randomness| ==> LittleEndian(H(randomness[i])) % L > 1
    ensures ok ==> |rs| == |randomness| && (forall i :: 0 <= i < |rs| ==> |rs[i]| == 32)
    ensures ok ==> Encodes(commitments, NoncePoints(rs))
  {
    hide Setting, OnCurve, ZMul, LittleEndian, Encoding;
    rs, commitments := [], [];
    for i := 0 to |randomness|
      invariant |commitments| == 32 * i && |rs| == i
      invariant forall j :: 0 <= j < i ==> LittleEndian(H(randomness[j])) % L > 1
      invariant forall j :: 0 <= j < i ==> |rs[j]| == 32
      invariant forall j :: 0 <= j < i ==>
                  LittleEndian(Item(commitments, j)) == Encoding(ZMul(LittleEndian(rs[j]), BASE))
    {
      var created, secret, R := CreateCommitment(H, randomness[i], base, odd, S);
      if !created {
        return false, [], [];
      }
      rs := rs + [secret];
      commitments := Append(commitments, R, i);
    }
    AllMultiples(NoncePoints(rs), Numbers(rs), base, odd, S);
    ok := true;
  }

  /** One partial signature joins the running sum; the first one starts it. */
  method Combine(s: seq<byte>, part: seq<byte>, first: bool, ghost total: int) returns (t: seq<byte>)
    requires |part| == 32 && LittleEndian(part) < L
    requires if first then total == 0 else LittleEndian(s) == total % L
    ensures |t| == 32 && LittleEndian(t) == (total + LittleEndian(part)) % L
  {
    hide LittleEndian;
    if first {
      t := part;
    } else {
      t := AddScalars(s, part);
      ModSum(LittleEndian(s), total, LittleEndian(part));
      ModSum(total, total, LittleEndian(part));
    }
  }

  /** The partial signature of the i-th cosigner. */
  method SignPart(H: Hash, msg: seq<byte>, R: seq<byte>, rs: seq<seq<byte>>, keys: seq<byte>, sks: seq<seq<byte>>,
                  odd: seq<GePrecomp>, ghost S: set<object>, ghost ps: seq<Pt>, ghost aggregate: seq<byte>, i: nat)
    returns (part: seq<byte>)
    requires Hashes(H) && Ed25519Holds() && BaseTable(odd, S) && Decodes(keys, ps) && |keys| == 32 * |ps|
    requires |rs| == |sks| == |ps| > i && |aggregate| == 32
    requires LittleEndian(aggregate) == Encoding(Sum(Delinearized(H, H(keys), keys, ps)))
    ensures |part| == 32 && 0 <= LittleEndian(part) < L
    ensures LittleEndian(part) == Responses(Challenge(H, R, aggregate, msg), Shares(H, H(keys), keys, sks),
                                            Numbers(rs))[i]
  {
    hide *;
    ghost var agg;
    part, agg := PartialSign(H, msg, R, rs[i], keys, |sks|, Item(keys, i), sks[i], odd, S, ps);
    LittleEndianInjective(agg, aggregate);
    ResponseAt(H, Challenge(H, R, aggregate, msg), keys, sks, rs, i);
  }

  /** Step 3: the partial signatures, added up. */
  method SignAll(H: Hash, msg: seq<byte>, R: seq<byte>, rs: seq<seq<byte>>, keys: seq<byte>, sks: seq<seq<byte>>,
                 odd: seq<GePrecomp>, ghost S: set<object>, ghost ps: seq<Pt>, ghost aggregate: seq<byte>)
    returns (s: seq<byte>)
    requires Hashes(H) && Ed25519Holds() && BaseTable(odd, S) && Decodes(keys, ps)
    requires |rs| == |sks| == |ps| > 0 && |aggregate| == 32
    requires LittleEndian(aggregate) == Encoding(Sum(Delinearized(H, H(keys), keys, ps)))
    ensures |s| == 32
    ensures LittleEndian(s) == (Challenge(H, R, aggregate, msg) * Total(Shares(H, H(keys), keys, sks))
                                + Total(Numbers(rs))) % L
  {
    hide FieldInverses, CurveGroup, BaseTable, OnCurve, ZMul, LittleEndian, Encoding, Secret, Coefficient, Sum, Total,
         Challenge, Decodes, Delinearized, Bytes, Item, Shares, Numbers, Responses, Ed25519Holds, Hashes;
    ghost var c := Challenge(H, R, aggregate, msg);
    DecodedLength(keys, ps);
    ghost var xs, ns := Shares(H, H(keys), keys, sks), Numbers(rs);
    ghost var ss := Responses(c, xs, ns);
    s := Bytes(0, 32);
    EmptyTotal(ss);
    for i := 0 to |sks|
      invariant |s| == 32 && (i > 0 ==> LittleEndian(s) == Total(ss[..i]) % L)
    {
      var part := SignPart(H, msg, R, rs, keys, sks, odd, S, ps, aggregate, i);
      TotalGrow(ss, i);
      s := Combine(s, part, i == 0, Total(ss[..i]));
    }
    assert ss[..|sks|] == ss;
    TotalResponse(c, xs, ns);
  }

  /** What the i-th cosigner contributes. */
  lemma ResponseAt(H: Hash, c: int, keys: seq<byte>, sks: seq<seq<byte>>, rs: seq<seq<byte>>, i: nat)
    requires Hashes(H) && |keys| == 32 * |sks| && |rs| == |sks| && i < |sks|
    ensures Responses(c, Shares(H, H(keys), keys, sks), Numbers(rs))[i]
            == (c * ((Coefficient(H, H(keys), Item(keys, i)) * Secret(H, sks[i])) % L) + LittleEndian(rs[i])) % L
  {
  }

  lemma EmptyTotal(ss: seq<int>)
    ensures Total(ss[..0]) == 0
  {
  }

  /** A session of n >= 1 honest cosigners is accepted by ed25519_verify under the aggregated key, unless one
      of the nonces was 0 or 1 and has to be drawn again. */
  method Session(H: Hash, msg: seq<byte>, sks: seq<seq<byte>>, randomness: seq<seq<byte>>,
                 base: seq<seq<GePrecomp>>, odd: seq<GePrecomp>, ghost S: set<object>)
    returns (created: bool, accepted: bool)
    requires Hashes(H) && Setting(base, odd, S) && |sks| == |randomness| > 0
    ensures created <==> forall i :: 0 <= i < |randomness| ==> LittleEndian(H(randomness[i])) % L > 1
    ensures created ==> accepted
  {
    hide FieldInverses, CurveGroup, BaseOrder, CombTable, BaseTable, OnCurve, ZMul, LittleEndian, Encoding, Secret,
         Coefficient, Sum, Total, Challenge, Encodes, Decodes, Delinearized, Accepts, Shares;
    var keys := DeriveKeys(H, sks, base, odd, S);
    var rs, commitments;
    created, rs, commitments := CommitAll(H, randomness, base, odd, S);
    if !created {
      return false, false;
    }
    ghost var ps := PublicPoints(H, sks);
    EncodesDecodes(commitments, NoncePoints(rs));
    EncodesDecodes(keys, ps);
    DecodedLength(keys, ps);
    var R := AggregateCommitments(commitments, |rs|, NoncePoints(rs));
    var key := AggregateDelinearizedPublicKeys(H, H(keys), keys, |sks|, odd, S, ps);
    var s := SignAll(H, msg, R, rs, keys, sks, odd, S, ps, key);
    var sig := R + s;
    assert sig[..32] == R && sig[32..] == s;
    AggregateKey(H, H(keys), keys, sks);
    SumOfMultiples(NoncePoints(rs), Numbers(rs));
    Completeness(H, sig, msg, key, Total(Shares(H, H(keys), keys, sks)), Total(Numbers(rs)));
    accepted := Verify(H, sig, msg, key, base, odd, S);
  }

  lemma DecodedLength(keys: seq<byte>, ps: seq<Pt>)
    requires Decodes(keys, ps)
    ensures |keys| == 32 * |ps|
  {
  }
}
