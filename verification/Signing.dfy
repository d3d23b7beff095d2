/** Key derivation, signing and verification (keypair.c, sign.c, verify.c). SHA-512 is an arbitrary function H
    with 64-byte results. Sections 5.1.5 to 5.1.7 of RFC 8032. */
module Signing {
  import opened Words
  import opened Nonlinear
  import opened Field
  import opened Edwards
  import opened Multiples
  import opened GeTypes
  import opened Decompress
  import opened PointBytes
  import opened PointDecode
  import opened BasePoint
  import opened Scalars
  import opened DoubleScalar
  import opened BaseScalar

  type Hash = seq<byte> -> seq<byte>

  ghost predicate Hashes(H: Hash)
  {
    forall m :: |H(m)| == 64
  }

  /** The hypotheses about the curve, the base point and the two tables. */
  ghost predicate Setting(base: seq<seq<GePrecomp>>, odd: seq<GePrecomp>, S: set<object>)
    reads S
  {
    Ed25519Holds() && BaseOrder() && CombTable(base, S) && BaseTable(odd, S)
  }

  /** The bit masks of the clamp and of the signature check, on 8-bit patterns. */
  lemma Masks(b: bv8)
    ensures (b & 248) as int == 8 * (b as int / 8)
    ensures ((b & 63) | 64) as int == b as int % 64 + 64
    ensures b & 224 == 0 <==> b as int < 32
  {
    MaskLow(b);
    MaskTop(b);
  }

  lemma MaskLow(b: bv8)
    ensures (b & 248) as int == 8 * (b as int / 8)
  {
  }

  lemma MaskTop(b: bv8)
    ensures ((b & 63) | 64) as int == b as int % 64 + 64
  {
  }

  /** b & 248 */
  function LowCleared(b: byte): (r: byte)
    ensures r == 8 * (b / 8)
  {
    MaskLow(ByteBits(b as nat));
    var n := (ByteBits(b as nat) & 248) as int;
    n as byte
  }

  /** (b & 63) | 64 */
  function TopSet(b: byte): (r: byte)
    ensures r == b % 64 + 64
  {
    MaskTop(ByteBits(b as nat));
    var n := ((ByteBits(b as nat) & 63) | 64) as int;
    n as byte
  }

  /** az[0] &= 248; az[31] &= 63; az[31] |= 64 */
  function Clamp(az: seq<byte>): (r: seq<byte>)
    requires |az| == 64
    ensures r == az[0 := 8 * (az[0] / 8)][31 := az[31] % 64 + 64] && r[32..] == az[32..]
  {
    az[0 := LowCleared(az[0])][31 := TopSet(az[31])]
  }

  /** ed25519_private_key_decompress */
  function PrivateKeyDecompress(H: Hash, sk: seq<byte>): (az: seq<byte>)
    requires |H(sk)| == 64
    ensures |az| == 64
  {
    Clamp(H(sk))
  }

  /** The secret scalar of a private key. */
  ghost function Secret(H: Hash, sk: seq<byte>): nat
    requires |H(sk)| == 64
  {
    LittleEndian(PrivateKeyDecompress(H, sk)[..32])
  }

  /** The clamp establishes the precondition of ge_scalarmult_base: a multiple of 8 in [2^254, 2^255). */
  lemma ClampedSecret(H: Hash, sk: seq<byte>)
    requires |H(sk)| == 64
    ensures PrivateKeyDecompress(H, sk)[31] <= 127
    ensures Secret(H, sk) % 8 == 0 && TOP / 2 <= Secret(H, sk) < TOP
  {
    var a := PrivateKeyDecompress(H, sk)[..32];
    assert LittleEndian(a) == a[0] as int + 8 * (32 * LittleEndian(a[1..]));
    hide Clamp;
    assert a[0] == 8 * (H(sk)[0] / 8);
    assert LittleEndian(a) % 8 == 0;
    hide LittleEndian;
    SignBit(a, 0);
    SplitTop(a);
    TopWeight();
    MulLe(Pow2(248), 64, a[31] as int);
  }

  /** As a number: the low 254 bits of the first half of the hash without their three lowest, and 2^254. */
  lemma SecretMeaning(H: Hash, sk: seq<byte>)
    requires |H(sk)| == 64
    ensures Secret(H, sk) == TOP / 2 + 8 * (LittleEndian(H(sk)[..32]) % (TOP / 2) / 8)
  {
    var h, a := H(sk)[..32], PrivateKeyDecompress(H, sk)[..32];
    assert LittleEndian(h) == h[0] as int + 256 * LittleEndian(h[1..]);
    assert LittleEndian(h[..31]) == h[0] as int + 256 * LittleEndian(h[..31][1..]);
    assert LittleEndian(a[..31]) == a[0] as int + 256 * LittleEndian(a[..31][1..]);
    assert a[..31][1..] == h[..31][1..];
    hide LittleEndian, Clamp, Pow2;
    TopWeight();
    SplitTop(h);
    SplitTop(a);
    ClampedNumber(LittleEndian(h[..31]), Pow2(248), h[31] as int, LittleEndian(h[..31][1..]), h[0] as int);
  }

  lemma ClampedNumber(lo: int, w: int, c: int, m: int, b: int)
    requires 0 <= lo < w && 128 * w == TOP && 0 <= c < 256 && lo == b + 256 * m && 0 <= b < 256
    ensures (8 * (b / 8) + 256 * m) + w * (c % 64 + 64) == TOP / 2 + 8 * ((lo + w * c) % (TOP / 2) / 8)
  {
    LowBits(lo, w, c);
    MulDistr(w, c % 64, 64);
    var e := w / 256;
    assert w == 256 * e;
    MulAssoc(256, e, c % 64);
    ThreeBits(b, m, e * (c % 64));
  }

  lemma LowBits(lo: int, w: int, c: int)
    requires 0 <= lo < w
    ensures (lo + w * c) % (64 * w) == lo + w * (c % 64)
  {
    var t := c % 64;
    MulLe(w, t, 63);
    MulLe(w, 0, t);
    MulDistr(w, 64 * (c / 64), t);
    MulAssoc(w, 64, c / 64);
    DivUnique(lo + w * c, 64 * w, c / 64, lo + w * t);
  }

  lemma ThreeBits(b: int, m: int, n: int)
    ensures (b + 256 * m + 256 * n) / 8 == b / 8 + 32 * m + 32 * n
  {
  }

  /** ed25519_public_key_derive */
  method PublicKeyDerive(H: Hash, sk: seq<byte>, base: seq<seq<GePrecomp>>, odd: seq<GePrecomp>, ghost S: set<object>)
    returns (pk: seq<byte>)
    requires Hashes(H) && Setting(base, odd, S)
    ensures |pk| == 32 && LittleEndian(pk) == Encoding(ZMul(Secret(H, sk), BASE))
  {
    hide FieldInverses, CurveGroup, BaseOrder, CombTable, BaseTable, ZMul, LittleEndian, PrivateKeyDecompress,
         GeP3.Holds;
    var az := PrivateKeyDecompress(H, sk);
    ClampedSecret(H, sk);
    var A := new GeP3();
    GeScalarMultBase(A, az[..32], base, S);
    pk := GeP3ToBytes(A, ZMul(Secret(H, sk), BASE));
  }

  /** c = H(R || A || M) mod l */
  ghost function Challenge(H: Hash, R: seq<byte>, pk: seq<byte>, msg: seq<byte>): (c: int)
    ensures 0 <= c < L
  {
    LittleEndian(H(R + pk + msg)) % L
  }

  /** The hashed string by positions: R, then the key, then the whole message. */
  lemma ChallengeMeaning(H: Hash, R: seq<byte>, pk: seq<byte>, msg: seq<byte>, x: seq<byte>)
    requires |x| == |R| + |pk| + |msg|
    requires x[..|R|] == R && x[|R|..|R| + |pk|] == pk && x[|R| + |pk|..] == msg
    ensures Challenge(H, R, pk, msg) == LittleEndian(H(x)) % L
  {
    assert x == x[..|R|] + x[|R|..|R| + |pk|] + x[|R| + |pk|..];
  }

  lemma ChallengeByPositions(H: Hash, R: seq<byte>, pk: seq<byte>, msg: seq<byte>)
    ensures forall x {:trigger H(x)} :: |x| == |R| + |pk| + |msg| && x[..|R|] == R ==>
              x[|R|..|R| + |pk|] == pk && x[|R| + |pk|..] == msg ==>
                Challenge(H, R, pk, msg) == LittleEndian(H(x)) % L
  {
    hide Challenge, LittleEndian;
    forall x | |x| == |R| + |pk| + |msg| && x[..|R|] == R && x[|R|..|R| + |pk|] == pk && x[|R| + |pk|..] == msg
      ensures Challenge(H, R, pk, msg) == LittleEndian(H(x)) % L
    {
      ChallengeMeaning(H, R, pk, msg, x);
    }
  }

  /** create_signature: r + c x mod l. */
  method CreateSignature(H: Hash, msg: seq<byte>, R: seq<byte>, r: seq<byte>, pk: seq<byte>, x: seq<byte>)
    returns (s: seq<byte>)
    ensures |s| == 32 && LittleEndian(s) == (Challenge(H, R, pk, msg) * LittleEndian(x) + LittleEndian(r)) % L
    ensures forall m {:trigger H(m)} :: |m| == |R| + |pk| + |msg| && m[..|R|] == R ==>
              m[|R|..|R| + |pk|] == pk && m[|R| + |pk|..] == msg ==>
                LittleEndian(s) == (LittleEndian(H(m)) % L * LittleEndian(x) + LittleEndian(r)) % L
  {
    ChallengeByPositions(H, R, pk, msg);
    hide LittleEndian;
    var hram := ScReduce(H(R + pk + msg));
    s := ScMulAdd(hram, x, r);
  }

  /** A nonce r and its commitment r B, the first half of a signature. */
  method Commit(r: seq<byte>, base: seq<seq<GePrecomp>>, odd: seq<GePrecomp>, ghost S: set<object>)
    returns (R: seq<byte>)
    requires Setting(base, odd, S) && |r| == 32 && LittleEndian(r) < L
    ensures |R| == 32 && LittleEndian(R) == Encoding(ZMul(LittleEndian(r), BASE))
  {
    hide FieldInverses, CurveGroup, BaseOrder, CombTable, BaseTable, ZMul, LittleEndian, GeP3.Holds;
    ReducedTopBits(r);
    var P := new GeP3();
    GeScalarMultBase(P, r, base, S);
    R := GeP3ToBytes(P, ZMul(LittleEndian(r), BASE));
  }

  /** The deterministic nonce of ed25519_sign. */
  ghost function Nonce(H: Hash, sk: seq<byte>, msg: seq<byte>): int
    requires |H(sk)| == 64
  {
    LittleEndian(H(PrivateKeyDecompress(H, sk)[32..] + msg)) % L
  }

  /** The hashed string by positions: the second half of the hash of the key, then the whole message. */
  lemma NonceMeaning(H: Hash, sk: seq<byte>, msg: seq<byte>, x: seq<byte>)
    requires |H(sk)| == 64 && |x| == 32 + |msg| && x[..32] == H(sk)[32..] && x[32..] == msg
    ensures Nonce(H, sk, msg) == LittleEndian(H(x)) % L
  {
    assert x == x[..32] + x[32..];
  }

  lemma NonceByPositions(H: Hash, sk: seq<byte>, msg: seq<byte>)
    requires |H(sk)| == 64
    ensures forall x {:trigger H(x)} :: |x| == 32 + |msg| && x[..32] == H(sk)[32..] && x[32..] == msg ==>
              Nonce(H, sk, msg) == LittleEndian(H(x)) % L
  {
    hide Nonce, LittleEndian;
    forall x | |x| == 32 + |msg| && x[..32] == H(sk)[32..] && x[32..] == msg
      ensures Nonce(H, sk, msg) == LittleEndian(H(x)) % L
    {
      NonceMeaning(H, sk, msg, x);
    }
  }

  lemma NonceIs(H: Hash, sk: seq<byte>, msg: seq<byte>)
    requires |H(sk)| == 64
    ensures Nonce(H, sk, msg) == LittleEndian(H(PrivateKeyDecompress(H, sk)[32..] + msg)) % L
  {
  }

  /** ed25519_sign */
  method Sign(H: Hash, msg: seq<byte>, pk: seq<byte>, sk: seq<byte>,
              base: seq<seq<GePrecomp>>, odd: seq<GePrecomp>, ghost S: set<object>) returns (sig: seq<byte>)
    requires Hashes(H) && Setting(base, odd, S)
    ensures |sig| == 64 && LittleEndian(sig[..32]) == Encoding(ZMul(Nonce(H, sk, msg), BASE))
    ensures LittleEndian(sig[32..]) == (Challenge(H, sig[..32], pk, msg) * Secret(H, sk) + Nonce(H, sk, msg)) % L
    ensures forall x {:trigger H(x)} :: |x| == 32 + |msg| && x[..32] == H(sk)[32..] && x[32..] == msg ==>
              Nonce(H, sk, msg) == LittleEndian(H(x)) % L
    ensures forall x {:trigger H(x)} :: |x| == 32 + |pk| + |msg| && x[..32] == sig[..32] ==>
              x[32..32 + |pk|] == pk && x[32 + |pk|..] == msg ==>
                Challenge(H, sig[..32], pk, msg) == LittleEndian(H(x)) % L
  {
    hide FieldInverses, CurveGroup, BaseOrder, CombTable, BaseTable, ZMul, LittleEndian, PrivateKeyDecompress, Encoding,
         Challenge, Nonce, Setting;
    var az := PrivateKeyDecompress(H, sk);
    NonceIs(H, sk, msg);
    var r := ScReduce(H(az[32..] + msg));
    var R := Commit(r, base, odd, S);
    var s := CreateSignature(H, msg, R, r, pk, az[..32]);
    sig := R + s;
    assert sig[..32] == R && sig[32..] == s;
    NonceByPositions(H, sk, msg);
    ChallengeByPositions(H, R, pk, msg);
  }

  /** consttime_equal: all differences gathered with `|`. The source unrolls the loop. */
  method ConstTimeEqual(x: seq<byte>, y: seq<byte>) returns (equal: bool)
    requires |x| == 32 && |y| == 32
    ensures equal <==> x == y
  {
    hide BitXor, BitOr;
    var r := BitXor(x[0] as nat, y[0] as nat);
    for i := 1 to 32
      invariant r == 0 <==> x[..i] == y[..i]
    {
      assert x[..i + 1] == x[..i] + [x[i]] && y[..i + 1] == y[..i] + [y[i]];
      r := BitOr(r, BitXor(x[i] as nat, y[i] as nat));
    }
    assert x[..32] == x && y[..32] == y;
    equal := r == 0;
  }

  /** The verification equation: R = S B - c A with A the decoded key, and clear top bits of S. */
  ghost predicate Accepts(H: Hash, sig: seq<byte>, msg: seq<byte>, pk: seq<byte>)
    requires |sig| == 64 && |pk| == 32
  {
    && sig[63] < 32
    && Decodable(EncodedY(pk))
    && LittleEndian(sig[..32]) == Encoding(Checker(H, sig, msg, pk))
  }

  ghost function Checker(H: Hash, sig: seq<byte>, msg: seq<byte>, pk: seq<byte>): Pt
    requires |sig| == 64
  {
    Add(ZMul(Challenge(H, sig[..32], pk, msg), Decoded(EncodedY(pk), EncodedSign(pk))),
        ZMul(LittleEndian(sig[32..]), BASE))
  }

  /** Acceptance spelled out, with the hashed string by positions. */
  lemma AcceptsMeaning(H: Hash, sig: seq<byte>, msg: seq<byte>, pk: seq<byte>, x: seq<byte>)
    requires |sig| == 64 && |pk| == 32
    requires |x| == 64 + |msg| && x[..32] == sig[..32] && x[32..64] == pk && x[64..] == msg
    ensures Accepts(H, sig, msg, pk) <==>
            && sig[63] < 32 && Decodable(EncodedY(pk))
            && LittleEndian(sig[..32]) == Encoding(Add(ZMul(LittleEndian(H(x)) % L,
                                                            Decoded(EncodedY(pk), EncodedSign(pk))),
                                                       ZMul(LittleEndian(sig[32..]), BASE)))
  {
    hide Challenge, LittleEndian, Add, ZMul, Decodable, Decoded, EncodedY, EncodedSign, Encoding;
    ChallengeMeaning(H, sig[..32], pk, msg, x);
  }

  lemma AcceptsByPositions(H: Hash, sig: seq<byte>, msg: seq<byte>, pk: seq<byte>)
    requires |sig| == 64 && |pk| == 32
    ensures forall x {:trigger H(x)} ::
              |x| == 64 + |msg| && x[..32] == sig[..32] && x[32..64] == pk && x[64..] == msg ==>
              (Accepts(H, sig, msg, pk) <==>
               && sig[63] < 32 && Decodable(EncodedY(pk))
               && LittleEndian(sig[..32]) == Encoding(Add(ZMul(LittleEndian(H(x)) % L,
                                                               Decoded(EncodedY(pk), EncodedSign(pk))),
                                                          ZMul(LittleEndian(sig[32..]), BASE))))
  {
    hide Accepts, LittleEndian, Add, ZMul, Decodable, Decoded, EncodedY, EncodedSign, Encoding;
    forall x | |x| == 64 + |msg| && x[..32] == sig[..32] && x[32..64] == pk && x[64..] == msg
      ensures Accepts(H, sig, msg, pk) <==>
              && sig[63] < 32 && Decodable(EncodedY(pk))
              && LittleEndian(sig[..32]) == Encoding(Add(ZMul(LittleEndian(H(x)) % L,
                                                              Decoded(EncodedY(pk), EncodedSign(pk))),
                                                         ZMul(LittleEndian(sig[32..]), BASE)))
    {
      AcceptsMeaning(H, sig, msg, pk, x);
    }
  }

  /** ed25519_verify decides exactly Accepts. */
  method Verify(H: Hash, sig: seq<byte>, msg: seq<byte>, pk: seq<byte>,
                base: seq<seq<GePrecomp>>, odd: seq<GePrecomp>, ghost S: set<object>) returns (ok: bool)
    requires Hashes(H) && Setting(base, odd, S) && |sig| == 64 && |pk| == 32
    ensures ok <==> Accepts(H, sig, msg, pk)
    ensures forall x {:trigger H(x)} ::
              |x| == 64 + |msg| && x[..32] == sig[..32] && x[32..64] == pk && x[64..] == msg ==>
              (ok <==> && sig[63] < 32 && Decodable(EncodedY(pk))
                       && LittleEndian(sig[..32]) == Encoding(Add(ZMul(LittleEndian(H(x)) % L,
                                                                       Decoded(EncodedY(pk), EncodedSign(pk))),
                                                                  ZMul(LittleEndian(sig[32..]), BASE))))
  {
    hide FieldInverses, CurveGroup, BaseOrder, CombTable, BaseTable, ZMul, Add, LittleEndian, Encoding, Decodable,
         EncodedY, EncodedSign, GeP2.Holds, GeP3.Holds;
    AcceptsByPositions(H, sig, msg, pk);
    Masks(ByteBits(sig[63] as nat));
    if ByteBits(sig[63] as nat) & 224 != 0 {
      return false;
    }
    var A := new GeP3();
    var unpacked := GeFromBytesNegate(A, pk);
    if unpacked != 0 {
      return false;
    }
    var h := ScReduce(H(sig[..32] + pk + msg));
    ReducedTopBits(h);
    ClearTopBits(sig[32..]);
    var R := new GeP2();
    GeDoubleScalarMult(R, h, A, sig[32..], odd, S, Decoded(EncodedY(pk), EncodedSign(pk)));
    var checker := GeToBytes(R, Checker(H, sig, msg, pk));
    ok := ConstTimeEqual(checker, sig[..32]);
    if LittleEndian(checker) == LittleEndian(sig[..32]) {
      LittleEndianInjective(checker, sig[..32]);
    }
  }

  /** S B - c (x B) = r B whenever S = c x + r mod l. */
  lemma ResponseEquation(c: int, x: int, r: int, s: int)
    requires Ed25519Holds() && BaseOrder() && s == (c * x + r) % L
    ensures Add(ZMul(c, Neg(ZMul(x, BASE))), ZMul(s, BASE)) == ZMul(r, BASE)
  {
    hide Add, OnCurve, Neg, Ed25519Holds, BaseOrder, ZMul;
    AboutBase();
    NegatedMultiple(x);
    ZMulMul(c, -x, BASE);
    ReducedMultiple(c * x + r);
    ZMulAdds(c * -x, c * x + r, BASE);
    assert c * -x + (c * x + r) == r;
  }

  lemma NegatedMultiple(x: int)
    requires Ed25519Holds()
    ensures Neg(ZMul(x, BASE)) == ZMul(-x, BASE)
  {
    AboutBase();
    NegZero();
    if x < 0 {
      NMulOnCurve(-x, BASE);
      NegNeg(NMul(-x, BASE));
    } else if x == 0 {
      ZMulZero(BASE);
    }
  }

  /** Any commitment r B with response c x + r mod l is accepted under the key x B. */
  lemma Completeness(H: Hash, sig: seq<byte>, msg: seq<byte>, pk: seq<byte>, x: int, r: int)
    requires Ed25519Holds() && BaseOrder() && |sig| == 64 && |pk| == 32
    requires LittleEndian(pk) == Encoding(ZMul(x, BASE)) && LittleEndian(sig[..32]) == Encoding(ZMul(r, BASE))
    requires LittleEndian(sig[32..]) == (Challenge(H, sig[..32], pk, msg) * x + r) % L
    ensures Accepts(H, sig, msg, pk)
  {
    hide Add, OnCurve, Neg, FieldInverses, CurveGroup, BaseOrder, ZMul, LittleEndian, Encoding, Decodable, Decoded,
         EncodedY, EncodedSign, Challenge;
    ReducedTopBits(sig[32..]);
    AboutBase();
    ZMulOnCurve(x, BASE);
    RoundTrip(ZMul(x, BASE), pk);
    ResponseEquation(Challenge(H, sig[..32], pk, msg), x, r, LittleEndian(sig[32..]));
  }

  /** Beyond the clear top bits only the residue of S modulo l matters. */
  lemma OnlyResidueMatters(H: Hash, sig: seq<byte>, other: seq<byte>, msg: seq<byte>, pk: seq<byte>)
    requires Ed25519Holds() && BaseOrder() && |sig| == |other| == 64 && |pk| == 32
    requires sig[63] < 32 && other[63] < 32 && sig[..32] == other[..32]
    requires LittleEndian(sig[32..]) % L == LittleEndian(other[32..]) % L
    ensures Accepts(H, sig, msg, pk) <==> Accepts(H, other, msg, pk)
  {
    hide Add, OnCurve, FieldInverses, CurveGroup, BaseOrder, ZMul, LittleEndian, Encoding, Decodable, Decoded, EncodedY,
         EncodedSign, Challenge;
    var m, n := LittleEndian(sig[32..]), LittleEndian(other[32..]);
    SameMultiple(m, n, m / L - n / L);
  }

  /** Section 5.1.7 of RFC 8032 asks for S < l; the code only asks for clear top bits. So S + l is accepted with S
      whenever it still has them clear. */
  lemma LargerResponse(H: Hash, sig: seq<byte>, msg: seq<byte>, pk: seq<byte>)
    requires Ed25519Holds() && BaseOrder() && |sig| == 64 && |pk| == 32
    requires Accepts(H, sig, msg, pk) && LittleEndian(sig[32..]) + L < Pow2(253)
    ensures var other := sig[..32] + Bytes(LittleEndian(sig[32..]) + L, 32);
            Accepts(H, other, msg, pk) && LittleEndian(other[32..]) == LittleEndian(sig[32..]) + L >= L
  {
    hide Accepts, FieldInverses, CurveGroup, BaseOrder, LittleEndian, Pow2, Bytes;
    var s := LittleEndian(sig[32..]) + L;
    BelowOrder();
    BytesLittleEndian(s, 32);
    var other := sig[..32] + Bytes(s, 32);
    assert other[..32] == sig[..32] && other[32..] == Bytes(s, 32);
    BelowTopBits(other[32..]);
    assert sig[63] < 32 by { AcceptedTopBits(H, sig, msg, pk); }
    DivUnique(s, L, LittleEndian(sig[32..]) / L + 1, LittleEndian(sig[32..]) % L);
    OnlyResidueMatters(H, sig, other, msg, pk);
  }

  lemma AcceptedTopBits(H: Hash, sig: seq<byte>, msg: seq<byte>, pk: seq<byte>)
    requires |sig| == 64 && |pk| == 32 && Accepts(H, sig, msg, pk)
    ensures sig[63] < 32
  {
  }

  /** What ed25519_sign produces under a derived key is accepted by ed25519_verify. */
  method SignThenVerify(H: Hash, msg: seq<byte>, sk: seq<byte>,
                        base: seq<seq<GePrecomp>>, odd: seq<GePrecomp>, ghost S: set<object>) returns (ok: bool)
    requires Hashes(H) && Setting(base, odd, S)
    ensures ok
  {
    hide FieldInverses, CurveGroup, BaseOrder, CombTable, BaseTable, ZMul, Add, LittleEndian, Encoding, Secret, Nonce,
         Accepts, Challenge;
    var pk := PublicKeyDerive(H, sk, base, odd, S);
    var sig := Sign(H, msg, pk, sk, base, odd, S);
    Completeness(H, sig, msg, pk, Secret(H, sk), Nonce(H, sk, msg));
    ok := Verify(H, sig, msg, pk, base, odd, S);
  }
}
