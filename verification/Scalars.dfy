/** The contract of sc.h, scalars modulo the group order, and what it means for multiples of the base point. */
module Scalars {
  import opened Words
  import opened Nonlinear
  import opened Edwards
  import opened Multiples
  import opened BasePoint
  import opened PointBytes

  /** 2^252 + 27742317777372353535851937790883648493 */
  const L: int := 0x1000_0000_0000_0000_0000_0000_0000_0000_14de_f9de_a2f7_9cd6_5812_631a_5cf5_d3ed

  /** Hypothesis: the base point has order dividing L. */
  ghost predicate BaseOrder() { ZMul(L, BASE) == ZERO }

  lemma BelowOrder()
    ensures L < Pow2(253) && Pow2(253) < Pow2(256) && 32 * Pow2(248) == Pow2(253) && 4 * Pow2(253) == TOP
  {
    hide Pow2;
    TopWeight();
    Pow2Adds(248, 5);
    Pow2Adds(253, 3);
    SmallPowers();
  }

  /** The group order as section 5.1 of RFC 8032 gives it. */
  lemma OrderMeaning()
    ensures L == Pow2(252) + 27742317777372353535851937790883648493
  {
    hide Pow2;
    TopWeight();
    BelowOrder();
    Pow2Adds(252, 1);
    SmallPowers();
  }

  lemma SmallPowers()
    ensures Pow2(1) == 2 && Pow2(3) == 8 && Pow2(5) == 32
  {
  }

  /** sc_reduce: the low 32 bytes that it leaves. */
  function ScReduce(s: seq<byte>): (r: seq<byte>)
    ensures |r| == 32 && LittleEndian(r) == LittleEndian(s) % L
  {
    BelowOrder();
    BytesLittleEndian(LittleEndian(s) % L, 32);
    Bytes(LittleEndian(s) % L, 32)
  }

  /** sc_muladd: a b + c mod l. */
  function ScMulAdd(a: seq<byte>, b: seq<byte>, c: seq<byte>): (r: seq<byte>)
    ensures |r| == 32 && LittleEndian(r) == (LittleEndian(a) * LittleEndian(b) + LittleEndian(c)) % L
  {
    BelowOrder();
    MulLe(LittleEndian(a), 0, LittleEndian(b));
    BytesLittleEndian((LittleEndian(a) * LittleEndian(b) + LittleEndian(c)) % L, 32);
    Bytes((LittleEndian(a) * LittleEndian(b) + LittleEndian(c)) % L, 32)
  }

  /** sc_valid_reduction: neither 0 nor 1. */
  predicate ScValidReduction(s: seq<byte>) { LittleEndian(s) > 1 }

  /** Exactly the scalars below 2^253 have the three top bits clear. */
  lemma BelowTopBits(s: seq<byte>)
    requires |s| == 32
    ensures s[31] < 32 <==> LittleEndian(s) < Pow2(253)
  {
    hide Pow2, LittleEndian;
    SplitTop(s);
    BelowOrder();
    if s[31] >= 32 {
      MulLe(Pow2(248), 32, s[31] as int);
    } else {
      MulLe(Pow2(248), s[31] as int, 31);
    }
  }

  /** A reduced scalar leaves the three top bits clear. */
  lemma ReducedTopBits(s: seq<byte>)
    requires |s| == 32 && LittleEndian(s) < L
    ensures s[31] < 32 && LittleEndian(s) < TOP
  {
    hide Pow2, LittleEndian;
    BelowOrder();
    BelowTopBits(s);
  }

  /** Clear top bits keep a scalar below 2^253. */
  lemma ClearTopBits(s: seq<byte>)
    requires |s| == 32 && s[31] < 128
    ensures LittleEndian(s) < TOP
  {
    SignBit(s, 0);
  }

  // ---- multiples of the base point ----

  lemma MultiplesOfOrder(k: int)
    requires Ed25519Holds() && BaseOrder()
    ensures ZMul(k * L, BASE) == ZERO
  {
    hide Add, OnCurve, Ed25519Holds, ZMul, NMul;
    AboutBase();
    ZMulMul(k, L, BASE);
    MultiplesOfZero(k);
  }

  lemma {:induction false} MultiplesOfZero(k: int)
    requires Ed25519Holds()
    ensures ZMul(k, ZERO) == ZERO
    decreases if k >= 0 then k else -k
  {
    hide Add, OnCurve, Ed25519Holds, ZMul, NMul;
    ZeroOnCurve();
    AddZero(ZERO);
    if k == 0 {
      ZMulZero(ZERO);
    } else if k > 0 {
      MultiplesOfZero(k - 1);
      ZMulSucc(k - 1, ZERO);
    } else {
      MultiplesOfZero(k + 1);
      ZMulSucc(k, ZERO);
      ZMulOnCurve(k, ZERO);
      AddZero(ZMul(k, ZERO));
    }
  }

  /** Congruent scalars give the same multiple of the base point. */
  lemma SameMultiple(m: int, n: int, k: int)
    requires Ed25519Holds() && BaseOrder() && m == n + k * L
    ensures ZMul(m, BASE) == ZMul(n, BASE)
  {
    hide Add, OnCurve, Ed25519Holds, ZMul, NMul;
    AboutBase();
    ZMulAdds(n, k * L, BASE);
    MultiplesOfOrder(k);
    ZMulOnCurve(n, BASE);
    AddZero(ZMul(n, BASE));
  }

  lemma ReducedMultiple(m: int)
    requires Ed25519Holds() && BaseOrder()
    ensures ZMul(m % L, BASE) == ZMul(m, BASE)
  {
    assert m == m % L + (m / L) * L;
    SameMultiple(m, m % L, m / L);
  }
}
