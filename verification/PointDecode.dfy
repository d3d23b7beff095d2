/** ge_frombytes_negate_vartime (ge.c). */
module PointDecode {
  import opened Words
  import opened Nonlinear
  import opened Field
  import opened Limbs
  import opened FeLinear
  import opened FeMultiply
  import opened FeSquare
  import opened FeFromBytes
  import opened FeToBytes
  import opened FePower
  import opened Edwards
  import opened Coordinates
  import opened GeTypes
  import opened Decompress
  import opened PointBytes
  import Ge

  const DLIMBS: Ten := Ten(-10913610, 13857413, -15372611, 6949391, 114729, -8787816, -6275908, -3247719, -18696448,
                           -12055116)
  const SQRTM1LIMBS: Ten := Ten(-32595792, -7943725, 9377950, 3500415, 12389472, -272473, -25146209, -2005654, 326686,
                                11406482)

  lemma ConstantLimbs()
    ensures DLIMBS.Within(TIGHT) && Mod(DLIMBS.Val()) == D
    ensures SQRTM1LIMBS.Within(TIGHT) && Mod(SQRTM1LIMBS.Val()) == SQRTM1
  {
    hide Mod;
    DLIMBS.ValIs();
    SQRTM1LIMBS.ValIs();
    ModIs(DLIMBS.Val());
    ModIs(SQRTM1LIMBS.Val());
  }

  /** The y coordinate that an encoding names: its low 255 bits, reduced. */
  ghost function EncodedY(s: seq<byte>): int { Mod(LittleEndian(s) % TOP) }

  ghost function EncodedSign(s: seq<byte>): int { LittleEndian(s) / TOP }

  /** Bound of y^2 - 1 and d y^2 + 1. */
  const NUDGED: int := 102

  /** Y, Z = 1, u = y^2 - 1, v = d y^2 + 1. */
  method Equation(h: GeP3, u: array<int32>, v: array<int32>, s: seq<byte>)
    requires h.Ok() && IsFe(u) && IsFe(v) && |s| == 32 && u != v && {u, v} !! h.Repr()
    modifies h.Y, h.Z, u, v
    ensures Bound(h.Y, TIGHT) && Bound(h.Z, 1) && Bound(u, NUDGED) && Bound(v, NUDGED)
    ensures Fm(h.Y) == EncodedY(s) && Fm(h.Z) == 1 && Fm(u) == Num(EncodedY(s)) && Fm(v) == Den(EncodedY(s))
  {
    hide Ten.Val, Ten.Within, FMul, FAdd, FSub, Load, Fm, Bound, LittleEndian;
    var d := DConstant();
    FeFromBytes.FeFromBytes(h.Y, s);
    FeSet(h.Z, 1);
    Loose(h.Y, TIGHT);
    FeSq(u, h.Y);
    Loose(u, TIGHT);
    FeMul(v, u, d);
    FeSub(u, u, h.Z, TIGHT, 1);
    FeAdd(v, v, h.Z, TIGHT, 1);
  }

  method DConstant() returns (d: array<int32>)
    ensures fresh(d) && IsFe(d) && Bound(d, LOOSE) && Fm(d) == D
  {
    hide Ten.Val, Ten.Within, Load;
    ConstantLimbs();
    d := Ge.Constant(DLIMBS);
    Loose(d, TIGHT);
  }

  method SqrtM1Constant() returns (i: array<int32>)
    ensures fresh(i) && IsFe(i) && Bound(i, LOOSE) && Fm(i) == SQRTM1
  {
    hide Ten.Val, Ten.Within, Load;
    ConstantLimbs();
    i := Ge.Constant(SQRTM1LIMBS);
    Loose(i, TIGHT);
  }

  /** x = u v^3 (u v^7)^((q-5)/8) */
  method Candidate(x: array<int32>, v3: array<int32>, u: array<int32>, v: array<int32>)
    requires IsFe(x) && IsFe(v3) && IsFe(u) && IsFe(v) && x != v3 && {x, v3} !! {u, v}
    requires Bound(u, LOOSE) && Bound(v, LOOSE)
    modifies x, v3
    ensures Bound(x, TIGHT) && Fm(x) == Root(Fm(u), Fm(v))
  {
    hide Ten.Val, Ten.Within, FMul, FPow, Load, Fm, Bound;
    FeSq(v3, v);
    Loose(v3, TIGHT);
    FeMul(v3, v3, v);
    Loose(v3, TIGHT);
    FeSq(x, v3);
    Loose(x, TIGHT);
    FeMul(x, x, v);
    Loose(x, TIGHT);
    FeMul(x, x, u);
    Loose(x, TIGHT);
    FePow22523(x, x);
    Loose(x, TIGHT);
    FeMul(x, x, v3);
    Loose(x, TIGHT);
    FeMul(x, x, u);
  }

  lemma EncodableWithin(f: array<int32>, n: int)
    requires IsFe(f) && Bound(f, n) && n <= ENCODABLE
    ensures Bound(f, ENCODABLE)
  {
    WithinMono(Load(f), n, ENCODABLE);
  }

  /** v x^2 compared with u and -u; x is multiplied by the square root of -1 in the second case. */
  method Correct(x: array<int32>, u: array<int32>, v: array<int32>) returns (r: int32)
    requires IsFe(x) && IsFe(u) && IsFe(v) && x != u && x != v
    requires Bound(x, TIGHT) && Bound(u, NUDGED) && Bound(v, NUDGED)
    modifies x
    ensures Bound(x, TIGHT) && (r == 0 || r == -1)
    ensures r == 0 <==> old(FSub(Check(Fm(x), Fm(v)), Fm(u)) == 0 || FAdd(Check(Fm(x), Fm(v)), Fm(u)) == 0)
    ensures r == 0 ==>
              Fm(x) == old(if FSub(Check(Fm(x), Fm(v)), Fm(u)) == 0 then Fm(x) else FMul(Fm(x), SQRTM1))
  {
    hide Ten.Val, Ten.Within, FMul, FAdd, FSub, Load, Fm, Bound;
    var vxx, check := new int32[10], new int32[10];
    Loose(x, TIGHT);
    Loose(v, NUDGED);
    FeSq(vxx, x);
    Loose(vxx, TIGHT);
    FeMul(vxx, vxx, v);
    FeSub(check, vxx, u, TIGHT, NUDGED);
    EncodableWithin(check, TIGHT + NUDGED);
    var nonzero := FeIsNonzero(check);
    if nonzero != 0 {
      FeAdd(check, vxx, u, TIGHT, NUDGED);
      EncodableWithin(check, TIGHT + NUDGED);
      nonzero := FeIsNonzero(check);
      if nonzero != 0 {
        return -1;
      }
      var i := SqrtM1Constant();
      FeMul(x, x, i);
    }
    return 0;
  }

  /** Negation when the parity of x equals the top bit of s, then T = X * Y. */
  method Finish(h: GeP3, s: seq<byte>)
    requires h.Ok() && |s| == 32 && Bound(h.X, TIGHT) && Bound(h.Y, TIGHT)
    modifies h.X, h.T
    ensures Bound(h.X, TIGHT) && Bound(h.T, TIGHT)
    ensures Fm(h.X) == old(Signed(Fm(h.X), EncodedSign(s)))
    ensures Fm(h.T) == FMul(Fm(h.X), Fm(h.Y))
  {
    hide Ten.Val, Ten.Within, FMul, FNeg, Load, Fm, Bound, LittleEndian;
    SignBit(s, 0);
    EncodableWithin(h.X, TIGHT);
    var negative := FeIsNegative(h.X);
    if negative as int == s[31] as int / 128 {
      FeNeg(h.X, h.X, TIGHT);
    }
    Loose(h.X, TIGHT);
    Loose(h.Y, TIGHT);
    FeMul(h.T, h.X, h.Y);
  }

  /** ge_frombytes_negate_vartime: -1 unless the y coordinate belongs to a curve point; on 0 the point decoded
      by the specification, which is on the curve and has the opposite sign. */
  method GeFromBytesNegate(h: GeP3, s: seq<byte>) returns (r: int32)
    requires h.Ok() && |s| == 32
    modifies h.Repr()
    ensures r == 0 || r == -1
    ensures r == 0 <==> Decodable(EncodedY(s))
    ensures r == 0 ==> h.Holds(Decoded(EncodedY(s), EncodedSign(s)))
  {
    hide Ten.Val, Ten.Within, FMul, FAdd, FSub, Root, Check, Signed, Load, Fm, Bound, LittleEndian, Num, Den, IsP3;
    var u, v, v3 := new int32[10], new int32[10], new int32[10];
    Equation(h, u, v, s);
    Loose(u, NUDGED);
    Loose(v, NUDGED);
    Candidate(h.X, v3, u, v);
    r := Correct(h.X, u, v);
    if r == 0 {
      Finish(h, s);
      Ge.Small(h.Z);
      SignedRange(s);
      DecodedIsP3(Fm(h.X), EncodedY(s), Fm(h.T), EncodedSign(s));
    }
  }

  lemma SignedRange(s: seq<byte>)
    requires |s| == 32
    ensures 0 <= EncodedSign(s) <= 1 && IsResidue(EncodedY(s))
  {
    SignBit(s, 0);
  }

  lemma DecodedIsP3(x: int, y: int, t: int, sign: int)
    requires IsResidue(y) && Decodable(y) && 0 <= sign <= 1 && x == Decoded(y, sign).x && t == FMul(x, y)
    ensures IsP3(Quad(x, y, 1, t), Decoded(y, sign))
  {
    DecodedOnCurve(y, sign);
    hide Decoded, OnCurve, Decodable, Mod;
    CongMod(x * y);
    ResidueMod(1);
  }

  /** Decoding an encoding gives the negative of the point encoded. */
  lemma RoundTrip(a: Pt, s: seq<byte>)
    requires FieldInverses() && OnCurve(a) && LittleEndian(s) == Encoding(a)
    ensures Decodable(EncodedY(s)) && Decoded(EncodedY(s), EncodedSign(s)) == Neg(a)
  {
    hide Decodable, Decoded, FieldInverses, OnCurve, LittleEndian;
    CurveResidues(a);
    DecodeNegates(a);
    DivUnique(LittleEndian(s), TOP, a.x % 2, a.y);
    ResidueMod(a.y);
  }

  /** fe_frombytes and then fe_tobytes give a canonical encoding back: 32 bytes whose value is below P. */
  method FieldRoundTrip(s: seq<byte>) returns (t: seq<byte>)
    requires |s| == 32
    ensures |t| == 32 && LittleEndian(t) == EncodedY(s)
    ensures LittleEndian(s) < P ==> t == s
  {
    hide Ten.Val, Ten.Within, LittleEndian;
    var h := new int32[10];
    FeFromBytes.FeFromBytes(h, s);
    EncodableWithin(h, TIGHT);
    t := FeToBytes.FeToBytes(h);
    if LittleEndian(s) < P {
      ResidueMod(LittleEndian(s));
      LittleEndianInjective(s, t);
    }
  }
}
