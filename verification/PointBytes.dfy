/** Point encoding of ge.c: ge_tobytes and ge_p3_tobytes. Section 5.1.2 of RFC 8032. */
module PointBytes {
  import opened Words
  import opened Nonlinear
  import opened Field
  import opened Limbs
  import opened FeMultiply
  import opened FeToBytes
  import opened FePower
  import opened Edwards
  import opened Coordinates
  import opened GeTypes

  /** The encoding as a number: y below the parity of x. */
  ghost function Encoding(a: Pt): int { a.y + TOP * (a.x % 2) }

  lemma TopWeight()
    ensures 128 * Pow2(248) == TOP && Pow2(7) == 128
  {
    Pow2At255();
    Pow2Adds(248, 2);
    assert Pow2(7) == 128 by { Pow2Adds(5, 2); }
  }

  lemma SplitTop(s: seq<byte>)
    requires |s| == 32
    ensures LittleEndian(s[..31]) < Pow2(248)
    ensures LittleEndian(s) == LittleEndian(s[..31]) + Pow2(248) * s[31] as int
  {
    assert LittleEndian([s[31]]) == s[31] as int;
    hide Pow2, LittleEndian;
    LittleEndianBound(s[..31]);
    assert s == s[..31] + [s[31]];
    LittleEndianAppend(s[..31], [s[31]]);
  }

  lemma TopQuotient(lo: int, w: int, c: int)
    requires 0 <= lo < w && 128 * w == TOP && 0 <= c < 256
    ensures lo + w * c < TOP <==> c < 128
    ensures (lo + w * c) / TOP == c / 128
  {
    assert lo + w * c == TOP * (c / 128) + (lo + w * (c % 128));
    MulLe(w, c % 128, 127);
    DivUnique(lo + w * c, TOP, c / 128, lo + w * (c % 128));
    MulLe(w, 0, c % 128);
  }

  /** The sign bit is clear in anything below 2^255, and setting it adds 2^255. */
  lemma SignBit(s: seq<byte>, b: nat)
    requires |s| == 32 && b <= 1
    ensures LittleEndian(s) < TOP <==> s[31] < 128
    ensures LittleEndian(s) / TOP == s[31] as int / 128
    ensures s[31] < 128 ==> LittleEndian(s[31 := (s[31] as int + 128 * b) as byte]) == LittleEndian(s) + TOP * b
  {
    hide LittleEndian, Pow2;
    TopWeight();
    SplitTop(s);
    TopQuotient(LittleEndian(s[..31]), Pow2(248), s[31] as int);
    if s[31] < 128 {
      var t := s[31 := (s[31] as int + 128 * b) as byte];
      assert t[..31] == s[..31];
      SplitTop(t);
      MulDistr(Pow2(248), s[31] as int, 128 * b);
      MulAssoc(Pow2(248), 128, b);
    }
  }

  /** The encoding by its parts: y in the low 255 bits, the parity of x in the top bit of the last byte. */
  lemma EncodingParts(s: seq<byte>, a: Pt)
    requires |s| == 32 && LittleEndian(s) == Encoding(a) && OnCurve(a)
    ensures LittleEndian(s) % TOP == a.y && s[31] as int / 128 == a.x % 2
  {
    hide LittleEndian, OnCurve;
    CurveResidues(a);
    SignBit(s, 0);
    DivUnique(LittleEndian(s), TOP, a.x % 2, a.y);
  }

  /** s[31] ^= n << 7 */
  function FlipSign(c: byte, n: int32): (r: byte)
    requires c < 128 && 0 <= n <= 1
    ensures r as int == c as int + 128 * n as int
  {
    assert 128 == Pow2(7) by { TopWeight(); }
    BitXorDisjoint(c as nat, n as nat, 7);
    BitXor(c as nat, 128 * n as nat) as byte
  }

  /** The body that ge_tobytes and ge_p3_tobytes share. */
  method ToBytes(X: array<int32>, Y: array<int32>, Z: array<int32>) returns (s: seq<byte>)
    requires IsFe(X) && IsFe(Y) && IsFe(Z) && Bound(X, TIGHT) && Bound(Y, TIGHT) && Bound(Z, TIGHT)
    ensures |s| == 32
    ensures LittleEndian(s) == Encoding(Pt(FMul(Fm(X), FInv(Fm(Z))), FMul(Fm(Y), FInv(Fm(Z)))))
  {
    hide Ten.Val, Ten.Within, FMul, FPow, LittleEndian, Fm, Bound, Load;
    var recip, x, y := new int32[10], new int32[10], new int32[10];
    Loose(X, TIGHT); Loose(Y, TIGHT); Loose(Z, TIGHT);
    FeInvert(recip, Z);
    Loose(recip, TIGHT);
    FeMul(x, X, recip);
    FeMul(y, Y, recip);
    Encodable(x);
    Encodable(y);
    s := FeToBytes.FeToBytes(y);
    var negative := FeIsNegative(x);
    SignBit(s, negative as int);
    s := s[31 := FlipSign(s[31], negative)];
  }

  lemma Encodable(f: array<int32>)
    requires IsFe(f) && Bound(f, TIGHT)
    ensures Bound(f, ENCODABLE) && IsResidue(Fm(f))
  {
    WithinMono(Load(f), TIGHT, ENCODABLE);
  }

  /** Dividing out Z recovers the affine point. */
  lemma Affine(x: int, y: int, z: int, a: Pt)
    requires FieldInverses() && IsP2(x, y, z, a) && IsResidue(z)
    ensures a == Pt(FMul(x, FInv(z)), FMul(y, FInv(z)))
  {
    ResidueMod(z);
    Quotient(x, z, a.x);
    Quotient(y, z, a.y);
  }

  lemma Quotient(n: int, z: int, r: int)
    requires FieldInverses() && 0 < z < P && IsResidue(r) && Cong(n, r * z)
    ensures r == FMul(n, FInv(z))
  {
    var i := FInv(z);
    ResidueMod(z);
    FInvRight(z);
    CongMul(n, r * z, i, i);
    CongMul(r, r, z * i, 1);
    assert (r * z) * i == r * (z * i);
    CongMod(n * i);
    ResidueUnique(r, FMul(n, i));
  }

  /** ge_tobytes */
  method GeToBytes(h: GeP2, ghost a: Pt) returns (s: seq<byte>)
    requires FieldInverses() && h.Ok() && h.Holds(a)
    ensures |s| == 32 && LittleEndian(s) == Encoding(a)
    ensures LittleEndian(s) % TOP == a.y && s[31] as int / 128 == a.x % 2
  {
    hide FMul, FInv, FieldInverses, LittleEndian, Ten.Within;
    Affine(Fm(h.X), Fm(h.Y), Fm(h.Z), a);
    s := ToBytes(h.X, h.Y, h.Z);
    EncodingParts(s, a);
  }

  /** ge_p3_tobytes */
  method GeP3ToBytes(h: GeP3, ghost a: Pt) returns (s: seq<byte>)
    requires FieldInverses() && h.Ok() && h.Holds(a)
    ensures |s| == 32 && LittleEndian(s) == Encoding(a)
    ensures LittleEndian(s) % TOP == a.y && s[31] as int / 128 == a.x % 2
  {
    hide FMul, FInv, FieldInverses, LittleEndian, Ten.Within;
    Affine(Fm(h.X), Fm(h.Y), Fm(h.Z), a);
    s := ToBytes(h.X, h.Y, h.Z);
    EncodingParts(s, a);
  }
}
