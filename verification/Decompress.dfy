/** The square root behind ge_frombytes_negate_vartime (ge.c), on residues. Section 5.1.3 of RFC 8032. */
module Decompress {
  import opened Field
  import opened Edwards

  /** A square root of -1. */
  const SQRTM1: int := 0x2b83_2480_4fc1_df0b_2b4d_0099_3dfb_d7a7_2f43_1806_ad2f_e478_c4ee_1b27_4a0e_a0b0

  lemma SqrtM1()
    ensures Cong(SQRTM1 * SQRTM1, -1)
  {
    ModIs(SQRTM1 * SQRTM1);
    ModIs(-1);
  }

  /** u = y^2 - 1 */
  ghost function Num(y: int): int { FSub(FMul(y, y), 1) }

  /** v = d y^2 + 1 */
  ghost function Den(y: int): int { FAdd(FMul(FMul(y, y), D), 1) }

  ghost function Cube(v: int): int { FMul(FMul(v, v), v) }

  /** u v^7 */
  ghost function Radicand(u: int, v: int): int { FMul(FMul(FMul(Cube(v), Cube(v)), v), u) }

  /** u v^3 (u v^7)^((q-5)/8) */
  ghost function Root(u: int, v: int): int { FMul(FMul(FPow(Radicand(u, v), (P - 5) / 8), Cube(v)), u) }

  /** v x^2 */
  ghost function Check(x: int, v: int): int { FMul(FMul(x, x), v) }

  /** The code's acceptance test: v x^2 is u or -u for the candidate x. */
  ghost predicate Decodable(y: int)
  {
    var u, v := Num(y), Den(y);
    FSub(Check(Root(u, v), v), u) == 0 || FAdd(Check(Root(u, v), v), u) == 0
  }

  lemma CongDifference(a: int, b: int)
    ensures Cong(a, b) <==> Mod(a - b) == 0
  {
    ResidueMod(0);
    if Cong(a, b) {
      CongAdd(a, b, b, b);
    } else if Cong(a - b, 0) {
      CongAdd(a - b, 0, b, b);
    }
  }

  lemma NumDen(y: int)
    ensures Cong(Num(y), y * y - 1) && Cong(Den(y), D * (y * y) + 1)
    ensures IsResidue(Num(y)) && IsResidue(Den(y))
  {
    var yy := y * y;
    CongMod(yy);
    CongAdd(FMul(y, y), yy, 1, 1);
    CongMod(FMul(y, y) - 1);
    CongMul(FMul(y, y), yy, D, D);
    CongMod(FMul(y, y) * D);
    CongAdd(FMul(FMul(y, y), D), yy * D, 1, 1);
    CongMod(FMul(FMul(y, y), D) + 1);
  }

  lemma CheckCong(x: int, v: int, v': int)
    requires Cong(v, v')
    ensures Cong(Check(x, v), (x * x) * v') && IsResidue(Check(x, v))
  {
    CongMod(x * x);
    CongMod(FMul(x, x) * v);
    CongMul(FMul(x, x), x * x, v, v');
  }

  lemma Rearrange(xx: int, yy: int)
    ensures Cong(yy - xx, 1 + D * (xx * yy)) <==> Cong(yy - 1, xx * (D * yy + 1))
  {
    hide Cong;
    assert xx * (D * yy + 1) == D * (xx * yy) + xx;
    CongDifference(yy - xx, 1 + D * (xx * yy));
    CongDifference(yy - 1, xx * (D * yy + 1));
  }

  lemma CongSym(a: int, b: int, c: int)
    requires Cong(a, b)
    ensures Cong(b, a) && (Cong(b, c) <==> Cong(a, c))
  {
  }

  /** The curve equation solved for x^2. */
  lemma OnCurveByRatio(x: int, y: int)
    requires IsResidue(x) && IsResidue(y)
    ensures OnCurve(Pt(x, y)) <==> Check(x, Den(y)) == Num(y)
  {
    var xx, yy := x * x, y * y;
    NumDen(y);
    CheckCong(x, Den(y), D * yy + 1);
    Rearrange(xx, yy);
    OnCurveIs(Pt(x, y));
    hide Check, Num, Den, Cong, OnCurve;
    var c, n := Check(x, Den(y)), Num(y);
    CongSym(c, xx * (D * yy + 1), n);
    CongSym(n, yy - 1, xx * (D * yy + 1));
    if Cong(yy - 1, xx * (D * yy + 1)) {
      CongSym(n, xx * (D * yy + 1), c);
      ResidueUnique(c, n);
    } else if c == n {
      CongSym(xx * (D * yy + 1), n, yy - 1);
    }
  }

  /** Cong of products of representatives: u v^7 and the like without nested reductions. */
  lemma CubeCong(v: int)
    ensures Cong(Cube(v), (v * v) * v)
  {
    CongMod(v * v);
    CongMul(FMul(v, v), v * v, v, v);
    CongMod(FMul(v, v) * v);
  }

  lemma RadicandCong(u: int, v: int)
    ensures Cong(Radicand(u, v), ((v * v * v) * (v * v * v) * v) * u)
  {
    var c := v * v * v;
    CubeCong(v);
    hide Cube;
    FMulCong(Cube(v), c, Cube(v), c);
    FMulCong(FMul(Cube(v), Cube(v)), c * c, v, v);
    FMulCong(FMul(FMul(Cube(v), Cube(v)), v), c * c * v, u, u);
  }

  lemma FMulCong(a: int, b: int, c: int, d: int)
    requires Cong(a, b) && Cong(c, d)
    ensures Cong(FMul(a, c), b * d)
  {
    CongMul(a, b, c, d);
    CongMod(a * c);
  }

  /** For x = u v^3 (u v^7)^e with e = (q-5)/8: v x^2 = u (u v^7)^((q-1)/4). */
  lemma RootSquared(u: int, v: int)
    requires IsResidue(u)
    ensures Check(Root(u, v), v) == FMul(u, FPow(Radicand(u, v), (P - 1) / 4))
  {
    var b, c, e := Radicand(u, v), v * v * v, FPow(Radicand(u, v), (P - 5) / 8);
    FPowAdds(b, (P - 5) / 8, (P - 5) / 8);
    FPowAdds(b, (P - 5) / 4, 1);
    FPowOne(b);
    RadicandCong(u, v);
    CubeCong(v);
    hide FPow, Radicand, Cube, Cong, FMul;
    PowerCong(b, e, FPow(b, (P - 5) / 4), FPow(b, (P - 1) / 4));
    RootCong(e, Cube(v), c, u);
    CheckFinal(Root(u, v), e, c, u, v, b, FPow(b, (P - 1) / 4));
  }

  lemma PowerCong(b: int, e: int, e2: int, f: int)
    requires e2 == FMul(e, e) && f == FMul(e2, b)
    ensures Cong(f, (e * e) * b)
  {
    CongMod(e * e);
    FMulCong(e2, e * e, b, b);
  }

  lemma RootCong(e: int, cube: int, c: int, u: int)
    requires Cong(cube, c)
    ensures Cong(FMul(FMul(e, cube), u), (e * c) * u)
  {
    FMulCong(e, e, cube, c);
    FMulCong(FMul(e, cube), e * c, u, u);
  }

  lemma CheckFinal(x: int, e: int, c: int, u: int, v: int, b: int, f: int)
    requires Cong(x, (e * c) * u) && Cong(f, (e * e) * b) && Cong(b, (c * c * v) * u)
    ensures Check(x, v) == FMul(u, f)
  {
    hide Cong;
    FMulCong(x, (e * c) * u, x, (e * c) * u);
    FMulCong(FMul(x, x), ((e * c) * u) * ((e * c) * u), v, v);
    CongMul(e * e, e * e, b, (c * c * v) * u);
    CongTrans(f, (e * e) * b, (e * e) * ((c * c * v) * u));
    FMulCong(u, u, f, (e * e) * ((c * c * v) * u));
    Arrange(e, c, u, v);
    CongEqual(Check(x, v), FMul(u, f), u * ((e * e) * ((c * c * v) * u)));
  }

  lemma CongTrans(a: int, b: int, c: int)
    requires Cong(a, b) && Cong(b, c)
    ensures Cong(a, c)
  {
  }

  lemma CongEqual(a: int, b: int, c: int)
    requires Cong(a, c) && Cong(b, c) && IsResidue(a) && IsResidue(b)
    ensures a == b
  {
    ResidueUnique(a, b);
  }

  lemma Arrange(e: int, c: int, u: int, v: int)
    ensures (((e * c) * u) * ((e * c) * u)) * v == u * ((e * e) * ((c * c * v) * u))
  {
    var ec := e * c;
    assert (ec * u) * (ec * u) == (ec * ec) * (u * u);
    assert ec * ec == (e * e) * (c * c);
    var ee, cc, uu := e * e, c * c, u * u;
    assert ((ee * cc) * uu) * v == (ee * ((cc * v) * u)) * u;
  }

  lemma {:induction false} PowSquare(w: int, n: nat)
    ensures FPow(FMul(w, w), n) == FPow(w, 2 * n)
  {
    if n == 0 {
    } else {
      PowSquare(w, n - 1);
      FMulAssoc(w, w, FPow(w, 2 * n - 2));
      assert FPow(w, 2 * n - 1) == FMul(w, FPow(w, 2 * n - 2));
    }
  }

  /** Fermat's little theorem, from the hypothesis on inverses. */
  lemma Fermat(z: int)
    requires FieldInverses() && 0 < z < P
    ensures FPow(z, P - 1) == 1
  {
    assert FMul(z, FInv(z)) == 1;
  }

  lemma MinusOne(h: int)
    requires FMul(h, h) == 1
    ensures Mod((h - 1) * (h + 1)) == 0
  {
    ResidueMod(1);
    CongDifference(h * h, 1);
    assert (h - 1) * (h + 1) == h * h - 1;
  }

  /** 1 has only two square roots. */
  lemma RootsOfOne(h: int)
    requires FieldInverses() && IsResidue(h) && FMul(h, h) == 1
    ensures h == 1 || h == P - 1
  {
    MinusOne(h);
    hide FieldInverses, FMul;
    ModIs(h - 1);
    ModIs(h + 1);
    if h != 1 {
      ZeroFactor(h - 1, h + 1);
    }
  }

  /** The fourth-root exponent maps squares to 0, 1 or -1. */
  lemma QuarterPower(w: int)
    requires FieldInverses() && 0 < w < P
    ensures FPow(FMul(w, w), (P - 1) / 4) == 1 || FPow(FMul(w, w), (P - 1) / 4) == P - 1
  {
    hide FieldInverses, FMul;
    Fermat(w);
    PowSquare(w, (P - 1) / 4);
    FPowAdds(w, (P - 1) / 2, (P - 1) / 2);
    hide FPow;
    RootsOfOne(FPow(w, (P - 1) / 2));
  }

  /** With u = v x^2 the radicand is a square. */
  lemma RadicandSquare(x: int, u: int, v: int)
    requires Check(x, v) == u
    ensures Radicand(u, v) == FMul(FMul(FMul(Cube(v), v), x), FMul(FMul(Cube(v), v), x))
  {
    var c := v * v * v;
    RadicandCong(u, v);
    CubeCong(v);
    CheckCong(x, v, v);
    hide Radicand, Cube, Check, Cong, FMul;
    FMulCong(Cube(v), c, v, v);
    FMulCong(FMul(Cube(v), v), c * v, x, x);
    var w := FMul(FMul(Cube(v), v), x);
    FMulCong(w, (c * v) * x, w, (c * v) * x);
    CongMul(c * c * v, c * c * v, u, (x * x) * v);
    ArrangeSquare(c, v, x);
    CongTrans(Radicand(u, v), (c * c * v) * u, (c * c * v) * ((x * x) * v));
    FMulResidue(FMul(FMul(Cube(v), Cube(v)), v), u);
    FMulResidue(w, w);
    assert Radicand(u, v) == FMul(FMul(FMul(Cube(v), Cube(v)), v), u) by { RadicandIs(u, v); }
    CongEqual(Radicand(u, v), FMul(w, w), (c * c * v) * ((x * x) * v));
  }

  lemma RadicandIs(u: int, v: int)
    ensures Radicand(u, v) == FMul(FMul(FMul(Cube(v), Cube(v)), v), u)
  {
  }

  lemma FMulResidue(a: int, b: int)
    ensures IsResidue(FMul(a, b))
  {
  }

  lemma ArrangeSquare(c: int, v: int, x: int)
    ensures ((c * v) * x) * ((c * v) * x) == (c * c * v) * ((x * x) * v)
  {
    var cv := c * v;
    assert (cv * x) * (cv * x) == (cv * cv) * (x * x);
    assert cv * cv == (c * c * v) * v;
    var k, xx := c * c * v, x * x;
    assert (k * v) * xx == k * (xx * v);
  }

  lemma NegTimes(u: int)
    requires IsResidue(u)
    ensures FMul(u, 1) == u && FAdd(FMul(u, P - 1), u) == 0 && FSub(u, u) == 0
  {
    ResidueMod(u);
    ResidueMod(0);
    assert u * (P - 1) == -u + P * u;
    CongWitness(u * (P - 1), -u, u);
    CongMod(u * (P - 1));
    CongAdd(FMul(u, P - 1), -u, u, u);
  }

  /** The candidate passes the test for the y of every curve point. */
  lemma PointsDecode(x: int, y: int)
    requires FieldInverses() && IsResidue(y) && OnCurve(Pt(x, y))
    ensures Decodable(y)
  {
    var u, v := Num(y), Den(y);
    OnCurveByRatio(x, y);
    NumDen(y);
    hide Num, Den, OnCurve;
    RootSquared(u, v);
    RadicandSquare(x, u, v);
    NegTimes(u);
    var w := FMul(FMul(Cube(v), v), x);
    FMulResidue(FMul(Cube(v), v), x);
    if w == 0 {
      RootOfZero(x, u, v, w);
    } else {
      hide FMul, FPow, Cube, Check, Radicand, FieldInverses;
      QuarterPower(w);
    }
  }

  lemma RootOfZero(x: int, u: int, v: int, w: int)
    requires FieldInverses() && Check(x, v) == u && IsResidue(u)
    requires w == FMul(FMul(Cube(v), v), x) && w == 0
    ensures u == 0
  {
    var c := v * v * v;
    CubeCong(v);
    FMulCong(Cube(v), c, v, v);
    FMulCong(FMul(Cube(v), v), c * v, x, x);
    CheckCong(x, v, v);
    hide Check, Cube, FMul, FieldInverses;
    ResidueMod(u);
    ResidueMod(0);
    if u != 0 {
      NonzeroFactors(x, v);
      NonzeroMul(v, v);
      NonzeroMul(v * v, v);
      NonzeroMul(c, v);
      NonzeroMul(c * v, x);
    }
  }

  lemma ZeroTimes(a: int, b: int)
    requires Mod(a) == 0
    ensures Mod(a * b) == 0 && Mod(b * a) == 0
  {
    ResidueMod(0);
    CongMul(a, 0, b, b);
  }

  lemma NonzeroFactors(x: int, v: int)
    requires Mod((x * x) * v) != 0
    ensures Mod(x) != 0 && Mod(v) != 0
  {
    if Mod(x) == 0 {
      ZeroTimes(x, x);
      ZeroTimes(x * x, v);
    } else if Mod(v) == 0 {
      ZeroTimes(v, x * x);
    }
  }

  /** The root after the correction by SQRTM1. */
  ghost function Chosen(y: int): int
  {
    var u, v := Num(y), Den(y);
    if FSub(Check(Root(u, v), v), u) == 0 then Root(u, v) else FMul(Root(u, v), SQRTM1)
  }

  /** The sign choice: negate when the parity equals the sign bit, so the result is the negative of the point. */
  ghost function Signed(x: int, sign: int): int { if x % 2 == sign then FNeg(x) else x }

  /** The point the code delivers for the y coordinate and sign bit of an encoding. */
  ghost function Decoded(y: int, sign: int): Pt { Pt(Signed(Chosen(y), sign), y) }

  lemma DifferenceZero(a: int, b: int)
    requires IsResidue(a) && IsResidue(b)
    ensures FSub(a, b) == 0 <==> a == b
    ensures FAdd(a, b) == 0 ==> Cong(a, -b)
  {
    ResidueMod(0);
    if FSub(a, b) == 0 {
      CongDifference(a, b);
      ResidueUnique(a, b);
    }
    if FAdd(a, b) == 0 {
      CongDifference(a, -b);
    }
  }

  /** Multiplying the candidate by a square root of -1 negates v x^2. */
  lemma CheckTurned(r: int, u: int, v: int)
    requires IsResidue(u) && Cong(Check(r, v), -u)
    ensures Check(FMul(r, SQRTM1), v) == u
  {
    var i, x := SQRTM1, FMul(r, SQRTM1);
    CheckCong(r, v, v);
    CheckCong(x, v, v);
    SqrtM1();
    CongMod(r * i);
    hide Check, FMul;
    CongMul(x, r * i, x, r * i);
    CongMul(x * x, (r * i) * (r * i), v, v);
    ArrangeTurn(r, i, v);
    CongMul((r * r) * v, -u, i * i, -1);
    CongTrans(Check(x, v), (x * x) * v, ((r * r) * v) * (i * i));
    CongSym(Check(r, v), (r * r) * v, -u);
    CongTrans(Check(x, v), ((r * r) * v) * (i * i), u);
    ResidueUnique(Check(x, v), u);
  }

  lemma ArrangeTurn(r: int, i: int, v: int)
    ensures ((r * i) * (r * i)) * v == ((r * r) * v) * (i * i)
  {
    assert (r * i) * (r * i) == (r * r) * (i * i);
    var rr, ii := r * r, i * i;
    assert (rr * ii) * v == (rr * v) * ii;
  }

  /** Whenever the test passes, the chosen root gives a curve point. */
  lemma ChosenOnCurve(y: int)
    requires IsResidue(y) && Decodable(y)
    ensures OnCurve(Pt(Chosen(y), y))
  {
    var u, v := Num(y), Den(y);
    var r := Root(u, v);
    NumDen(y);
    CheckCong(r, v, v);
    DifferenceZero(Check(r, v), u);
    if FSub(Check(r, v), u) != 0 {
      CheckTurned(r, u, v);
    }
    OnCurveByRatio(Chosen(y), y);
  }

  /** The parity rule of the decoded x. */
  lemma SignedParity(x: int, sign: int)
    requires IsResidue(x) && 0 <= sign <= 1
    ensures IsResidue(Signed(x, sign))
    ensures Signed(x, sign) != 0 ==> Signed(x, sign) % 2 != sign
    ensures Signed(x, sign) == x || Signed(x, sign) == FNeg(x)
  {
    ModIs(-x);
  }

  /** What decoding promises: a curve point with the y of the encoding and the other sign. */
  lemma DecodedOnCurve(y: int, sign: int)
    requires IsResidue(y) && Decodable(y) && 0 <= sign <= 1
    ensures OnCurve(Decoded(y, sign))
    ensures Decoded(y, sign).x != 0 ==> Decoded(y, sign).x % 2 != sign
  {
    ChosenOnCurve(y);
    hide OnCurve, Chosen, Decodable;
    assert IsResidue(Chosen(y)) by { CurveResidues(Pt(Chosen(y), y)); }
    SignedParity(Chosen(y), sign);
    NegOnCurve(Pt(Chosen(y), y));
  }

  /** Decoding succeeds exactly for the y coordinates of curve points. */
  lemma DecodableIff(y: int)
    requires FieldInverses() && IsResidue(y)
    ensures Decodable(y) <==> exists x :: OnCurve(Pt(x, y))
  {
    if Decodable(y) {
      ChosenOnCurve(y);
    }
    hide Decodable, OnCurve, FieldInverses;
    forall x | OnCurve(Pt(x, y)) ensures Decodable(y) {
      PointsDecode(x, y);
    }
  }

  /** v does not vanish at the y of a curve point. */
  lemma DenNonzero(a: Pt)
    requires OnCurve(a)
    ensures Mod(Den(a.y)) != 0
  {
    var u, v := Num(a.y), Den(a.y);
    OnCurveByRatio(a.x, a.y);
    NumDen(a.y);
    CheckCong(a.x, v, v);
    hide OnCurve, Num, Den, Check;
    if Mod(v) == 0 {
      DenZero(a.x * a.x, a.y * a.y, u, v);
      DPlusOne();
    }
  }

  /** v = d y^2 + 1 = 0 would make u = y^2 - 1 vanish as well, hence d + 1. */
  lemma DenZero(xx: int, yy: int, u: int, v: int)
    requires Cong(u, yy - 1) && Cong(v, D * yy + 1) && Cong(u, xx * v) && Mod(v) == 0
    ensures Cong(D * 1 + 1, 0)
  {
    hide Mod;
    ResidueMod(0);
    ZeroTimes(v, xx);
    CongAdd(yy - 1, 0, 1, 1);
    CongMul(D, D, yy, 1);
    CongAdd(D * yy, D * 1, 1, 1);
  }

  lemma DPlusOne()
    ensures !Cong(D * 1 + 1, 0)
  {
    ModIs(D * 1 + 1);
    ModIs(0);
  }

  /** Two curve points with the same y have x equal or opposite. */
  lemma SameY(a: Pt, x: int)
    requires FieldInverses() && OnCurve(a) && OnCurve(Pt(x, a.y))
    ensures x == a.x || x == P - a.x
  {
    var v := Den(a.y);
    DenNonzero(a);
    OnCurveByRatio(a.x, a.y);
    OnCurveByRatio(x, a.y);
    CheckCong(a.x, v, v);
    CheckCong(x, v, v);
    CurveResidues(a);
    CurveResidues(Pt(x, a.y));
    hide OnCurve, FieldInverses, Check, Den;
    CongTrans((x * x) * v, Check(x, v), (a.x * a.x) * v);
    Cancel(x * x, a.x * a.x, v);
    EqualSquares(x, a.x);
  }

  lemma EqualSquares(x: int, y: int)
    requires FieldInverses() && IsResidue(x) && IsResidue(y) && Cong(x * x, y * y)
    ensures x == y || x == P - y
  {
    hide FieldInverses, Cong, Mod;
    CongDifference(x * x, y * y);
    DifferenceOfSquares(x, y);
    Vanishes(x - y);
    Vanishes(x + y);
    if x != y {
      hide *;
      ZeroFactor(x - y, x + y);
    }
  }

  lemma DifferenceOfSquares(x: int, y: int)
    ensures (x - y) * (x + y) == x * x - y * y
  {
  }

  lemma Vanishes(a: int)
    requires -P < a < 2 * P
    ensures Mod(a) == 0 <==> a == 0 || a == P
  {
    ModIs(a);
  }

  lemma SignedOpposite(x: int, r: int)
    requires IsResidue(x) && IsResidue(r) && (r == x || r == P - x)
    ensures Signed(r, x % 2) == FNeg(x)
  {
    ModIs(-x);
    ModIs(-r);
  }

  /** Decoding the y and sign of a curve point gives its negative. */
  lemma DecodeNegates(a: Pt)
    requires FieldInverses() && OnCurve(a)
    ensures Decodable(a.y) && Decoded(a.y, a.x % 2) == Neg(a)
  {
    hide OnCurve, FieldInverses, Chosen, Decodable, Signed, FNeg;
    CurveResidues(a);
    PointsDecode(a.x, a.y);
    ChosenOnCurve(a.y);
    SameY(a, Chosen(a.y));
    CurveResidues(Pt(Chosen(a.y), a.y));
    SignedOpposite(a.x, Chosen(a.y));
  }
}
