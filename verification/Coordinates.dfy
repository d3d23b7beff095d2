/** What the coordinate systems of ge.h stand for, and why the point formulas are right. */
module Coordinates {
  import opened Field
  import opened Edwards

  /** Four residues: (X:Y:Z:T), ((X:Z),(Y:T)) or (Y+X, Y-X, Z, 2dT) depending on the predicate. */
  datatype Quad = Quad(x: int, y: int, z: int, t: int)

  /** ge_p3: x = X/Z, y = Y/Z, XY = ZT. */
  ghost predicate IsP3(q: Quad, a: Pt)
  {
    && OnCurve(a) && Mod(q.z) != 0
    && Cong(q.x, a.x * q.z) && Cong(q.y, a.y * q.z) && Cong(q.t, (a.x * a.y) * q.z)
  }

  /** ge_p2: the same without T. */
  ghost predicate IsP2(x: int, y: int, z: int, a: Pt)
  {
    && OnCurve(a) && Mod(z) != 0
    && Cong(x, a.x * z) && Cong(y, a.y * z)
  }

  /** ge_p1p1: x = X/Z, y = Y/T. */
  ghost predicate IsP1P1(q: Quad, a: Pt)
  {
    && OnCurve(a) && Mod(q.z) != 0 && Mod(q.t) != 0
    && Cong(q.x, a.x * q.z) && Cong(q.y, a.y * q.t)
  }

  /** ge_cached: (Y+X, Y-X, Z, 2dT). */
  ghost predicate IsCached(q: Quad, a: Pt)
  {
    && OnCurve(a) && Mod(q.z) != 0
    && Cong(q.x, (a.y + a.x) * q.z) && Cong(q.y, (a.y - a.x) * q.z) && Cong(q.t, (2 * D * (a.x * a.y)) * q.z)
  }

  /** The residues that ge_add computes; with q.z == 1 those of ge_madd. */
  ghost function AddFormula(p: Quad, q: Quad): Quad
  {
    var a, b := FMul(FAdd(p.y, p.x), q.x), FMul(FSub(p.y, p.x), q.y);
    var c, zz := FMul(q.t, p.t), FMul(p.z, q.z);
    var d := FAdd(zz, zz);
    Quad(FSub(a, b), FAdd(a, b), FAdd(d, c), FSub(d, c))
  }

  ghost function SubFormula(p: Quad, q: Quad): Quad
  {
    var a, b := FMul(FAdd(p.y, p.x), q.y), FMul(FSub(p.y, p.x), q.x);
    var c, zz := FMul(q.t, p.t), FMul(p.z, q.z);
    var d := FAdd(zz, zz);
    Quad(FSub(a, b), FAdd(a, b), FSub(d, c), FAdd(d, c))
  }

  ghost function DoubleFormula(x: int, y: int, z: int): Quad
  {
    var xx, yy, zz2 := FMul(x, x), FMul(y, y), FMul(2, FMul(z, z));
    var s := FMul(FAdd(x, y), FAdd(x, y));
    var sum, diff := FAdd(yy, xx), FSub(yy, xx);
    Quad(FSub(s, sum), sum, diff, FSub(zz2, diff))
  }

  ghost function ToP3(p: Quad): Quad
  {
    Quad(FMul(p.x, p.t), FMul(p.y, p.z), FMul(p.z, p.t), FMul(p.x, p.y))
  }

  ghost function ToCached(p: Quad): Quad
  {
    Quad(FAdd(p.y, p.x), FSub(p.y, p.x), p.z, FMul(p.t, Mod(2 * D)))
  }

  /** The field operations stand for the integer ones. */
  lemma FCong(a: int, b: int)
    ensures Cong(FAdd(a, b), a + b) && Cong(FSub(a, b), a - b) && Cong(FMul(a, b), a * b)
  {
    CongMod(a + b);
    CongMod(a - b);
    CongMod(a * b);
  }

  /** A product of two scaled quantities is scaled by the product of the scales. */
  lemma ScaledProduct(u: int, v: int, s: int, t: int, z: int, w: int)
    requires Cong(u, s * z) && Cong(v, t * w)
    ensures Cong(FMul(u, v), (s * t) * (z * w))
  {
    FCong(u, v);
    CongMul(u, s * z, v, t * w);
    assert (s * z) * (t * w) == (s * t) * (z * w);
  }

  lemma ScaledSum(u: int, v: int, s: int, t: int, z: int)
    requires Cong(u, s * z) && Cong(v, t * z)
    ensures Cong(FAdd(u, v), (s + t) * z) && Cong(FSub(u, v), (s - t) * z)
  {
    FCong(u, v);
    CongAdd(u, s * z, v, t * z);
    assert (s + t) * z == s * z + t * z && (s - t) * z == s * z - t * z;
  }

  /** From n = s * d, scaled by 2w on both sides. */
  lemma CompleteRatio(s: int, d: int, n: int, u: int, v: int, w: int)
    requires FieldInverses() && Mod(d) != 0 && Mod(w) != 0
    requires Cong(s * d, n) && Cong(u, (2 * n) * w) && Cong(v, (2 * d) * w)
    ensures Mod(v) != 0 && Cong(u, s * v)
  {
    hide FieldInverses;
    ResidueMod(2);
    NonzeroMul(2, d);
    NonzeroMul(2 * d, w);
    CongMul(s, s, v, (2 * d) * w);
    CongMul(s * d, n, 2 * w, 2 * w);
    assert s * ((2 * d) * w) == (s * d) * (2 * w) && n * (2 * w) == (2 * n) * w;
  }

  lemma AddCorrect(p: Quad, q: Quad, a: Pt, b: Pt)
    requires Ed25519Holds() && IsP3(p, a) && IsCached(q, b)
    ensures IsP1P1(AddFormula(p, q), Add(a, b))
  {
    var w := p.z * q.z;
    NonzeroMul(p.z, q.z);
    Products(p, q, a, b);
    var u, v := FMul(FAdd(p.y, p.x), q.x), FMul(FSub(p.y, p.x), q.y);
    var c, zz := FMul(q.t, p.t), FMul(p.z, q.z);
    AddCross(a, b);
    hide CurveGroup, FieldInverses, OnCurve, Add, FMul, FAdd, FSub, Cross, Cong;
    Combine(u, v, c, zz, a, b, w);
    var s, r, m := Add(a, b), AddFormula(p, q), Cross(a, b);
    CompleteRatio(s.x, 1 + m, a.x * b.y + b.x * a.y, r.x, r.z, w);
    CompleteRatio(s.y, 1 - m, a.y * b.y + a.x * b.x, r.y, r.t, w);
  }

  /** The four products, scaled by the product of the two Z. */
  lemma Products(p: Quad, q: Quad, a: Pt, b: Pt)
    requires IsP3(p, a) && IsCached(q, b)
    ensures Cong(FMul(FAdd(p.y, p.x), q.x), ((a.y + a.x) * (b.y + b.x)) * (p.z * q.z))
    ensures Cong(FMul(FSub(p.y, p.x), q.y), ((a.y - a.x) * (b.y - b.x)) * (p.z * q.z))
    ensures Cong(FMul(q.t, p.t), (2 * Cross(a, b)) * (p.z * q.z))
    ensures Cong(FMul(p.z, q.z), 1 * (p.z * q.z))
  {
    hide OnCurve, Cong, FMul, FAdd, FSub;
    ScaledSum(p.y, p.x, a.y, a.x, p.z);
    ScaledProduct(FAdd(p.y, p.x), q.x, a.y + a.x, b.y + b.x, p.z, q.z);
    ScaledProduct(FSub(p.y, p.x), q.y, a.y - a.x, b.y - b.x, p.z, q.z);
    ScaledProduct(q.t, p.t, 2 * D * (b.x * b.y), a.x * a.y, q.z, p.z);
    assert q.z * p.z == p.z * q.z;
    CrossTerms(a, b);
    FCong(p.z, q.z);
  }

  lemma CrossTerms(a: Pt, b: Pt)
    ensures (2 * D * (b.x * b.y)) * (a.x * a.y) == 2 * Cross(a, b)
  {
    var u, v := b.x * b.y, a.x * a.y;
    assert (a.x * b.x) * (a.y * b.y) == v * u;
  }

  lemma Combine(u: int, v: int, c: int, zz: int, a: Pt, b: Pt, w: int)
    requires Cong(u, ((a.y + a.x) * (b.y + b.x)) * w) && Cong(v, ((a.y - a.x) * (b.y - b.x)) * w)
    requires Cong(c, (2 * Cross(a, b)) * w) && Cong(zz, 1 * w)
    ensures Cong(FSub(u, v), (2 * (a.x * b.y + b.x * a.y)) * w) && Cong(FAdd(u, v), (2 * (a.y * b.y + a.x * b.x)) * w)
    ensures Cong(FAdd(FAdd(zz, zz), c), (2 * (1 + Cross(a, b))) * w)
    ensures Cong(FSub(FAdd(zz, zz), c), (2 * (1 - Cross(a, b))) * w)
  {
    hide Cong, FAdd, FSub, Cross;
    ScaledSum(u, v, (a.y + a.x) * (b.y + b.x), (a.y - a.x) * (b.y - b.x), w);
    SumAndDifference(a.x, a.y, b.x, b.y);
    ScaledSum(zz, zz, 1, 1, w);
    ScaledSum(FAdd(zz, zz), c, 2, 2 * Cross(a, b), w);
  }

  lemma SumAndDifference(x: int, y: int, u: int, v: int)
    ensures (y + x) * (v + u) - (y - x) * (v - u) == 2 * (x * v + u * y)
    ensures (y + x) * (v + u) + (y - x) * (v - u) == 2 * (y * v + x * u)
  {
  }

  /** Exchanging Y+X and Y-X and negating 2dT negates a cached point. */
  ghost function NegCached(q: Quad): Quad { Quad(q.y, q.x, q.z, FNeg(q.t)) }

  lemma NegCachedCorrect(q: Quad, b: Pt)
    requires IsCached(q, b)
    ensures IsCached(NegCached(q), Neg(b))
  {
    NegOnCurve(b);
    var n := Neg(b);
    assert n.y == b.y;
    CongMod(-q.t);
    hide OnCurve, Neg, FNeg;
    CongAdd(b.y, b.y, n.x, -b.x);
    CongMul(n.y + n.x, b.y - b.x, q.z, q.z);
    CongMul(n.y - n.x, b.y + b.x, q.z, q.z);
    NegProduct(n.x, b.x, b.y, q.z);
    CongAdd(0, 0, q.t, (2 * D * (b.x * b.y)) * q.z);
  }

  lemma NegProduct(n: int, x: int, y: int, z: int)
    requires Cong(n, -x)
    ensures Cong((2 * D * (n * y)) * z, -((2 * D * (x * y)) * z))
  {
    CongMul(n, -x, y, y);
    CongMul(2 * D, 2 * D, n * y, (-x) * y);
    CongMul(2 * D * (n * y), 2 * D * ((-x) * y), z, z);
    assert (-x) * y == -(x * y);
    assert (2 * D * -(x * y)) * z == -((2 * D * (x * y)) * z);
  }

  lemma NegTerm(d: int, t: int, p: int)
    ensures FAdd(d, FMul(FNeg(t), p)) == FSub(d, FMul(t, p)) && FSub(d, FMul(FNeg(t), p)) == FAdd(d, FMul(t, p))
  {
    NegFactor(t, p);
    hide FMul, FNeg, Mod;
    CongAdd(d, d, FMul(FNeg(t), p), -FMul(t, p));
  }

  lemma NegFactor(t: int, p: int)
    ensures Cong(FMul(FNeg(t), p), -FMul(t, p))
  {
    CongMod(-t);
    CongMul(FNeg(t), -t, p, p);
    NegTimes(t, p);
    FCong(FNeg(t), p);
    FCong(t, p);
    hide FMul, FNeg, Mod;
    CongAdd(0, 0, FMul(t, p), t * p);
  }

  lemma NegTimes(t: int, p: int)
    ensures (-t) * p == -(t * p)
  {
  }

  lemma SubCorrect(p: Quad, q: Quad, a: Pt, b: Pt)
    requires Ed25519Holds() && IsP3(p, a) && IsCached(q, b)
    ensures IsP1P1(SubFormula(p, q), Add(a, Neg(b)))
  {
    NegCachedCorrect(q, b);
    AddCorrect(p, NegCached(q), a, Neg(b));
    var zz := FMul(p.z, q.z);
    NegTerm(FAdd(zz, zz), q.t, p.t);
  }

  lemma ToP3Correct(p: Quad, a: Pt)
    requires FieldInverses() && IsP1P1(p, a)
    ensures IsP3(ToP3(p), a)
  {
    var zt := p.z * p.t;
    NonzeroMul(p.z, p.t);
    FCong(p.z, p.t);
    hide OnCurve, FMul, FieldInverses;
    CrossProduct(p.x, p.t, a.x, p.z, 1, p.t);
    CrossProduct(p.y, p.z, a.y, p.t, 1, p.z);
    CrossProduct(p.x, p.y, a.x, p.z, a.y, p.t);
    assert (a.x * 1) * zt == a.x * zt && (a.y * 1) * (p.t * p.z) == a.y * zt;
    var z3 := FMul(p.z, p.t);
    CongMul(a.x, a.x, zt, z3);
    CongMul(a.y, a.y, zt, z3);
    CongMul(a.x * a.y, a.x * a.y, zt, z3);
  }

  lemma CrossProduct(u: int, v: int, s: int, z: int, t: int, w: int)
    requires Cong(u, s * z) && Cong(v, t * w)
    ensures Cong(FMul(u, v), (s * t) * (z * w))
  {
    ScaledProduct(u, v, s, t, z, w);
  }

  /** The first three coordinates of a completed point converted. */
  lemma ToP2Correct(p: Quad, a: Pt)
    requires FieldInverses() && IsP1P1(p, a)
    ensures IsP2(FMul(p.x, p.t), FMul(p.y, p.z), FMul(p.z, p.t), a)
  {
    ToP3Correct(p, a);
  }

  /** Extended coordinates satisfy XY = ZT. */
  lemma ExtendedInvariant(q: Quad, a: Pt)
    requires IsP3(q, a)
    ensures Cong(q.x * q.y, q.z * q.t)
  {
    hide OnCurve;
    CongMul(q.x, a.x * q.z, q.y, a.y * q.z);
    CongMul(q.z, q.z, q.t, (a.x * a.y) * q.z);
    assert (a.x * q.z) * (a.y * q.z) == q.z * ((a.x * a.y) * q.z);
  }

  lemma ToCachedCorrect(p: Quad, a: Pt)
    requires IsP3(p, a)
    ensures IsCached(ToCached(p), a)
  {
    hide OnCurve, FMul, FAdd, FSub;
    ScaledSum(p.y, p.x, a.y, a.x, p.z);
    var d2 := Mod(2 * D);
    CongMod(2 * D);
    assert (2 * D) * 1 == 2 * D;
    ScaledProduct(p.t, d2, a.x * a.y, 2 * D, p.z, 1);
    assert ((a.x * a.y) * (2 * D)) * (p.z * 1) == (2 * D * (a.x * a.y)) * p.z;
  }

  /** ge_p2_dbl: the completed double. */
  lemma DoubleCorrect(x: int, y: int, z: int, a: Pt)
    requires Ed25519Holds() && IsP2(x, y, z, a)
    ensures IsP1P1(DoubleFormula(x, y, z), Add(a, a))
  {
    var w := z * z;
    hide Equation;
    OnCurveIs(a);
    NonzeroMul(z, z);
    Squares(x, y, z, a.x, a.y);
    AddCross(a, a);
    assert Cross(a, a) == D * ((a.x * a.x) * (a.y * a.y));
    var r := DoubleFormula(x, y, z);
    var m, u := Cross(a, a), a.y * a.y - a.x * a.x;
    assert Cong(u, 1 + m);
    hide OnCurve, Add, Cross, FieldInverses, CurveGroup, DoubleFormula;
    CongAdd(2, 2, u, 1 + m);
    assert 2 - (1 + m) == 1 - m;
    DoubleRatio(Add(a, a).x, u, 1 + m, 2 * (a.x * a.y), r.x, r.z, w);
    DoubleRatio(Add(a, a).y, 2 - u, 1 - m, a.y * a.y + a.x * a.x, r.y, r.t, w);
  }

  /** From n = s * d, with d replaced by a congruent d' and everything scaled by w. */
  lemma DoubleRatio(s: int, d': int, d: int, n: int, u: int, v: int, w: int)
    requires FieldInverses() && Mod(d) != 0 && Mod(w) != 0 && Cong(d', d)
    requires Cong(s * d, n) && Cong(u, n * w) && Cong(v, d' * w)
    ensures Mod(v) != 0 && Cong(u, s * v)
  {
    hide FieldInverses;
    NonzeroMul(d', w);
    CongMul(d', d, w, w);
    CongMul(s, s, v, d * w);
    CongMul(s * d, n, w, w);
    assert s * (d * w) == (s * d) * w;
  }

  lemma Squares(x: int, y: int, z: int, s: int, t: int)
    requires Cong(x, s * z) && Cong(y, t * z)
    ensures Cong(DoubleFormula(x, y, z).x, (2 * (s * t)) * (z * z))
    ensures Cong(DoubleFormula(x, y, z).y, (t * t + s * s) * (z * z))
    ensures Cong(DoubleFormula(x, y, z).z, (t * t - s * s) * (z * z))
    ensures Cong(DoubleFormula(x, y, z).t, (2 - (t * t - s * s)) * (z * z))
  {
    hide FMul, FAdd, FSub, Cong;
    var w := z * z;
    ScaledProduct(x, x, s, s, z, z);
    ScaledProduct(y, y, t, t, z, z);
    ScaledSum(FMul(y, y), FMul(x, x), t * t, s * s, w);
    ScaledSum(x, y, s, t, z);
    ScaledProduct(FAdd(x, y), FAdd(x, y), s + t, s + t, z, z);
    ScaledSum(FMul(FAdd(x, y), FAdd(x, y)), FAdd(FMul(y, y), FMul(x, x)), (s + t) * (s + t), t * t + s * s, w);
    assert (s + t) * (s + t) - (t * t + s * s) == 2 * (s * t);
    FCong(z, z);
    TwiceScaled(FMul(z, z), w);
    ScaledSum(FMul(2, FMul(z, z)), FSub(FMul(y, y), FMul(x, x)), 2, t * t - s * s, w);
  }

  lemma TwiceScaled(u: int, w: int)
    requires Cong(u, w)
    ensures Cong(FMul(2, u), 2 * w)
  {
    FCong(2, u);
    CongMul(2, 2, u, w);
  }
}
