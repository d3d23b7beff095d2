/** The twisted Edwards curve -x^2 + y^2 = 1 + d x^2 y^2 over the residues modulo P, in affine
    coordinates: the specification of the point code. Section 5.1 of RFC 8032. */
module Edwards {
  import opened Field

  /** d = -121665 / 121666 */
  const D: int := 0x5203_6cee_2b6f_fe73_8cc7_4079_7779_e898_0070_0a4d_4141_d8ab_75eb_4dca_1359_78a3

  lemma AboutD()
    ensures (121666 * D) % P == (-121665) % P
  {
  }

  datatype Pt = Pt(x: int, y: int)

  const ZERO: Pt := Pt(0, 1)

  /** The curve equation on residues. As with Field.Mod the detour keeps the solver from expanding the equation wherever
      a point is mentioned; OnCurveIs expands it on demand. */
  ghost predicate OnCurve(a: Pt) { IsResidue(a.x) && IsResidue(a.y) && Equation(a, |[a.x, a.y, a.x, a.y]|) }

  ghost predicate Equation(a: Pt, n: nat)
  {
    if n == 0 then Cong(a.y * a.y - a.x * a.x, 1 + D * ((a.x * a.x) * (a.y * a.y))) else Equation(a, n - 1)
  }

  lemma {:induction false} EquationIs(a: Pt, n: nat)
    ensures Equation(a, n) <==> Cong(a.y * a.y - a.x * a.x, 1 + D * ((a.x * a.x) * (a.y * a.y)))
  {
    if n > 0 {
      EquationIs(a, n - 1);
    }
  }

  lemma OnCurveIs(a: Pt)
    ensures OnCurve(a) <==>
            IsResidue(a.x) && IsResidue(a.y) && Cong(a.y * a.y - a.x * a.x, 1 + D * ((a.x * a.x) * (a.y * a.y)))
  {
    EquationIs(a, |[a.x, a.y, a.x, a.y]|);
  }

  function FInv(a: int): int { FPow(a, P - 2) }

  /** d x1 x2 y1 y2 */
  ghost function Cross(a: Pt, b: Pt): int { D * ((a.x * b.x) * (a.y * b.y)) }

  /** The addition law. */
  ghost function Add(a: Pt, b: Pt): Pt
  {
    Pt(FMul(a.x * b.y + b.x * a.y, FInv(Mod(1 + Cross(a, b)))),
       FMul(a.y * b.y + a.x * b.x, FInv(Mod(1 - Cross(a, b)))))
  }

  ghost function Neg(a: Pt): Pt { Pt(FNeg(a.x), a.y) }

  // Hypotheses. They are true statements about this prime and this curve; the project does not prove them.

  /** P is prime, in the form used: a nonzero residue times its (P-2)nd power is 1. */
  ghost predicate FieldInverses()
  {
    forall a {:trigger FInv(a)} | 0 < a < P :: FMul(a, FInv(a)) == 1
  }

  /** No denominator of the addition law vanishes on the curve, sums stay on it, and addition is associative. */
  ghost predicate CurveGroup()
  {
    && (forall a, b {:trigger Cross(a, b)} | OnCurve(a) && OnCurve(b) ::
          Mod(1 + Cross(a, b)) != 0 && Mod(1 - Cross(a, b)) != 0)
    && (forall a, b {:trigger Add(a, b)} | OnCurve(a) && OnCurve(b) :: OnCurve(Add(a, b)))
    && (forall a, b, c {:trigger Add(Add(a, b), c)} {:trigger Add(a, Add(b, c))}
          | OnCurve(a) && OnCurve(b) && OnCurve(c) ::
          Add(Add(a, b), c) == Add(a, Add(b, c)))
  }

  ghost predicate Ed25519Holds() { FieldInverses() && CurveGroup() }

  lemma FInvRight(a: int)
    requires FieldInverses() && Mod(a) != 0
    ensures Cong(a * FInv(Mod(a)), 1)
  {
    CongMod(a);
    CongMul(Mod(a), a, FInv(Mod(a)), FInv(Mod(a)));
    assert FMul(Mod(a), FInv(Mod(a))) == 1;
    ResidueMod(1);
  }

  lemma ZeroFactor(a: int, b: int)
    requires FieldInverses() && Mod(a) != 0 && Mod(a * b) == 0
    ensures Mod(b) == 0
  {
    var i := FInv(Mod(a));
    FInvRight(a);
    ResidueMod(0);
    CongMul(a * i, 1, b, b);
    CongMul(a * b, 0, i, i);
    assert (a * i) * b == (a * b) * i;
  }

  /** The residues have no zero divisors. */
  lemma NonzeroMul(a: int, b: int)
    requires FieldInverses() && Mod(a) != 0 && Mod(b) != 0
    ensures Mod(a * b) != 0
  {
    if Mod(a * b) == 0 {
      ZeroFactor(a, b);
    }
  }

  /** Congruent factors may be cancelled. */
  lemma Cancel(a: int, b: int, c: int)
    requires FieldInverses() && Mod(c) != 0 && Cong(a * c, b * c)
    ensures Cong(a, b)
  {
    var i := FInv(Mod(c));
    FInvRight(c);
    CongMul(a * c, b * c, i, i);
    CongMul(a, a, c * i, 1);
    CongMul(b, b, c * i, 1);
    assert (a * c) * i == a * (c * i) && (b * c) * i == b * (c * i);
  }

  /** The sum satisfies the cross-multiplied addition law. */
  lemma AddCross(a: Pt, b: Pt)
    requires Ed25519Holds() && OnCurve(a) && OnCurve(b)
    ensures OnCurve(Add(a, b))
    ensures Mod(1 + Cross(a, b)) != 0 && Mod(1 - Cross(a, b)) != 0
    ensures Cong(Add(a, b).x * (1 + Cross(a, b)), a.x * b.y + b.x * a.y)
    ensures Cong(Add(a, b).y * (1 - Cross(a, b)), a.y * b.y + a.x * b.x)
  {
    var m := Cross(a, b);
    assert Mod(1 + m) != 0 && Mod(1 - m) != 0;
    Divide(a.x * b.y + b.x * a.y, 1 + m);
    Divide(a.y * b.y + a.x * b.x, 1 - m);
  }

  lemma Divide(n: int, d: int)
    requires FieldInverses() && Mod(d) != 0
    ensures Cong(FMul(n, FInv(Mod(d))) * d, n)
  {
    var i := FInv(Mod(d));
    FInvRight(d);
    CongMod(n * i);
    CongMul(FMul(n, i), n * i, d, d);
    CongMul(n, n, d * i, 1);
    assert (n * i) * d == n * (d * i);
  }

  /** The law determines the sum. */
  lemma AddUnique(a: Pt, b: Pt, c: Pt)
    requires Ed25519Holds() && OnCurve(a) && OnCurve(b) && IsResidue(c.x) && IsResidue(c.y)
    requires Cong(c.x * (1 + Cross(a, b)), a.x * b.y + b.x * a.y)
    requires Cong(c.y * (1 - Cross(a, b)), a.y * b.y + a.x * b.x)
    ensures c == Add(a, b)
  {
    var s := Add(a, b);
    AddCross(a, b);
    Cancel(c.x, s.x, 1 + Cross(a, b));
    Cancel(c.y, s.y, 1 - Cross(a, b));
    ResidueUnique(c.x, s.x);
    ResidueUnique(c.y, s.y);
  }

  lemma AddComm(a: Pt, b: Pt)
    ensures Add(a, b) == Add(b, a)
  {
    assert Cross(a, b) == Cross(b, a);
    assert a.x * b.y + b.x * a.y == b.x * a.y + a.x * b.y;
    assert a.y * b.y + a.x * b.x == b.y * a.y + b.x * a.x;
  }

  lemma AddAssoc(a: Pt, b: Pt, c: Pt)
    requires CurveGroup() && OnCurve(a) && OnCurve(b) && OnCurve(c)
    ensures Add(Add(a, b), c) == Add(a, Add(b, c))
  {
  }

  lemma CurveResidues(a: Pt)
    requires OnCurve(a)
    ensures IsResidue(a.x) && IsResidue(a.y)
  {
  }

  lemma ZeroOnCurve()
    ensures OnCurve(ZERO)
  {
    OnCurveIs(ZERO);
  }

  lemma AddZero(a: Pt)
    requires Ed25519Holds() && OnCurve(a)
    ensures Add(a, ZERO) == a && Add(ZERO, a) == a
  {
    ZeroOnCurve();
    assert Cross(a, ZERO) == 0;
    AddUnique(a, ZERO, a);
    AddComm(a, ZERO);
  }

  lemma NegOnCurve(a: Pt)
    requires OnCurve(a)
    ensures OnCurve(Neg(a)) && Cong(Neg(a).x, -a.x)
  {
    OnCurveIs(a);
    OnCurveIs(Neg(a));
    CongMod(-a.x);
    hide OnCurve, Mod;
    NegEquation(a.x, Neg(a).x, a.y * a.y);
  }

  lemma NegEquation(x: int, n: int, yy: int)
    requires Cong(n, -x)
    ensures Cong(yy - n * n, yy - x * x) && Cong(1 + D * ((n * n) * yy), 1 + D * ((x * x) * yy))
  {
    hide Mod;
    CongMul(n, -x, n, -x);
    NegSquare(x);
    CongMul(n * n, x * x, yy, yy);
    CongMul(D, D, (n * n) * yy, (x * x) * yy);
    CongAdd(1, 1, D * ((n * n) * yy), D * ((x * x) * yy));
    CongAdd(yy, yy, n * n, x * x);
  }

  lemma NegSquare(x: int)
    ensures (-x) * (-x) == x * x
  {
  }

  lemma NegSums(x: int, y: int, n: int)
    requires Cong(n, -x)
    ensures Cong(x * y + n * y, 0) && Cong(x * n, -(x * x))
  {
    CongMul(n, -x, y, y);
    CongAdd(x * y, x * y, n * y, (-x) * y);
    CongMul(x, x, n, -x);
    assert (-x) * y == -(x * y) && x * (-x) == -(x * x);
  }

  lemma NegCross(xn: int, xx: int, yy: int)
    requires Cong(xn, -xx)
    ensures Cong(1 - D * (xn * yy), 1 + D * (xx * yy))
  {
    CongMul(xn, -xx, yy, yy);
    CongMul(D, D, xn * yy, (-xx) * yy);
    assert D * ((-xx) * yy) == -(D * (xx * yy));
    CongAdd(1, 1, D * (xn * yy), -(D * (xx * yy)));
  }

  lemma AddNeg(a: Pt)
    requires Ed25519Holds() && OnCurve(a)
    ensures Add(a, Neg(a)) == ZERO && Add(Neg(a), a) == ZERO
  {
    var b := Neg(a);
    assert b.y == a.y;
    OnCurveIs(a);
    hide Add, Neg, Ed25519Holds, OnCurve, Mod;
    NegOnCurve(a);
    ZeroOnCurve();
    NegSums(a.x, a.y, b.x);
    NegCross(a.x * b.x, a.x * a.x, a.y * a.y);
    CongAdd(a.y * a.y, a.y * a.y, a.x * b.x, -(a.x * a.x));
    AddUnique(a, b, ZERO);
    AddComm(a, b);
  }
}
