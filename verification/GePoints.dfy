/** The point operations of ge.c read as operations on curve points. */
module GePoints {
  import opened Field
  import opened Limbs
  import opened Edwards
  import opened Coordinates
  import opened GeTypes
  import opened Ge

  /** ge_p1p1_to_p3 keeps the point. */
  method Extend(u: GeP3, t: GeP1P1, ghost a: Pt)
    requires FieldInverses() && u.Ok() && t.Ok() && u.Repr() !! t.Repr() && t.Holds(a)
    modifies u.Repr()
    ensures u.Holds(a)
  {
    hide ToP3, FMul, FieldInverses, IsP3, IsP1P1, Fm, Bound;
    ToP3Correct(t.View(), a);
    GeP1P1ToP3(u, t);
  }

  /** ge_p1p1_to_p2 keeps the point. */
  method Project(r: GeP2, t: GeP1P1, ghost a: Pt)
    requires FieldInverses() && r.Ok() && t.Ok() && r.Repr() !! t.Repr() && t.Holds(a)
    modifies r.Repr()
    ensures r.Holds(a)
  {
    hide FMul, FieldInverses, IsP1P1, IsP2, Fm, Bound;
    ToP2Correct(t.View(), a);
    GeP1P1ToP2(r, t);
  }

  /** ge_add adds the points. */
  method AddTo(t: GeP1P1, u: GeP3, q: GeCached, ghost a: Pt, ghost b: Pt)
    requires Ed25519Holds() && t.Ok() && u.Ok() && q.Ok() && t.Repr() !! u.Repr() && q.Repr() !! t.Repr()
    requires u.Holds(a) && q.Holds(b)
    modifies t.Repr()
    ensures t.Holds(Add(a, b))
  {
    hide AddFormula, FieldInverses, CurveGroup, IsP3, IsP1P1, IsCached, Add, Fm, Bound;
    AddCorrect(u.View(), q.View(), a, b);
    GeAdd(t, u, q);
  }

  /** ge_p1p1_to_p3 then ge_add: t = t + q. */
  method AddStep(t: GeP1P1, u: GeP3, q: GeCached, ghost a: Pt, ghost b: Pt)
    requires Ed25519Holds() && t.Ok() && u.Ok() && q.Ok() && t.Repr() !! u.Repr()
    requires q.Repr() !! t.Repr() && q.Repr() !! u.Repr()
    requires t.Holds(a) && q.Holds(b)
    modifies t.Repr(), u.Repr()
    ensures t.Holds(Add(a, b))
  {
    hide AddFormula, FieldInverses, CurveGroup, IsP3, IsP1P1, IsCached, Add, Fm, Bound;
    Extend(u, t, a);
    AddTo(t, u, q, a, b);
  }

  /** ge_p1p1_to_p3 then ge_sub: t = t - q. */
  method SubStep(t: GeP1P1, u: GeP3, q: GeCached, ghost a: Pt, ghost b: Pt)
    requires Ed25519Holds() && t.Ok() && u.Ok() && q.Ok() && t.Repr() !! u.Repr()
    requires q.Repr() !! t.Repr() && q.Repr() !! u.Repr()
    requires t.Holds(a) && q.Holds(b)
    modifies t.Repr(), u.Repr()
    ensures t.Holds(Add(a, Neg(b)))
  {
    hide SubFormula, FieldInverses, CurveGroup, IsP3, IsP1P1, IsCached, Add, Neg, Fm, Bound;
    Extend(u, t, a);
    SubCorrect(u.View(), q.View(), a, b);
    GeSub(t, u, q);
  }

  /** ge_madd adds the points. */
  method MaddTo(t: GeP1P1, u: GeP3, q: GePrecomp, ghost a: Pt, ghost b: Pt)
    requires Ed25519Holds() && t.Ok() && u.Ok() && q.Ok() && t.Repr() !! u.Repr() && q.Repr() !! t.Repr()
    requires u.Holds(a) && q.Holds(b)
    modifies t.Repr()
    ensures t.Holds(Add(a, b))
  {
    hide AddFormula, FieldInverses, CurveGroup, IsP3, IsP1P1, IsCached, Add, Fm, Bound;
    AddCorrect(u.View(), q.View(), a, b);
    GeMadd(t, u, q);
  }

  /** ge_p1p1_to_p3 then ge_madd. */
  method MaddStep(t: GeP1P1, u: GeP3, q: GePrecomp, ghost a: Pt, ghost b: Pt)
    requires Ed25519Holds() && t.Ok() && u.Ok() && q.Ok() && t.Repr() !! u.Repr()
    requires q.Repr() !! t.Repr() && q.Repr() !! u.Repr()
    requires t.Holds(a) && q.Holds(b)
    modifies t.Repr(), u.Repr()
    ensures t.Holds(Add(a, b))
  {
    hide AddFormula, FieldInverses, CurveGroup, IsP3, IsP1P1, IsCached, Add, Fm, Bound;
    Extend(u, t, a);
    MaddTo(t, u, q, a, b);
  }

  /** ge_p1p1_to_p3 then ge_msub. */
  method MsubStep(t: GeP1P1, u: GeP3, q: GePrecomp, ghost a: Pt, ghost b: Pt)
    requires Ed25519Holds() && t.Ok() && u.Ok() && q.Ok() && t.Repr() !! u.Repr()
    requires q.Repr() !! t.Repr() && q.Repr() !! u.Repr()
    requires t.Holds(a) && q.Holds(b)
    modifies t.Repr(), u.Repr()
    ensures t.Holds(Add(a, Neg(b)))
  {
    hide SubFormula, FieldInverses, CurveGroup, IsP3, IsP1P1, IsCached, Add, Neg, Fm, Bound;
    Extend(u, t, a);
    SubCorrect(u.View(), q.View(), a, b);
    GeMsub(t, u, q);
  }

  /** ge_p2_dbl doubles the point. */
  method DoubleStep(t: GeP1P1, r: GeP2, ghost a: Pt)
    requires Ed25519Holds() && t.Ok() && r.Ok() && t.Repr() !! r.Repr() && r.Holds(a)
    modifies t.Repr()
    ensures t.Holds(Add(a, a))
  {
    hide DoubleFormula, FieldInverses, CurveGroup, IsP1P1, IsP2, Add, Fm, Bound;
    DoubleCorrect(Fm(r.X), Fm(r.Y), Fm(r.Z), a);
    GeP2Double(t, r);
  }

  lemma P3IsP2(q: Quad, a: Pt)
    requires IsP3(q, a)
    ensures IsP2(q.x, q.y, q.z, a)
  {
  }

  /** ge_p3_dbl doubles the point. */
  method DoubleExtended(t: GeP1P1, h: GeP3, ghost a: Pt)
    requires Ed25519Holds() && t.Ok() && h.Ok() && t.Repr() !! h.Repr() && h.Holds(a)
    modifies t.Repr()
    ensures t.Holds(Add(a, a))
  {
    hide DoubleFormula, FieldInverses, CurveGroup, IsP1P1, IsP2, IsP3, Add, Fm, Bound;
    P3IsP2(h.View(), a);
    DoubleCorrect(Fm(h.X), Fm(h.Y), Fm(h.Z), a);
    GeP3Double(t, h);
  }

  /** ge_p3_to_cached keeps the point. */
  method Cache(r: GeCached, p: GeP3, ghost a: Pt)
    requires r.Ok() && p.Ok() && r.Repr() !! p.Repr() && p.Holds(a)
    modifies r.Repr()
    ensures r.Holds(a)
  {
    hide ToCached, IsP3, IsCached, Fm, Bound;
    ToCachedCorrect(p.View(), a);
    GeP3ToCached(r, p);
  }
}
