/** Point arithmetic of ge.c. Every operand that reaches a multiplication is within its bound: the
    preconditions of FeMul, FeSq and FeSq2 are proved at each call. */
module Ge {
  import opened Words
  import opened Field
  import opened Limbs
  import opened FeLinear
  import opened FeMultiply
  import opened FeSquare
  import opened Edwards
  import opened Coordinates
  import opened GeTypes

  lemma Widen(f: array<int32>, n: int)
    requires IsFe(f) && Bound(f, n) && n <= TRIPLE
    ensures Bound(f, TRIPLE)
  {
    WithinMono(Load(f), n, TRIPLE);
  }

  /** The first five steps that ge_add, ge_sub, ge_madd and ge_msub share: the products A, B and C. */
  method Products(r: GeP1P1, p: GeP3, plus: array<int32>, minus: array<int32>, t2d: array<int32>)
    requires r.Ok() && p.Ok() && p.Bounded() && IsFe(plus) && IsFe(minus) && IsFe(t2d)
    requires Bound(plus, LOOSE) && Bound(minus, LOOSE) && Bound(t2d, LOOSE)
    requires r.Repr() !! p.Repr() && r.Repr() !! {plus, minus, t2d}
    modifies r.Repr()
    ensures Bound(r.Z, TIGHT) && Bound(r.Y, TIGHT) && Bound(r.T, TIGHT)
    ensures Fm(r.Z) == FMul(FAdd(Fm(p.Y), Fm(p.X)), Fm(plus))
    ensures Fm(r.Y) == FMul(FSub(Fm(p.Y), Fm(p.X)), Fm(minus))
    ensures Fm(r.T) == FMul(Fm(t2d), Fm(p.T))
  {
    hide Ten.Val, Ten.Within, FMul, FAdd, FSub, Load, Fm, Bound;
    FeAdd(r.X, p.Y, p.X, TIGHT, TIGHT);
    FeSub(r.Y, p.Y, p.X, TIGHT, TIGHT);
    Loose(r.X, DOUBLE);
    FeMul(r.Z, r.X, plus);
    Loose(r.Y, DOUBLE);
    FeMul(r.Y, r.Y, minus);
    Loose(p.T, TIGHT);
    FeMul(r.T, t2d, p.T);
  }

  /** E and H of the formulas: A - B and A + B. */
  method Halves(r: GeP1P1)
    requires r.Ok() && Bound(r.Z, TIGHT) && Bound(r.Y, TIGHT)
    modifies r.X, r.Y
    ensures Bound(r.X, TRIPLE) && Bound(r.Y, TRIPLE)
    ensures Fm(r.X) == old(FSub(Fm(r.Z), Fm(r.Y))) && Fm(r.Y) == old(FAdd(Fm(r.Z), Fm(r.Y)))
  {
    hide Ten.Val, Ten.Within, FMul, FAdd, FSub, Load, Fm, Bound;
    FeSub(r.X, r.Z, r.Y, TIGHT, TIGHT);
    FeAdd(r.Y, r.Z, r.Y, TIGHT, TIGHT);
    Widen(r.X, DOUBLE);
    Widen(r.Y, DOUBLE);
  }

  /** x = f * g; t = x + x. */
  method TwiceProduct(t: array<int32>, x: array<int32>, f: array<int32>, g: array<int32>)
    requires IsFe(t) && IsFe(x) && IsFe(f) && IsFe(g) && t != x
    requires Bound(f, LOOSE) && Bound(g, LOOSE)
    modifies t, x
    ensures Bound(t, DOUBLE) && Fm(t) == old(FAdd(FMul(Fm(f), Fm(g)), FMul(Fm(f), Fm(g))))
  {
    hide Ten.Val, Ten.Within, FMul, FAdd, Load, Fm, Bound;
    FeMul(x, f, g);
    FeAdd(t, x, x, TIGHT, TIGHT);
  }

  /** ge_add */
  method GeAdd(r: GeP1P1, p: GeP3, q: GeCached)
    requires r.Ok() && p.Ok() && q.Ok() && p.Bounded() && q.Bounded()
    requires r.Repr() !! p.Repr() && r.Repr() !! q.Repr()
    modifies r.Repr()
    ensures r.Bounded() && r.View() == AddFormula(p.View(), q.View())
  {
    hide Ten.Val, Ten.Within, FMul, FAdd, FSub, Load, Fm, Bound;
    var t0 := new int32[10];
    Loose(q.YplusX, DOUBLE); Loose(q.YminusX, DOUBLE); Loose(q.Z, TIGHT); Loose(q.T2d, TIGHT);
    Products(r, p, q.YplusX, q.YminusX, q.T2d);
    Loose(p.Z, TIGHT);
    TwiceProduct(t0, r.X, p.Z, q.Z);
    Halves(r);
    FeAdd(r.Z, t0, r.T, DOUBLE, TIGHT);
    FeSub(r.T, t0, r.T, DOUBLE, TIGHT);
  }

  /** ge_sub */
  method GeSub(r: GeP1P1, p: GeP3, q: GeCached)
    requires r.Ok() && p.Ok() && q.Ok() && p.Bounded() && q.Bounded()
    requires r.Repr() !! p.Repr() && r.Repr() !! q.Repr()
    modifies r.Repr()
    ensures r.Bounded() && r.View() == SubFormula(p.View(), q.View())
  {
    hide Ten.Val, Ten.Within, FMul, FAdd, FSub, Load, Fm, Bound;
    var t0 := new int32[10];
    Loose(q.YplusX, DOUBLE); Loose(q.YminusX, DOUBLE); Loose(q.Z, TIGHT); Loose(q.T2d, TIGHT);
    Products(r, p, q.YminusX, q.YplusX, q.T2d);
    Loose(p.Z, TIGHT);
    TwiceProduct(t0, r.X, p.Z, q.Z);
    Halves(r);
    FeSub(r.Z, t0, r.T, DOUBLE, TIGHT);
    FeAdd(r.T, t0, r.T, DOUBLE, TIGHT);
  }

  /** The multiplication by Z = 1 that the mixed formulas leave out. */
  lemma TimesOne(f: array<int32>)
    requires IsFe(f)
    ensures FMul(Fm(f), 1) == Fm(f)
  {
    ResidueMod(Fm(f));
  }

  /** ge_madd */
  method GeMadd(r: GeP1P1, p: GeP3, q: GePrecomp)
    requires r.Ok() && p.Ok() && q.Ok() && p.Bounded() && q.Bounded()
    requires r.Repr() !! p.Repr() && r.Repr() !! q.Repr()
    modifies r.Repr()
    ensures r.Bounded() && r.View() == AddFormula(p.View(), q.View())
  {
    hide Ten.Val, Ten.Within, FMul, FAdd, FSub, Load, Fm, Bound;
    var t0 := new int32[10];
    Loose(q.yplusx, TIGHT); Loose(q.yminusx, TIGHT); Loose(q.xy2d, TIGHT);
    TimesOne(p.Z);
    Products(r, p, q.yplusx, q.yminusx, q.xy2d);
    FeAdd(t0, p.Z, p.Z, TIGHT, TIGHT);
    Halves(r);
    FeAdd(r.Z, t0, r.T, DOUBLE, TIGHT);
    FeSub(r.T, t0, r.T, DOUBLE, TIGHT);
  }

  /** ge_msub */
  method GeMsub(r: GeP1P1, p: GeP3, q: GePrecomp)
    requires r.Ok() && p.Ok() && q.Ok() && p.Bounded() && q.Bounded()
    requires r.Repr() !! p.Repr() && r.Repr() !! q.Repr()
    modifies r.Repr()
    ensures r.Bounded() && r.View() == SubFormula(p.View(), q.View())
  {
    hide Ten.Val, Ten.Within, FMul, FAdd, FSub, Load, Fm, Bound;
    var t0 := new int32[10];
    Loose(q.yplusx, TIGHT); Loose(q.yminusx, TIGHT); Loose(q.xy2d, TIGHT);
    TimesOne(p.Z);
    Products(r, p, q.yminusx, q.yplusx, q.xy2d);
    FeAdd(t0, p.Z, p.Z, TIGHT, TIGHT);
    Halves(r);
    FeSub(r.Z, t0, r.T, DOUBLE, TIGHT);
    FeAdd(r.T, t0, r.T, DOUBLE, TIGHT);
  }

  /** ge_p1p1_to_p2 */
  method GeP1P1ToP2(r: GeP2, p: GeP1P1)
    requires r.Ok() && p.Ok() && p.Bounded() && r.Repr() !! p.Repr()
    modifies r.Repr()
    ensures r.Bounded()
    ensures Fm(r.X) == ToP3(p.View()).x && Fm(r.Y) == ToP3(p.View()).y && Fm(r.Z) == ToP3(p.View()).z
  {
    hide Ten.Val, Ten.Within, FMul, Load, Fm, Bound;
    Loose(p.X, TRIPLE); Loose(p.Y, TRIPLE); Loose(p.Z, TRIPLE); Loose(p.T, TRIPLE);
    FeMul(r.X, p.X, p.T);
    FeMul(r.Y, p.Y, p.Z);
    FeMul(r.Z, p.Z, p.T);
  }

  /** ge_p1p1_to_p3 */
  method GeP1P1ToP3(r: GeP3, p: GeP1P1)
    requires r.Ok() && p.Ok() && p.Bounded() && r.Repr() !! p.Repr()
    modifies r.Repr()
    ensures r.Bounded() && r.View() == ToP3(p.View())
  {
    hide Ten.Val, Ten.Within, FMul, Load, Fm, Bound;
    Loose(p.X, TRIPLE); Loose(p.Y, TRIPLE); Loose(p.Z, TRIPLE); Loose(p.T, TRIPLE);
    FeMul(r.X, p.X, p.T);
    FeMul(r.Y, p.Y, p.Z);
    FeMul(r.Z, p.Z, p.T);
    FeMul(r.T, p.X, p.Y);
  }

  /** The constants 0 and 1 are also within the multiplication bound. */
  lemma Small(f: array<int32>)
    requires IsFe(f) && Bound(f, 1)
    ensures Bound(f, TIGHT)
  {
    WithinMono(Load(f), 1, TIGHT);
  }

  /** ge_p2_0 */
  method GeP2Zero(h: GeP2)
    requires h.Ok()
    modifies h.Repr()
    ensures h.Holds(ZERO)
  {
    hide Ten.Val, Ten.Within, Load, Fm, Bound;
    FeSet(h.X, 0);
    Small(h.X);
    FeSet(h.Y, 1);
    Small(h.Y);
    FeSet(h.Z, 1);
    Small(h.Z);
    ZeroOnCurve();
    ResidueMod(1);
  }

  /** ge_p3_0 */
  method GeP3Zero(h: GeP3)
    requires h.Ok()
    modifies h.Repr()
    ensures h.Holds(ZERO)
  {
    hide Ten.Val, Ten.Within, Load, Fm, Bound;
    FeSet(h.X, 0);
    Small(h.X);
    FeSet(h.Y, 1);
    Small(h.Y);
    FeSet(h.Z, 1);
    Small(h.Z);
    FeSet(h.T, 0);
    Small(h.T);
    ZeroOnCurve();
    ResidueMod(1);
  }

  /** Assignment of the structure. */
  method CopyPoint(r: GeP3, p: GeP3)
    requires r.Ok() && p.Ok() && p.Bounded() && r.Repr() !! p.Repr()
    modifies r.Repr()
    ensures r.Bounded() && r.View() == p.View()
  {
    hide Ten.Val, Ten.Within, Load;
    FeCopy(r.X, p.X);
    FeCopy(r.Y, p.Y);
    FeCopy(r.Z, p.Z);
    FeCopy(r.T, p.T);
  }

  /** ge_p2_dbl: the sum X + Y and the differences never exceed three multiplication results. */
  method GeP2Double(r: GeP1P1, p: GeP2)
    requires r.Ok() && p.Ok() && p.Bounded() && r.Repr() !! p.Repr()
    modifies r.Repr()
    ensures r.Bounded() && r.View() == DoubleFormula(Fm(p.X), Fm(p.Y), Fm(p.Z))
  {
    hide Ten.Val, Ten.Within, FMul, FAdd, FSub, Load, Fm, Bound;
    var t0 := new int32[10];
    Loose(p.X, TIGHT); Loose(p.Y, TIGHT); Loose(p.Z, TIGHT);
    FeSq(r.X, p.X);
    FeSq(r.Z, p.Y);
    FeSq2(r.T, p.Z);
    FeAdd(r.Y, p.X, p.Y, TIGHT, TIGHT);
    Loose(r.Y, DOUBLE);
    FeSq(t0, r.Y);
    DoubleTail(r, t0);
  }

  /** The four sums that close ge_p2_dbl. */
  method DoubleTail(r: GeP1P1, t0: array<int32>)
    requires r.Ok() && IsFe(t0) && t0 !in r.Repr()
    requires Bound(r.X, TIGHT) && Bound(r.Z, TIGHT) && Bound(r.T, TIGHT) && Bound(t0, TIGHT)
    modifies r.Repr()
    ensures r.Bounded()
    ensures Fm(r.Y) == old(FAdd(Fm(r.Z), Fm(r.X))) && Fm(r.Z) == old(FSub(Fm(r.Z), Fm(r.X)))
    ensures Fm(r.X) == FSub(Fm(t0), Fm(r.Y)) && Fm(r.T) == FSub(old(Fm(r.T)), Fm(r.Z))
  {
    hide Ten.Val, Ten.Within, FMul, FAdd, FSub, Load, Fm, Bound;
    FeAdd(r.Y, r.Z, r.X, TIGHT, TIGHT);
    FeSub(r.Z, r.Z, r.X, TIGHT, TIGHT);
    FeSub(r.X, t0, r.Y, TIGHT, DOUBLE);
    FeSub(r.T, r.T, r.Z, TIGHT, DOUBLE);
    Widen(r.Y, DOUBLE);
    Widen(r.Z, DOUBLE);
  }

  /** ge_p3_to_p2 */
  method GeP3ToP2(r: GeP2, p: GeP3)
    requires r.Ok() && p.Ok() && p.Bounded() && r.Repr() !! p.Repr()
    modifies r.Repr()
    ensures r.Bounded() && Fm(r.X) == Fm(p.X) && Fm(r.Y) == Fm(p.Y) && Fm(r.Z) == Fm(p.Z)
  {
    hide Ten.Val, Ten.Within, Load;
    FeCopy(r.X, p.X);
    FeCopy(r.Y, p.Y);
    FeCopy(r.Z, p.Z);
  }

  /** ge_p3_dbl */
  method GeP3Double(r: GeP1P1, p: GeP3)
    requires r.Ok() && p.Ok() && p.Bounded() && r.Repr() !! p.Repr()
    modifies r.Repr()
    ensures r.Bounded() && r.View() == DoubleFormula(Fm(p.X), Fm(p.Y), Fm(p.Z))
  {
    hide Ten.Val, Ten.Within, Load, Fm, Bound, DoubleFormula;
    var q := new GeP2();
    GeP3ToP2(q, p);
    GeP2Double(r, q);
  }

  const D2LIMBS: Ten := Ten(-21827239, -5839606, -30745221, 13898782, 229458, 15978800, -12551817, -6495438, 29715968,
                            9444199)

  lemma D2Limbs()
    ensures D2LIMBS.Within(TIGHT) && Mod(D2LIMBS.Val()) == Mod(2 * D)
  {
    hide Mod;
    D2LIMBS.ValIs();
    ModIs(D2LIMBS.Val());
    ModIs(2 * D);
  }

  /** One of the constant elements. */
  method Constant(t: Ten) returns (f: array<int32>)
    ensures fresh(f) && IsFe(f) && Load(f) == t
  {
    f := new int32[10];
    Store(f, t);
  }

  /** ge_p3_to_cached */
  method GeP3ToCached(r: GeCached, p: GeP3)
    requires r.Ok() && p.Ok() && p.Bounded() && r.Repr() !! p.Repr()
    modifies r.Repr()
    ensures r.Bounded() && r.View() == ToCached(p.View())
  {
    hide Ten.Val, Ten.Within, FMul, FAdd, FSub, Load;
    D2Limbs();
    var d2 := Constant(D2LIMBS);
    FeAdd(r.YplusX, p.Y, p.X, TIGHT, TIGHT);
    FeSub(r.YminusX, p.Y, p.X, TIGHT, TIGHT);
    FeCopy(r.Z, p.Z);
    Loose(p.T, TIGHT);
    Loose(d2, TIGHT);
    FeMul(r.T2d, p.T, d2);
  }
}
