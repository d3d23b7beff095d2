/** fe_mul: schoolbook multiplication of limbs with lazy carries. */
module FeMultiply {
  import opened Words
  import opened Field
  import opened Limbs
  import opened FeTable
  import opened FeCarry

  /** The largest even limb a multiplication accepts, 1.65 * 2^26. Doubled odd limbs fit it too. */
  const E: int := 110729625
  const O: int := 55364812

  ghost predicate In(x: int, b: int) { -b <= x <= b }

  lemma MulBound(x: int, y: int, a: int, b: int)
    requires In(x, a) && In(y, b)
    ensures In(x * y, a * b)
  {
  }

  /** (int64) x * y, (int64) (2 * x) * y, (int64) x * (19 * y) and (int64) (2 * x) * (19 * y). */
  function Prod(x: int32, y: int32): (r: int64)
    requires In(x as int, E) && In(y as int, E)
    ensures r as int == Mul(x as int, y as int)
    ensures In(r as int, E * E)
  {
    MulBound(x as int, y as int, E, E);
    (x as int64) * (y as int64)
  }

  function Prod2(x: int32, y: int32): (r: int64)
    requires In(x as int, O) && In(y as int, E)
    ensures r as int == 2 * Mul(x as int, y as int)
    ensures In(r as int, E * E)
  {
    MulBound(x as int, y as int, O, E);
    ((2 * x) as int64) * (y as int64)
  }

  function Prod19(x: int32, y: int32): (r: int64)
    requires In(x as int, E) && In(y as int, E)
    ensures r as int == 19 * Mul(x as int, y as int)
    ensures In(r as int, 19 * (E * E))
  {
    MulBound(x as int, y as int, E, E);
    x as int64 * (19 * y) as int64
  }

  function Prod38(x: int32, y: int32): (r: int64)
    requires In(x as int, O) && In(y as int, E)
    ensures r as int == 38 * Mul(x as int, y as int)
    ensures In(r as int, 19 * (E * E))
  {
    MulBound(x as int, y as int, O, E);
    (2 * x) as int64 * (19 * y) as int64
  }

  const COLUMN: int64 := 0x1E00_0000_0000_0000

  function MulColumn0(f: Ten, g: Ten): (h: int64)
    requires f.Within(LOOSE) && g.Within(LOOSE)
    ensures -COLUMN <= h <= COLUMN
  {
    Prod(f.x0, g.x0) + Prod38(f.x1, g.x9) + Prod19(f.x2, g.x8) + Prod38(f.x3, g.x7) + Prod19(f.x4, g.x6)
    + Prod38(f.x5, g.x5) + Prod19(f.x6, g.x4) + Prod38(f.x7, g.x3) + Prod19(f.x8, g.x2) + Prod38(f.x9, g.x1)
  }

  lemma MulColumn0Val(f: Ten, g: Ten)
    requires f.Within(LOOSE) && g.Within(LOOSE)
    ensures MulColumn0(f, g) as int == Table(f, g).y0
  {
    hide Mul;
  }

  function MulColumn1(f: Ten, g: Ten): (h: int64)
    requires f.Within(LOOSE) && g.Within(LOOSE)
    ensures -COLUMN <= h <= COLUMN
  {
    Prod(f.x0, g.x1) + Prod(f.x1, g.x0) + Prod19(f.x2, g.x9) + Prod19(f.x3, g.x8) + Prod19(f.x4, g.x7)
    + Prod19(f.x5, g.x6) + Prod19(f.x6, g.x5) + Prod19(f.x7, g.x4) + Prod19(f.x8, g.x3) + Prod19(f.x9, g.x2)
  }

  lemma MulColumn1Val(f: Ten, g: Ten)
    requires f.Within(LOOSE) && g.Within(LOOSE)
    ensures MulColumn1(f, g) as int == Table(f, g).y1
  {
    hide Mul;
  }

  function MulColumn2(f: Ten, g: Ten): (h: int64)
    requires f.Within(LOOSE) && g.Within(LOOSE)
    ensures -COLUMN <= h <= COLUMN
  {
    Prod(f.x0, g.x2) + Prod2(f.x1, g.x1) + Prod(f.x2, g.x0) + Prod38(f.x3, g.x9) + Prod19(f.x4, g.x8)
    + Prod38(f.x5, g.x7) + Prod19(f.x6, g.x6) + Prod38(f.x7, g.x5) + Prod19(f.x8, g.x4) + Prod38(f.x9, g.x3)
  }

  lemma MulColumn2Val(f: Ten, g: Ten)
    requires f.Within(LOOSE) && g.Within(LOOSE)
    ensures MulColumn2(f, g) as int == Table(f, g).y2
  {
    hide Mul;
  }

  function MulColumn3(f: Ten, g: Ten): (h: int64)
    requires f.Within(LOOSE) && g.Within(LOOSE)
    ensures -COLUMN <= h <= COLUMN
  {
    Prod(f.x0, g.x3) + Prod(f.x1, g.x2) + Prod(f.x2, g.x1) + Prod(f.x3, g.x0) + Prod19(f.x4, g.x9)
    + Prod19(f.x5, g.x8) + Prod19(f.x6, g.x7) + Prod19(f.x7, g.x6) + Prod19(f.x8, g.x5) + Prod19(f.x9, g.x4)
  }

  lemma MulColumn3Val(f: Ten, g: Ten)
    requires f.Within(LOOSE) && g.Within(LOOSE)
    ensures MulColumn3(f, g) as int == Table(f, g).y3
  {
    hide Mul;
  }

  function MulColumn4(f: Ten, g: Ten): (h: int64)
    requires f.Within(LOOSE) && g.Within(LOOSE)
    ensures -COLUMN <= h <= COLUMN
  {
    Prod(f.x0, g.x4) + Prod2(f.x1, g.x3) + Prod(f.x2, g.x2) + Prod2(f.x3, g.x1) + Prod(f.x4, g.x0)
    + Prod38(f.x5, g.x9) + Prod19(f.x6, g.x8) + Prod38(f.x7, g.x7) + Prod19(f.x8, g.x6) + Prod38(f.x9, g.x5)
  }

  lemma MulColumn4Val(f: Ten, g: Ten)
    requires f.Within(LOOSE) && g.Within(LOOSE)
    ensures MulColumn4(f, g) as int == Table(f, g).y4
  {
    hide Mul;
  }

  function MulColumn5(f: Ten, g: Ten): (h: int64)
    requires f.Within(LOOSE) && g.Within(LOOSE)
    ensures -COLUMN <= h <= COLUMN
  {
    Prod(f.x0, g.x5) + Prod(f.x1, g.x4) + Prod(f.x2, g.x3) + Prod(f.x3, g.x2) + Prod(f.x4, g.x1)
    + Prod(f.x5, g.x0) + Prod19(f.x6, g.x9) + Prod19(f.x7, g.x8) + Prod19(f.x8, g.x7) + Prod19(f.x9, g.x6)
  }

  lemma MulColumn5Val(f: Ten, g: Ten)
    requires f.Within(LOOSE) && g.Within(LOOSE)
    ensures MulColumn5(f, g) as int == Table(f, g).y5
  {
    hide Mul;
  }

  function MulColumn6(f: Ten, g: Ten): (h: int64)
    requires f.Within(LOOSE) && g.Within(LOOSE)
    ensures -COLUMN <= h <= COLUMN
  {
    Prod(f.x0, g.x6) + Prod2(f.x1, g.x5) + Prod(f.x2, g.x4) + Prod2(f.x3, g.x3) + Prod(f.x4, g.x2)
    + Prod2(f.x5, g.x1) + Prod(f.x6, g.x0) + Prod38(f.x7, g.x9) + Prod19(f.x8, g.x8) + Prod38(f.x9, g.x7)
  }

  lemma MulColumn6Val(f: Ten, g: Ten)
    requires f.Within(LOOSE) && g.Within(LOOSE)
    ensures MulColumn6(f, g) as int == Table(f, g).y6
  {
    hide Mul;
  }

  function MulColumn7(f: Ten, g: Ten): (h: int64)
    requires f.Within(LOOSE) && g.Within(LOOSE)
    ensures -COLUMN <= h <= COLUMN
  {
    Prod(f.x0, g.x7) + Prod(f.x1, g.x6) + Prod(f.x2, g.x5) + Prod(f.x3, g.x4) + Prod(f.x4, g.x3)
    + Prod(f.x5, g.x2) + Prod(f.x6, g.x1) + Prod(f.x7, g.x0) + Prod19(f.x8, g.x9) + Prod19(f.x9, g.x8)
  }

  lemma MulColumn7Val(f: Ten, g: Ten)
    requires f.Within(LOOSE) && g.Within(LOOSE)
    ensures MulColumn7(f, g) as int == Table(f, g).y7
  {
    hide Mul;
  }

  function MulColumn8(f: Ten, g: Ten): (h: int64)
    requires f.Within(LOOSE) && g.Within(LOOSE)
    ensures -COLUMN <= h <= COLUMN
  {
    Prod(f.x0, g.x8) + Prod2(f.x1, g.x7) + Prod(f.x2, g.x6) + Prod2(f.x3, g.x5) + Prod(f.x4, g.x4)
    + Prod2(f.x5, g.x3) + Prod(f.x6, g.x2) + Prod2(f.x7, g.x1) + Prod(f.x8, g.x0) + Prod38(f.x9, g.x9)
  }

  lemma MulColumn8Val(f: Ten, g: Ten)
    requires f.Within(LOOSE) && g.Within(LOOSE)
    ensures MulColumn8(f, g) as int == Table(f, g).y8
  {
    hide Mul;
  }

  function MulColumn9(f: Ten, g: Ten): (h: int64)
    requires f.Within(LOOSE) && g.Within(LOOSE)
    ensures -COLUMN <= h <= COLUMN
  {
    Prod(f.x0, g.x9) + Prod(f.x1, g.x8) + Prod(f.x2, g.x7) + Prod(f.x3, g.x6) + Prod(f.x4, g.x5)
    + Prod(f.x5, g.x4) + Prod(f.x6, g.x3) + Prod(f.x7, g.x2) + Prod(f.x8, g.x1) + Prod(f.x9, g.x0)
  }

  lemma MulColumn9Val(f: Ten, g: Ten)
    requires f.Within(LOOSE) && g.Within(LOOSE)
    ensures MulColumn9(f, g) as int == Table(f, g).y9
  {
    hide Mul;
  }

  /** h = f * g; h may be f or g. */
  method FeMul(h: array<int32>, f: array<int32>, g: array<int32>)
    requires IsFe(h) && IsFe(f) && IsFe(g)
    requires Bound(f, LOOSE) && Bound(g, LOOSE)
    modifies h
    ensures Bound(h, TIGHT)
    ensures Fm(h) == old(FMul(Fm(f), Fm(g)))
  {
    hide MulColumn0, MulColumn1, MulColumn2, MulColumn3, MulColumn4, MulColumn5, MulColumn6, MulColumn7, MulColumn8,
         MulColumn9, Ten.Val, Ten.Within, Radix, Table;
    var fs, gs := Load(f), Load(g);
    MulColumn0Val(fs, gs); MulColumn1Val(fs, gs); MulColumn2Val(fs, gs); MulColumn3Val(fs, gs); MulColumn4Val(fs, gs);
    MulColumn5Val(fs, gs); MulColumn6Val(fs, gs); MulColumn7Val(fs, gs); MulColumn8Val(fs, gs); MulColumn9Val(fs, gs);
    TableVal(fs, gs);
    FOpsReduce(fs.Val(), gs.Val());
    var t := Reduce(MulColumn0(fs, gs), MulColumn1(fs, gs), MulColumn2(fs, gs), MulColumn3(fs, gs), MulColumn4(fs, gs),
                    MulColumn5(fs, gs), MulColumn6(fs, gs), MulColumn7(fs, gs), MulColumn8(fs, gs), MulColumn9(fs, gs));
    Store(h, t);
  }
}
