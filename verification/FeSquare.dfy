/** fe_sq and fe_sq2: squaring with the equal cross products merged. */
module FeSquare {
  import opened Words
  import opened Field
  import opened Limbs
  import opened FeTable
  import opened FeCarry
  import opened FeMultiply

  /** (int64) (a * x) * (b * y) for the multiples a and b that the source precomputes on int32. */
  function Twice(x: int32, y: int32): (r: int64)
    requires In(x as int, E) && In(y as int, E)
    ensures r as int == 2 * Mul(x as int, y as int)
    ensures In(r as int, 2 * (E * E))
  {
    MulBound(x as int, y as int, E, E);
    ((2 * x) as int64) * (y as int64)
  }

  function By2And2(x: int32, y: int32): (r: int64)
    requires In(x as int, O) && In(y as int, O)
    ensures r as int == 4 * Mul(x as int, y as int)
    ensures In(r as int, E * E)
  {
    MulBound(x as int, y as int, O, O);
    ((2 * x) as int64) * ((2 * y) as int64)
  }

  function By2And38(x: int32, y: int32): (r: int64)
    requires In(x as int, O) && In(y as int, O)
    ensures r as int == 76 * Mul(x as int, y as int)
    ensures In(r as int, 19 * (E * E))
  {
    MulBound(x as int, y as int, O, O);
    ((2 * x) as int64) * ((38 * y) as int64)
  }

  function By2And19(x: int32, y: int32): (r: int64)
    requires In(x as int, E) && In(y as int, E)
    ensures r as int == 38 * Mul(x as int, y as int)
    ensures In(r as int, 38 * (E * E))
  {
    MulBound(x as int, y as int, E, E);
    ((2 * x) as int64) * ((19 * y) as int64)
  }

  function By1And38(x: int32, y: int32): (r: int64)
    requires In(x as int, E) && In(y as int, O)
    ensures r as int == 38 * Mul(x as int, y as int)
    ensures In(r as int, 19 * (E * E))
  {
    MulBound(x as int, y as int, E, O);
    (x as int64) * ((38 * y) as int64)
  }

  const SQUARE_COLUMN: int64 := 0x1700_0000_0000_0000

  /** Products commute, so the merged sums equal those of the full table. */
  lemma MulSym(x: int, y: int)
    ensures Mul(x, y) == Mul(y, x)
  {
  }

  function SqColumn0(f: Ten): (h: int64)
    requires f.Within(LOOSE)
    ensures -SQUARE_COLUMN <= h <= SQUARE_COLUMN
  {
    Prod(f.x0, f.x0) + By2And38(f.x1, f.x9) + By2And19(f.x2, f.x8) + By2And38(f.x3, f.x7) + By2And19(f.x4, f.x6)
      + By1And38(f.x5, f.x5)
  }

  lemma SqColumn0Val(f: Ten)
    requires f.Within(LOOSE)
    ensures SqColumn0(f) as int == Table(f, f).y0
  {
    hide Mul;
    MulSym(f.x1 as int, f.x9 as int); MulSym(f.x2 as int, f.x8 as int); MulSym(f.x3 as int, f.x7 as int);
    MulSym(f.x4 as int, f.x6 as int);
  }

  function SqColumn1(f: Ten): (h: int64)
    requires f.Within(LOOSE)
    ensures -SQUARE_COLUMN <= h <= SQUARE_COLUMN
  {
    Twice(f.x0, f.x1) + By1And38(f.x2, f.x9) + By2And19(f.x3, f.x8) + By1And38(f.x4, f.x7) + By2And19(f.x5, f.x6)
  }

  lemma SqColumn1Val(f: Ten)
    requires f.Within(LOOSE)
    ensures SqColumn1(f) as int == Table(f, f).y1
  {
    hide Mul;
    MulSym(f.x0 as int, f.x1 as int); MulSym(f.x2 as int, f.x9 as int); MulSym(f.x3 as int, f.x8 as int);
    MulSym(f.x4 as int, f.x7 as int); MulSym(f.x5 as int, f.x6 as int);
  }

  function SqColumn2(f: Ten): (h: int64)
    requires f.Within(LOOSE)
    ensures -SQUARE_COLUMN <= h <= SQUARE_COLUMN
  {
    Twice(f.x0, f.x2) + Twice(f.x1, f.x1) + By2And38(f.x3, f.x9) + By2And19(f.x4, f.x8) + By2And38(f.x5, f.x7)
      + Prod19(f.x6, f.x6)
  }

  lemma SqColumn2Val(f: Ten)
    requires f.Within(LOOSE)
    ensures SqColumn2(f) as int == Table(f, f).y2
  {
    hide Mul;
    MulSym(f.x0 as int, f.x2 as int); MulSym(f.x3 as int, f.x9 as int); MulSym(f.x4 as int, f.x8 as int);
    MulSym(f.x5 as int, f.x7 as int);
  }

  function SqColumn3(f: Ten): (h: int64)
    requires f.Within(LOOSE)
    ensures -SQUARE_COLUMN <= h <= SQUARE_COLUMN
  {
    Twice(f.x0, f.x3) + Twice(f.x1, f.x2) + By1And38(f.x4, f.x9) + By2And19(f.x5, f.x8) + By1And38(f.x6, f.x7)
  }

  lemma SqColumn3Val(f: Ten)
    requires f.Within(LOOSE)
    ensures SqColumn3(f) as int == Table(f, f).y3
  {
    hide Mul;
    MulSym(f.x0 as int, f.x3 as int); MulSym(f.x1 as int, f.x2 as int); MulSym(f.x4 as int, f.x9 as int);
    MulSym(f.x5 as int, f.x8 as int); MulSym(f.x6 as int, f.x7 as int);
  }

  function SqColumn4(f: Ten): (h: int64)
    requires f.Within(LOOSE)
    ensures -SQUARE_COLUMN <= h <= SQUARE_COLUMN
  {
    Twice(f.x0, f.x4) + By2And2(f.x1, f.x3) + Prod(f.x2, f.x2) + By2And38(f.x5, f.x9) + By2And19(f.x6, f.x8)
      + By1And38(f.x7, f.x7)
  }

  lemma SqColumn4Val(f: Ten)
    requires f.Within(LOOSE)
    ensures SqColumn4(f) as int == Table(f, f).y4
  {
    hide Mul;
    MulSym(f.x0 as int, f.x4 as int); MulSym(f.x1 as int, f.x3 as int); MulSym(f.x5 as int, f.x9 as int);
    MulSym(f.x6 as int, f.x8 as int);
  }

  function SqColumn5(f: Ten): (h: int64)
    requires f.Within(LOOSE)
    ensures -SQUARE_COLUMN <= h <= SQUARE_COLUMN
  {
    Twice(f.x0, f.x5) + Twice(f.x1, f.x4) + Twice(f.x2, f.x3) + By1And38(f.x6, f.x9) + By2And19(f.x7, f.x8)
  }

  lemma SqColumn5Val(f: Ten)
    requires f.Within(LOOSE)
    ensures SqColumn5(f) as int == Table(f, f).y5
  {
    hide Mul;
    MulSym(f.x0 as int, f.x5 as int); MulSym(f.x1 as int, f.x4 as int); MulSym(f.x2 as int, f.x3 as int);
    MulSym(f.x6 as int, f.x9 as int); MulSym(f.x7 as int, f.x8 as int);
  }

  function SqColumn6(f: Ten): (h: int64)
    requires f.Within(LOOSE)
    ensures -SQUARE_COLUMN <= h <= SQUARE_COLUMN
  {
    Twice(f.x0, f.x6) + By2And2(f.x1, f.x5) + Twice(f.x2, f.x4) + Twice(f.x3, f.x3) + By2And38(f.x7, f.x9)
      + Prod19(f.x8, f.x8)
  }

  lemma SqColumn6Val(f: Ten)
    requires f.Within(LOOSE)
    ensures SqColumn6(f) as int == Table(f, f).y6
  {
    hide Mul;
    MulSym(f.x0 as int, f.x6 as int); MulSym(f.x1 as int, f.x5 as int); MulSym(f.x2 as int, f.x4 as int);
    MulSym(f.x7 as int, f.x9 as int);
  }

  function SqColumn7(f: Ten): (h: int64)
    requires f.Within(LOOSE)
    ensures -SQUARE_COLUMN <= h <= SQUARE_COLUMN
  {
    Twice(f.x0, f.x7) + Twice(f.x1, f.x6) + Twice(f.x2, f.x5) + Twice(f.x3, f.x4) + By1And38(f.x8, f.x9)
  }

  lemma SqColumn7Val(f: Ten)
    requires f.Within(LOOSE)
    ensures SqColumn7(f) as int == Table(f, f).y7
  {
    hide Mul;
    MulSym(f.x0 as int, f.x7 as int); MulSym(f.x1 as int, f.x6 as int); MulSym(f.x2 as int, f.x5 as int);
    MulSym(f.x3 as int, f.x4 as int); MulSym(f.x8 as int, f.x9 as int);
  }

  function SqColumn8(f: Ten): (h: int64)
    requires f.Within(LOOSE)
    ensures -SQUARE_COLUMN <= h <= SQUARE_COLUMN
  {
    Twice(f.x0, f.x8) + By2And2(f.x1, f.x7) + Twice(f.x2, f.x6) + By2And2(f.x3, f.x5) + Prod(f.x4, f.x4)
      + By1And38(f.x9, f.x9)
  }

  lemma SqColumn8Val(f: Ten)
    requires f.Within(LOOSE)
    ensures SqColumn8(f) as int == Table(f, f).y8
  {
    hide Mul;
    MulSym(f.x0 as int, f.x8 as int); MulSym(f.x1 as int, f.x7 as int); MulSym(f.x2 as int, f.x6 as int);
    MulSym(f.x3 as int, f.x5 as int);
  }

  function SqColumn9(f: Ten): (h: int64)
    requires f.Within(LOOSE)
    ensures -SQUARE_COLUMN <= h <= SQUARE_COLUMN
  {
    Twice(f.x0, f.x9) + Twice(f.x1, f.x8) + Twice(f.x2, f.x7) + Twice(f.x3, f.x6) + Twice(f.x4, f.x5)
  }

  lemma SqColumn9Val(f: Ten)
    requires f.Within(LOOSE)
    ensures SqColumn9(f) as int == Table(f, f).y9
  {
    hide Mul;
    MulSym(f.x0 as int, f.x9 as int); MulSym(f.x1 as int, f.x8 as int); MulSym(f.x2 as int, f.x7 as int);
    MulSym(f.x3 as int, f.x6 as int); MulSym(f.x4 as int, f.x5 as int);
  }

  /** h = f * f; h may be f. */
  method FeSq(h: array<int32>, f: array<int32>)
    requires IsFe(h) && IsFe(f) && Bound(f, LOOSE)
    modifies h
    ensures Bound(h, TIGHT)
    ensures Fm(h) == old(FMul(Fm(f), Fm(f)))
  {
    hide SqColumn0, SqColumn1, SqColumn2, SqColumn3, SqColumn4, SqColumn5, SqColumn6, SqColumn7, SqColumn8, SqColumn9,
         Ten.Val, Ten.Within, Radix, Table;
    var fs := Load(f);
    SqColumn0Val(fs); SqColumn1Val(fs); SqColumn2Val(fs); SqColumn3Val(fs); SqColumn4Val(fs); SqColumn5Val(fs);
    SqColumn6Val(fs); SqColumn7Val(fs); SqColumn8Val(fs); SqColumn9Val(fs);
    TableVal(fs, fs);
    FOpsReduce(fs.Val(), fs.Val());
    var t := Reduce(SqColumn0(fs), SqColumn1(fs), SqColumn2(fs), SqColumn3(fs), SqColumn4(fs), SqColumn5(fs),
                    SqColumn6(fs), SqColumn7(fs), SqColumn8(fs), SqColumn9(fs));
    Store(h, t);
  }

  lemma DoubleRadix(r: Row)
    ensures Radix(r.y0 + r.y0, r.y1 + r.y1, r.y2 + r.y2, r.y3 + r.y3, r.y4 + r.y4, r.y5 + r.y5, r.y6 + r.y6,
                  r.y7 + r.y7, r.y8 + r.y8, r.y9 + r.y9) == 2 * r.Val()
  {
  }

  lemma DoubleValue(t: int, v: int, sq: int)
    requires Cong(t, 2 * v) && Cong(v, sq)
    ensures Mod(t) == FMul(2, Mod(sq))
  {
    CongAdd(v, sq, v, sq);
    FOpsReduce(2, sq);
    ResidueMod(2);
  }

  /** h = 2 * f * f; h may be f. */
  method FeSq2(h: array<int32>, f: array<int32>)
    requires IsFe(h) && IsFe(f) && Bound(f, LOOSE)
    modifies h
    ensures Bound(h, TIGHT)
    ensures Fm(h) == old(FMul(2, FMul(Fm(f), Fm(f))))
  {
    hide SqColumn0, SqColumn1, SqColumn2, SqColumn3, SqColumn4, SqColumn5, SqColumn6, SqColumn7, SqColumn8, SqColumn9,
         Ten.Val, Ten.Within, Radix, Table;
    var fs := Load(f);
    SqColumn0Val(fs); SqColumn1Val(fs); SqColumn2Val(fs); SqColumn3Val(fs); SqColumn4Val(fs); SqColumn5Val(fs);
    SqColumn6Val(fs); SqColumn7Val(fs); SqColumn8Val(fs); SqColumn9Val(fs);
    TableVal(fs, fs);
    FOpsReduce(fs.Val(), fs.Val());
    var h0, h1, h2, h3, h4 := SqColumn0(fs), SqColumn1(fs), SqColumn2(fs), SqColumn3(fs), SqColumn4(fs);
    var h5, h6, h7, h8, h9 := SqColumn5(fs), SqColumn6(fs), SqColumn7(fs), SqColumn8(fs), SqColumn9(fs);
    var t := Reduce(h0 + h0, h1 + h1, h2 + h2, h3 + h3, h4 + h4, h5 + h5, h6 + h6, h7 + h7, h8 + h8, h9 + h9);
    DoubleRadix(Table(fs, fs));
    DoubleValue(t.Val(), Table(fs, fs).Val(), fs.Val() * fs.Val());
    Store(h, t);
  }

}
