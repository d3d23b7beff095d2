/** The schoolbook table behind fe_mul: products of limbs gathered by weight, 2^255 counting 19. */
module FeTable {
  import opened Words
  import opened Field
  import opened Limbs

  /** Ten integers at the positions of the limbs. */
  datatype Row = Row(y0: int, y1: int, y2: int, y3: int, y4: int, y5: int, y6: int, y7: int, y8: int, y9: int)
  {
    ghost function Val(): int
    {
      Radix(y0, y1, y2, y3, y4, y5, y6, y7, y8, y9)
    }

    ghost function Plus(r: Row): Row
    {
      Row(y0 + r.y0, y1 + r.y1, y2 + r.y2, y3 + r.y3, y4 + r.y4, y5 + r.y5, y6 + r.y6, y7 + r.y7, y8 + r.y8, y9 + r.y9)
    }
  }

  lemma PlusVal(a: Row, b: Row)
    ensures a.Plus(b).Val() == a.Val() + b.Val()
  {
  }

  /** A product kept as one term. */
  ghost function Mul(x: int, y: int): int { x * y }

  /** x times every limb of g. */
  ghost function Scale(x: int32, g: Ten): Row
  {
    Row(Mul(x as int, g.x0 as int), Mul(x as int, g.x1 as int), Mul(x as int, g.x2 as int), Mul(x as int, g.x3 as int),
        Mul(x as int, g.x4 as int), Mul(x as int, g.x5 as int), Mul(x as int, g.x6 as int), Mul(x as int, g.x7 as int),
        Mul(x as int, g.x8 as int), Mul(x as int, g.x9 as int))
  }

  lemma MulPlus(x: int, a: int, c: int, b: int)
    ensures Mul(x, a + c * b) == Mul(x, a) + c * Mul(x, b)
  {
    assert x * (a + c * b) == x * a + x * (c * b);
    assert x * (c * b) == c * (x * b);
  }

  lemma MulRadix(x: int, y0: int, y1: int, y2: int, y3: int, y4: int, y5: int, y6: int, y7: int, y8: int, y9: int)
    ensures Mul(x, Radix(y0, y1, y2, y3, y4, y5, y6, y7, y8, y9))
            == Radix(Mul(x, y0), Mul(x, y1), Mul(x, y2), Mul(x, y3), Mul(x, y4), Mul(x, y5), Mul(x, y6), Mul(x, y7),
                     Mul(x, y8), Mul(x, y9))
  {
    hide Mul;
    MulPlus(x, y0, 0x400_0000, y1);
    var s1 := y0 + 0x400_0000 * y1;
    MulPlus(x, s1, 0x8_0000_0000_0000, y2);
    var s2 := s1 + 0x8_0000_0000_0000 * y2;
    MulPlus(x, s2, 0x2000_0000_0000_0000_0000, y3);
    var s3 := s2 + 0x2000_0000_0000_0000_0000 * y3;
    MulPlus(x, s3, 0x40_0000_0000_0000_0000_0000_0000, y4);
    var s4 := s3 + 0x40_0000_0000_0000_0000_0000_0000 * y4;
    MulPlus(x, s4, 0x1_0000_0000_0000_0000_0000_0000_0000_0000, y5);
    var s5 := s4 + 0x1_0000_0000_0000_0000_0000_0000_0000_0000 * y5;
    MulPlus(x, s5, 0x200_0000_0000_0000_0000_0000_0000_0000_0000_0000, y6);
    var s6 := s5 + 0x200_0000_0000_0000_0000_0000_0000_0000_0000_0000 * y6;
    MulPlus(x, s6, 0x8_0000_0000_0000_0000_0000_0000_0000_0000_0000_0000_0000, y7);
    var s7 := s6 + 0x8_0000_0000_0000_0000_0000_0000_0000_0000_0000_0000_0000 * y7;
    MulPlus(x, s7, 0x1000_0000_0000_0000_0000_0000_0000_0000_0000_0000_0000_0000_0000, y8);
    var s8 := s7 + 0x1000_0000_0000_0000_0000_0000_0000_0000_0000_0000_0000_0000_0000 * y8;
    MulPlus(x, s8, 0x40_0000_0000_0000_0000_0000_0000_0000_0000_0000_0000_0000_0000_0000_0000, y9);
  }

  lemma ScaleVal(x: int32, g: Ten)
    ensures Scale(x, g).Val() == Mul(x as int, g.Val())
  {
    hide Mul;
    g.ValIs();
    MulRadix(x as int, g.x0 as int, g.x1 as int, g.x2 as int, g.x3 as int, g.x4 as int, g.x5 as int, g.x6 as int,
             g.x7 as int, g.x8 as int, g.x9 as int);
  }

  /** Shift1 to Shift9 move a row to the position of that limb, folding what passes 2^255. */
  ghost function Shift1(r: Row): Row
  {
    Row(38 * r.y9, r.y0, 2 * r.y1, r.y2, 2 * r.y3, r.y4, 2 * r.y5, r.y6, 2 * r.y7, r.y8)
  }

  lemma Shift1Val(r: Row)
    ensures Cong(Shift1(r).Val(), 0x400_0000 * r.Val())
  {
    CongWitness(0x400_0000 * r.Val(), Shift1(r).Val(), 0x2 * r.y9);
  }

  ghost function Shift2(r: Row): Row
  {
    Row(19 * r.y8, 19 * r.y9, r.y0, r.y1, r.y2, r.y3, r.y4, r.y5, r.y6, r.y7)
  }

  lemma Shift2Val(r: Row)
    ensures Cong(Shift2(r).Val(), 0x8_0000_0000_0000 * r.Val())
  {
    CongWitness(0x8_0000_0000_0000 * r.Val(), Shift2(r).Val(), 0x1 * r.y8 + 0x400_0000 * r.y9);
  }

  ghost function Shift3(r: Row): Row
  {
    Row(38 * r.y7, 19 * r.y8, 38 * r.y9, r.y0, 2 * r.y1, r.y2, 2 * r.y3, r.y4, 2 * r.y5, r.y6)
  }

  lemma Shift3Val(r: Row)
    ensures Cong(Shift3(r).Val(), 0x2000_0000_0000_0000_0000 * r.Val())
  {
    CongWitness(0x2000_0000_0000_0000_0000 * r.Val(), Shift3(r).Val(),
                0x2 * r.y7 + 0x400_0000 * r.y8 + 0x10_0000_0000_0000 * r.y9);
  }

  ghost function Shift4(r: Row): Row
  {
    Row(19 * r.y6, 19 * r.y7, 19 * r.y8, 19 * r.y9, r.y0, r.y1, r.y2, r.y3, r.y4, r.y5)
  }

  lemma Shift4Val(r: Row)
    ensures Cong(Shift4(r).Val(), 0x40_0000_0000_0000_0000_0000_0000 * r.Val())
  {
    CongWitness(0x40_0000_0000_0000_0000_0000_0000 * r.Val(), Shift4(r).Val(),
                0x1 * r.y6 + 0x400_0000 * r.y7 + 0x8_0000_0000_0000 * r.y8 + 0x2000_0000_0000_0000_0000 * r.y9);
  }

  ghost function Shift5(r: Row): Row
  {
    Row(38 * r.y5, 19 * r.y6, 38 * r.y7, 19 * r.y8, 38 * r.y9, r.y0, 2 * r.y1, r.y2, 2 * r.y3, r.y4)
  }

  lemma Shift5Val(r: Row)
    ensures Cong(Shift5(r).Val(), 0x1_0000_0000_0000_0000_0000_0000_0000_0000 * r.Val())
  {
    CongWitness(0x1_0000_0000_0000_0000_0000_0000_0000_0000 * r.Val(), Shift5(r).Val(),
                0x2 * r.y5 + 0x400_0000 * r.y6 + 0x10_0000_0000_0000 * r.y7 + 0x2000_0000_0000_0000_0000 * r.y8
                + 0x80_0000_0000_0000_0000_0000_0000 * r.y9);
  }

  ghost function Shift6(r: Row): Row
  {
    Row(19 * r.y4, 19 * r.y5, 19 * r.y6, 19 * r.y7, 19 * r.y8, 19 * r.y9, r.y0, r.y1, r.y2, r.y3)
  }

  lemma Shift6Val(r: Row)
    ensures Cong(Shift6(r).Val(), 0x200_0000_0000_0000_0000_0000_0000_0000_0000_0000 * r.Val())
  {
    CongWitness(0x200_0000_0000_0000_0000_0000_0000_0000_0000_0000 * r.Val(), Shift6(r).Val(),
                0x1 * r.y4 + 0x400_0000 * r.y5 + 0x8_0000_0000_0000 * r.y6 + 0x2000_0000_0000_0000_0000 * r.y7
                + 0x40_0000_0000_0000_0000_0000_0000 * r.y8 + 0x1_0000_0000_0000_0000_0000_0000_0000_0000 * r.y9);
  }

  ghost function Shift7(r: Row): Row
  {
    Row(38 * r.y3, 19 * r.y4, 38 * r.y5, 19 * r.y6, 38 * r.y7, 19 * r.y8, 38 * r.y9, r.y0, 2 * r.y1, r.y2)
  }

  lemma Shift7Val(r: Row)
    ensures Cong(Shift7(r).Val(), 0x8_0000_0000_0000_0000_0000_0000_0000_0000_0000_0000_0000 * r.Val())
  {
    CongWitness(0x8_0000_0000_0000_0000_0000_0000_0000_0000_0000_0000_0000 * r.Val(), Shift7(r).Val(),
                0x2 * r.y3 + 0x400_0000 * r.y4 + 0x10_0000_0000_0000 * r.y5 + 0x2000_0000_0000_0000_0000 * r.y6
                + 0x80_0000_0000_0000_0000_0000_0000 * r.y7 + 0x1_0000_0000_0000_0000_0000_0000_0000_0000 * r.y8
                + 0x400_0000_0000_0000_0000_0000_0000_0000_0000_0000 * r.y9);
  }

  ghost function Shift8(r: Row): Row
  {
    Row(19 * r.y2, 19 * r.y3, 19 * r.y4, 19 * r.y5, 19 * r.y6, 19 * r.y7, 19 * r.y8, 19 * r.y9, r.y0, r.y1)
  }

  lemma Shift8Val(r: Row)
    ensures Cong(Shift8(r).Val(), 0x1000_0000_0000_0000_0000_0000_0000_0000_0000_0000_0000_0000_0000 * r.Val())
  {
    CongWitness(0x1000_0000_0000_0000_0000_0000_0000_0000_0000_0000_0000_0000_0000 * r.Val(), Shift8(r).Val(),
                0x1 * r.y2 + 0x400_0000 * r.y3 + 0x8_0000_0000_0000 * r.y4 + 0x2000_0000_0000_0000_0000 * r.y5
                + 0x40_0000_0000_0000_0000_0000_0000 * r.y6 + 0x1_0000_0000_0000_0000_0000_0000_0000_0000 * r.y7
                + 0x200_0000_0000_0000_0000_0000_0000_0000_0000_0000 * r.y8
                + 0x8_0000_0000_0000_0000_0000_0000_0000_0000_0000_0000_0000 * r.y9);
  }

  ghost function Shift9(r: Row): Row
  {
    Row(38 * r.y1, 19 * r.y2, 38 * r.y3, 19 * r.y4, 38 * r.y5, 19 * r.y6, 38 * r.y7, 19 * r.y8, 38 * r.y9, r.y0)
  }

  lemma Shift9Val(r: Row)
    ensures Cong(Shift9(r).Val(), 0x40_0000_0000_0000_0000_0000_0000_0000_0000_0000_0000_0000_0000_0000_0000 * r.Val())
  {
    CongWitness(0x40_0000_0000_0000_0000_0000_0000_0000_0000_0000_0000_0000_0000_0000_0000 * r.Val(), Shift9(r).Val(),
                0x2 * r.y1 + 0x400_0000 * r.y2 + 0x10_0000_0000_0000 * r.y3 + 0x2000_0000_0000_0000_0000 * r.y4
                + 0x80_0000_0000_0000_0000_0000_0000 * r.y5 + 0x1_0000_0000_0000_0000_0000_0000_0000_0000 * r.y6
                + 0x400_0000_0000_0000_0000_0000_0000_0000_0000_0000 * r.y7
                + 0x8_0000_0000_0000_0000_0000_0000_0000_0000_0000_0000_0000 * r.y8
                + 0x2000_0000_0000_0000_0000_0000_0000_0000_0000_0000_0000_0000_0000 * r.y9);
  }

  /** The ten sums of fe_mul. */
  ghost function Table(f: Ten, g: Ten): Row
  {
    Scale(f.x0, g)
    .Plus(Shift1(Scale(f.x1, g)))
    .Plus(Shift2(Scale(f.x2, g)))
    .Plus(Shift3(Scale(f.x3, g)))
    .Plus(Shift4(Scale(f.x4, g)))
    .Plus(Shift5(Scale(f.x5, g)))
    .Plus(Shift6(Scale(f.x6, g)))
    .Plus(Shift7(Scale(f.x7, g)))
    .Plus(Shift8(Scale(f.x8, g)))
    .Plus(Shift9(Scale(f.x9, g)))
  }

  /** Adding one shifted row adds its multiple to the value. */
  lemma AddRow(acc: Row, r: Row, value: int, v: int)
    requires Cong(acc.Val(), value) && Cong(r.Val(), v)
    ensures Cong(acc.Plus(r).Val(), value + v)
  {
    PlusVal(acc, r);
    CongAdd(acc.Val(), value, r.Val(), v);
  }

  lemma RadixTimes(f: Ten, v: int)
    ensures f.Val() * v == Radix(Mul(f.x0 as int, v), Mul(f.x1 as int, v), Mul(f.x2 as int, v), Mul(f.x3 as int, v),
                                 Mul(f.x4 as int, v), Mul(f.x5 as int, v), Mul(f.x6 as int, v), Mul(f.x7 as int, v),
                                 Mul(f.x8 as int, v), Mul(f.x9 as int, v))
  {
    MulRadix(v, f.x0 as int, f.x1 as int, f.x2 as int, f.x3 as int, f.x4 as int, f.x5 as int, f.x6 as int, f.x7 as int,
             f.x8 as int, f.x9 as int);
    f.ValIs();
    hide Ten.Val, Radix;
    assert f.Val() * v == Mul(v, f.Val());
    assert Mul(v, f.x0 as int) == Mul(f.x0 as int, v) && Mul(v, f.x1 as int) == Mul(f.x1 as int, v)
           && Mul(v, f.x2 as int) == Mul(f.x2 as int, v) && Mul(v, f.x3 as int) == Mul(f.x3 as int, v)
           && Mul(v, f.x4 as int) == Mul(f.x4 as int, v) && Mul(v, f.x5 as int) == Mul(f.x5 as int, v)
           && Mul(v, f.x6 as int) == Mul(f.x6 as int, v) && Mul(v, f.x7 as int) == Mul(f.x7 as int, v)
           && Mul(v, f.x8 as int) == Mul(f.x8 as int, v) && Mul(v, f.x9 as int) == Mul(f.x9 as int, v);
  }

  /** The table represents the product of the two values modulo P. */
  lemma TableVal(f: Ten, g: Ten)
    ensures Cong(Table(f, g).Val(), f.Val() * g.Val())
  {
    hide Mul, Row.Val, Row.Plus, Scale, Ten.Val, Cong, Shift1, Shift2, Shift3, Shift4, Shift5, Shift6, Shift7, Shift8,
         Shift9;
    var a0 := Scale(f.x0, g);
    ScaleVal(f.x0, g);
    var v0 := Mul(f.x0 as int, g.Val());
    CongWitness(a0.Val(), v0, 0);
    Shift1Val(Scale(f.x1, g)); ScaleVal(f.x1, g);
    var a1, v1 := a0.Plus(Shift1(Scale(f.x1, g))), v0 + 0x400_0000 * Mul(f.x1 as int, g.Val());
    AddRow(a0, Shift1(Scale(f.x1, g)), v0, 0x400_0000 * Mul(f.x1 as int, g.Val()));
    Shift2Val(Scale(f.x2, g)); ScaleVal(f.x2, g);
    var a2, v2 := a1.Plus(Shift2(Scale(f.x2, g))), v1 + 0x8_0000_0000_0000 * Mul(f.x2 as int, g.Val());
    AddRow(a1, Shift2(Scale(f.x2, g)), v1, 0x8_0000_0000_0000 * Mul(f.x2 as int, g.Val()));
    Shift3Val(Scale(f.x3, g)); ScaleVal(f.x3, g);
    var a3, v3 := a2.Plus(Shift3(Scale(f.x3, g))), v2 + 0x2000_0000_0000_0000_0000 * Mul(f.x3 as int, g.Val());
    AddRow(a2, Shift3(Scale(f.x3, g)), v2, 0x2000_0000_0000_0000_0000 * Mul(f.x3 as int, g.Val()));
    Shift4Val(Scale(f.x4, g)); ScaleVal(f.x4, g);
    var a4, v4 := a3.Plus(Shift4(Scale(f.x4, g))), v3 + 0x40_0000_0000_0000_0000_0000_0000 * Mul(f.x4 as int, g.Val());
    AddRow(a3, Shift4(Scale(f.x4, g)), v3, 0x40_0000_0000_0000_0000_0000_0000 * Mul(f.x4 as int, g.Val()));
    Shift5Val(Scale(f.x5, g)); ScaleVal(f.x5, g);
    var a5, v5 := a4.Plus(Shift5(Scale(f.x5, g))),
      v4 + 0x1_0000_0000_0000_0000_0000_0000_0000_0000 * Mul(f.x5 as int, g.Val());
    AddRow(a4, Shift5(Scale(f.x5, g)), v4, 0x1_0000_0000_0000_0000_0000_0000_0000_0000 * Mul(f.x5 as int, g.Val()));
    Shift6Val(Scale(f.x6, g)); ScaleVal(f.x6, g);
    var a6, v6 := a5.Plus(Shift6(Scale(f.x6, g))),
      v5 + 0x200_0000_0000_0000_0000_0000_0000_0000_0000_0000 * Mul(f.x6 as int, g.Val());
    AddRow(a5, Shift6(Scale(f.x6, g)), v5,
           0x200_0000_0000_0000_0000_0000_0000_0000_0000_0000 * Mul(f.x6 as int, g.Val()));
    Shift7Val(Scale(f.x7, g)); ScaleVal(f.x7, g);
    var a7, v7 := a6.Plus(Shift7(Scale(f.x7, g))),
      v6 + 0x8_0000_0000_0000_0000_0000_0000_0000_0000_0000_0000_0000 * Mul(f.x7 as int, g.Val());
    AddRow(a6, Shift7(Scale(f.x7, g)), v6,
           0x8_0000_0000_0000_0000_0000_0000_0000_0000_0000_0000_0000 * Mul(f.x7 as int, g.Val()));
    Shift8Val(Scale(f.x8, g)); ScaleVal(f.x8, g);
    var a8, v8 := a7.Plus(Shift8(Scale(f.x8, g))),
      v7 + 0x1000_0000_0000_0000_0000_0000_0000_0000_0000_0000_0000_0000_0000 * Mul(f.x8 as int, g.Val());
    AddRow(a7, Shift8(Scale(f.x8, g)), v7,
           0x1000_0000_0000_0000_0000_0000_0000_0000_0000_0000_0000_0000_0000 * Mul(f.x8 as int, g.Val()));
    Shift9Val(Scale(f.x9, g)); ScaleVal(f.x9, g);
    var a9, v9 := a8.Plus(Shift9(Scale(f.x9, g))),
      v8 + 0x40_0000_0000_0000_0000_0000_0000_0000_0000_0000_0000_0000_0000_0000_0000 * Mul(f.x9 as int, g.Val());
    AddRow(a8, Shift9(Scale(f.x9, g)), v8,
           0x40_0000_0000_0000_0000_0000_0000_0000_0000_0000_0000_0000_0000_0000_0000 * Mul(f.x9 as int, g.Val()));
    RadixTimes(f, g.Val());
  }
}
