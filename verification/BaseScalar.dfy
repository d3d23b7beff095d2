/** ge_scalarmult_base (ge.c): table selection and the two-pass comb. */
module BaseScalar {
  import opened Words
  import opened Nonlinear
  import opened Field
  import opened Limbs
  import opened FeLinear
  import opened Edwards
  import opened Multiples
  import opened Coordinates
  import opened GeTypes
  import opened Ge
  import opened GePoints
  import opened BasePoint
  import opened Recoding
  import Radix16

  /** base[i][j] = (j + 1) 256^i B, as precomp_data.h states; S covers the locations. */
  ghost predicate CombInside(base: seq<seq<GePrecomp>>, S: set<object>)
  {
    |base| == 32 && forall i :: 0 <= i < 32 ==> |base[i]| == 8 && RowInside(base[i], S)
  }

  ghost predicate RowInside(row: seq<GePrecomp>, S: set<object>)
  {
    forall j :: 0 <= j < |row| ==> row[j].Ok() && row[j].Repr() <= S
  }

  /** The eight multiples of the point w B. */
  ghost predicate RowHolds(row: seq<GePrecomp>, S: set<object>, w: nat)
    requires |row| == 8 && RowInside(row, S)
    reads S
  {
    forall j :: 0 <= j < 8 ==> row[j].Holds(ZMul((j + 1) * w, BASE))
  }

  ghost predicate CombTable(base: seq<seq<GePrecomp>>, S: set<object>)
    reads S
  {
    CombInside(base, S) && forall i :: 0 <= i < 32 ==> RowHolds(base[i], S, Pow(256, i))
  }

  /** equal: 1 when b == c, by the borrow out of (b ^ c) - 1 in 64 bits. */
  function Equal(b: byte, c: byte): (r: int32)
    ensures r == if b == c then 1 else 0
  {
    var x := BitXor(b as nat, c as nat);
    var y := (x - 1) % 0x1_0000_0000_0000_0000;
    ByteDifference(b as nat, c as nat);
    Borrow(x);
    (y / 0x8000_0000_0000_0000) as int32
  }

  lemma ByteDifference(b: nat, c: nat)
    requires b < 0x100 && c < 0x100
    ensures BitXor(b, c) < 0x100
  {
    assert Pow2(8) == 0x100;
    hide *;
    BitXorBelow(b, c, 8);
  }

  lemma Borrow(x: nat)
    requires x < 0x100
    ensures (x - 1) % 0x1_0000_0000_0000_0000 / 0x8000_0000_0000_0000 == if x == 0 then 1 else 0
  {
  }

  /** negative: the top bit of b widened to 64 bits. */
  function Negative(b: int8): (r: int32)
    ensures r == if b < 0 then 1 else 0
  {
    (((b as int) % 0x1_0000_0000_0000_0000) / 0x8000_0000_0000_0000) as int32
  }

  /** babs = b - (((-bnegative) & b) << 1); the mask -bnegative is 0 or all ones. */
  function AbsoluteOf(b: int8): (r: byte)
    requires -8 <= b <= 8
    ensures r as int == if b < 0 then -(b as int) else b as int
  {
    var masked := if Negative(b) == 1 then b else 0;
    (b as int - masked as int * 2) as byte
  }

  /** cmov */
  method Cmov(t: GePrecomp, u: GePrecomp, b: int32, ghost p: Pt, ghost q: Pt)
    requires t.Ok() && u.Ok() && t.Repr() !! u.Repr() && 0 <= b <= 1
    requires t.Holds(p) && u.Holds(q)
    modifies t.Repr()
    ensures t.Holds(if b == 1 then q else p)
  {
    hide Ten.Val, Ten.Within, Load, IsCached;
    FeCmov(t.yplusx, u.yplusx, b);
    FeCmov(t.yminusx, u.yminusx, b);
    FeCmov(t.xy2d, u.xy2d, b);
  }

  /** (1, 1, 0) is the neutral element. */
  method Neutral(t: GePrecomp)
    requires t.Ok()
    modifies t.Repr()
    ensures t.Holds(ZERO)
  {
    hide Ten.Val, Ten.Within, Load, Fm, Bound;
    FeSet(t.yplusx, 1);
    Small(t.yplusx);
    FeSet(t.yminusx, 1);
    Small(t.yminusx);
    FeSet(t.xy2d, 0);
    Small(t.xy2d);
    ZeroOnCurve();
    ResidueMod(1);
  }

  /** minust: the two sums exchanged and the product negated. */
  method Minus(m: GePrecomp, t: GePrecomp, ghost p: Pt)
    requires m.Ok() && t.Ok() && m.Repr() !! t.Repr() && t.Holds(p)
    modifies m.Repr()
    ensures m.Holds(Neg(p))
  {
    hide Ten.Val, Ten.Within, Load, FNeg, IsCached, Neg;
    NegCachedCorrect(t.View(), p);
    FeCopy(m.yplusx, t.yminusx);
    FeCopy(m.yminusx, t.yplusx);
    FeNeg(m.xy2d, t.xy2d, TIGHT);
  }

  /** select: t = b w B from the row of multiples of w B. The source unrolls the loop. */
  method Select(t: GePrecomp, row: seq<GePrecomp>, ghost S: set<object>, b: int8, ghost w: nat)
    requires |row| == 8 && RowInside(row, S) && RowHolds(row, S, w)
    requires t.Ok() && t.Repr() !! S && -8 <= b <= 8
    modifies t.Repr()
    ensures t.Holds(ZMul(b as int * w, BASE))
  {
    hide Fm, Bound, IsCached, ZMul, Neg;
    var babs := AbsoluteOf(b);
    Neutral(t);
    ghost var p := ZERO;
    for j := 0 to 8
      invariant t.Holds(p) && p == if 1 <= babs as int <= j then ZMul(babs as int * w, BASE) else ZERO
    {
      assert row[j].Repr() <= S;
      ghost var q := ZMul((j + 1) * w, BASE);
      Cmov(t, row[j], Equal(babs, (j + 1) as byte), p, q);
      p := if babs as int == j + 1 then q else p;
    }
    var minust := new GePrecomp();
    Minus(minust, t, p);
    Cmov(t, minust, Negative(b), p, Neg(p));
    SignedMultiple(b as int, babs as int, w);
  }

  /** The signed choice between 0, |b| w B and its negative. */
  lemma SignedMultiple(b: int, babs: nat, w: nat)
    requires babs == if b < 0 then -b else b
    ensures babs == 0 ==> ZMul(b * w, BASE) == ZERO
    ensures b < 0 ==> Neg(ZMul(babs * w, BASE)) == ZMul(b * w, BASE)
  {
    if b < 0 {
      assert b * w == -(babs * w);
      MulLe(w, 0, babs);
      if babs * w == 0 {
        NegZero();
      }
    }
  }

  /** Every second digit, from position p on. */
  ghost function EverySecond(s: seq<int8>, p: nat): (r: seq<int8>)
    requires |s| % 2 == 0 && p <= 1
    ensures |r| == |s| / 2
  {
    seq(|s| / 2, j requires 0 <= j < |s| / 2 => s[2 * j + p])
  }

  /** The comb: radix-16 digits are two interleaved strings of radix-256 digits. */
  lemma {:induction false} Interleaved(s: seq<int8>)
    requires |s| % 2 == 0
    ensures Digits(s, 16) == Digits(EverySecond(s, 0), 256) + 16 * Digits(EverySecond(s, 1), 256)
  {
    if s != [] {
      var t := s[2..];
      Interleaved(t);
      assert s[1..][1..] == t;
      assert EverySecond(s, 0)[1..] == EverySecond(t, 0);
      assert EverySecond(s, 1)[1..] == EverySecond(t, 1);
    }
  }

  /** One more digit on top. */
  lemma DigitsGrow(s: seq<int8>, i: nat)
    requires i < |s|
    ensures Digits(s[..i + 1], 256) == Digits(s[..i], 256) + s[i] as int * Pow(256, i)
  {
    assert s[..i + 1] == s[..i] + [s[i]];
    assert Digits([s[i]], 256) == s[i] as int;
    DigitsAppend(s[..i], [s[i]], 256);
  }

  /** select, ge_madd, ge_p1p1_to_p3: h = h + b w B. */
  method CombStep(h: GeP3, row: seq<GePrecomp>, ghost S: set<object>, b: int8, ghost w: nat, ghost m: int)
    requires Ed25519Holds() && |row| == 8 && RowInside(row, S) && RowHolds(row, S, w)
    requires h.Ok() && h.Repr() !! S && h.Holds(ZMul(m, BASE)) && -8 <= b <= 8
    modifies h.Repr()
    ensures h.Holds(ZMul(m + b as int * w, BASE))
  {
    hide Add, OnCurve, FieldInverses, CurveGroup, ZMul, IsP3, IsP1P1, IsCached, Fm, Bound, RowHolds, RowInside;
    var t := new GePrecomp();
    var r := new GeP1P1();
    Select(t, row, S, b, w);
    MaddTo(r, h, t, ZMul(m, BASE), ZMul(b as int * w, BASE));
    AboutBase();
    ZMulAdds(m, b as int * w, BASE);
    Extend(h, r, ZMul(m + b as int * w, BASE));
  }

  /** One of the two loops over every second digit. */
  method Comb(h: GeP3, e: array<int8>, p: nat, base: seq<seq<GePrecomp>>, ghost S: set<object>, ghost m: int)
    requires Ed25519Holds() && e.Length == 64 && p <= 1 && forall k :: 0 <= k < 64 ==> -8 <= e[k] <= 8
    requires CombTable(base, S) && h.Ok() && h.Repr() !! S && h.Holds(ZMul(m, BASE))
    modifies h.Repr()
    ensures h.Holds(ZMul(m + Digits(EverySecond(e[..], p), 256), BASE))
  {
    hide Add, OnCurve, FieldInverses, CurveGroup, ZMul, IsP3, Fm, Bound, RowHolds, RowInside, Digits, Pow;
    ghost var s := EverySecond(e[..], p);
    assert Digits(s[..0], 256) == 0 by { NoDigits(s); }
    var i := p;
    while i < 64
      invariant p <= i <= 64 + p && i % 2 == p
      invariant h.Holds(ZMul(m + Digits(s[..i / 2], 256), BASE))
    {
      ghost var j := i / 2;
      assert i == 2 * j + p && s[j] == e[i];
      CombStep(h, base[i / 2], S, e[i], Pow(256, j), m + Digits(s[..j], 256));
      DigitsGrow(s, j);
      i := i + 2;
    }
    assert s[..32] == s;
  }

  lemma NoDigits(s: seq<int8>)
    ensures Digits(s[..0], 256) == 0
  {
  }

  lemma DoubleMultiple(m: int)
    requires Ed25519Holds()
    ensures Add(ZMul(m, BASE), ZMul(m, BASE)) == ZMul(2 * m, BASE)
  {
    hide Add, OnCurve, Ed25519Holds, ZMul;
    AboutBase();
    ZMulAdds(m, m, BASE);
  }

  /** ge_p1p1_to_p2 and ge_p2_dbl. */
  method DoubleAgain(r: GeP1P1, s: GeP2, ghost m: int)
    requires Ed25519Holds() && r.Ok() && s.Ok() && r.Repr() !! s.Repr() && r.Holds(ZMul(m, BASE))
    modifies r.Repr(), s.Repr()
    ensures r.Holds(ZMul(2 * m, BASE))
  {
    hide Add, OnCurve, FieldInverses, CurveGroup, ZMul, IsP2, IsP1P1, Fm, Bound;
    Project(s, r, ZMul(m, BASE));
    DoubleStep(r, s, ZMul(m, BASE));
    DoubleMultiple(m);
  }

  /** The four doublings between the loops: h = 16 h. */
  method TimesSixteen(h: GeP3, ghost m: int)
    requires Ed25519Holds() && h.Ok() && h.Holds(ZMul(m, BASE))
    modifies h.Repr()
    ensures h.Holds(ZMul(16 * m, BASE))
  {
    hide Add, OnCurve, FieldInverses, CurveGroup, ZMul, IsP3, IsP1P1, Fm, Bound;
    var r := new GeP1P1();
    var s := new GeP2();
    DoubleExtended(r, h, ZMul(m, BASE));
    DoubleMultiple(m);
    DoubleAgain(r, s, 2 * m);
    DoubleAgain(r, s, 4 * m);
    DoubleAgain(r, s, 8 * m);
    Extend(h, r, ZMul(16 * m, BASE));
  }

  /** ge_scalarmult_base: h = a B for every a with a[31] <= 127. */
  method GeScalarMultBase(h: GeP3, a: seq<byte>, base: seq<seq<GePrecomp>>, ghost S: set<object>)
    requires Ed25519Holds() && h.Ok() && |a| == 32 && a[31] <= 127 && CombTable(base, S) && h.Repr() !! S
    modifies h.Repr()
    ensures h.Holds(ZMul(LittleEndian(a), BASE))
  {
    hide Add, OnCurve, FieldInverses, CurveGroup, ZMul, IsP3, Fm, Bound, Digits, CombTable, LittleEndian;
    var e := new int8[64];
    Radix16.Recode(e, a);
    Interleaved(e[..]);
    GeP3Zero(h);
    ZMulZero(BASE);
    Comb(h, e, 1, base, S, 0);
    TimesSixteen(h, Digits(EverySecond(e[..], 1), 256));
    Comb(h, e, 0, base, S, 16 * Digits(EverySecond(e[..], 1), 256));
  }
}
