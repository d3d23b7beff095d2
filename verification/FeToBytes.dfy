/** fe_tobytes: the unique little-endian encoding of a residue, and the two tests built on it. */
module FeToBytes {
  import opened Words
  import opened Field
  import opened Limbs
  import opened FeFromBytes
  import opened Nonlinear

  /** The bound 1.1 * 2^26 of fe_tobytes, in hundredths of 2^25. */
  const ENCODABLE: int := 220

  /** x >> 26 and x >> 25 on int32 round down. */
  function Shr26(x: int32): (r: int32)
    ensures 0 <= x as int - 0x400_0000 * r as int < 0x400_0000
  {
    x / 0x400_0000
  }

  function Shr25(x: int32): (r: int32)
    ensures 0 <= x as int - 0x200_0000 * r as int < 0x200_0000
  {
    x / 0x200_0000
  }

  /** q = (h + q) >> 26 and q = (h + q) >> 25. */
  function Push26(h: int32, q: int32): (q': int32)
    requires -0x600_0000 <= h <= 0x600_0000 && -128 <= q <= 128
    ensures 0 <= h as int + q as int - 0x400_0000 * q' as int < 0x400_0000
    ensures -3 <= q' <= 3
  {
    (h + q) / 0x400_0000
  }

  function Push25(h: int32, q: int32): (q': int32)
    requires -0x300_0000 <= h <= 0x300_0000 && -128 <= q <= 128
    ensures 0 <= h as int + q as int - 0x200_0000 * q' as int < 0x200_0000
    ensures -3 <= q' <= 3
  {
    (h + q) / 0x200_0000
  }

  /** The chain of shifts that estimates the quotient of the value by P: a single division by 2^255. */
  method Estimate(h: Ten) returns (q: int32, ghost q0: int)
    requires h.Within(ENCODABLE)
    ensures 0 <= 19 * h.x9 as int + 0x100_0000 - 0x200_0000 * q0 < 0x200_0000
    ensures 0 <= h.Val() + q0 - TOP * q as int < TOP
  {
    hide Push25, Push26, Ten.Val, Shr26, Shr25;
    q := Shr25(19 * h.x9 + 0x100_0000);
    q0 := q as int;
    q := Push26(h.x0, q);
    q := Push25(h.x1, q);
    q := Push26(h.x2, q);
    q := Push25(h.x3, q);
    q := Push26(h.x4, q);
    q := Push25(h.x5, q);
    q := Push26(h.x6, q);
    q := Push25(h.x7, q);
    q := Push26(h.x8, q);
    q := Push25(h.x9, q);
    h.ValIs();
  }

  /** The estimate is exact: q is the floor. The comment in the source claims q in -1..1; within the
      stated limb bounds -2 is possible. */
  method Quotient(h: Ten) returns (q: int32)
    requires h.Within(ENCODABLE)
    ensures -2 <= q <= 1
    ensures 0 <= h.Val() - q as int * P < P
  {
    hide Ten.Val;
    h.ValIs();
    ghost var q0: int;
    q, q0 := Estimate(h);
    QuotientExact(h.x9 as int,
                  h.Val() - 0x40_0000_0000_0000_0000_0000_0000_0000_0000_0000_0000_0000_0000_0000_0000 * h.x9 as int,
                  q0, q as int, h.Val() + q0 - q as int * TOP);
  }

  /** Why the estimate is exact: with val = 2^230 * h9 + rest, both inequalities are linear. */
  lemma QuotientExact(h9: int, rest: int, q0: int, q: int, r: int)
    requires 0 <= 19 * h9 + 0x100_0000 - 0x200_0000 * q0 < 0x200_0000
    requires 0x40_0000_0000_0000_0000_0000_0000_0000_0000_0000_0000_0000_0000_0000_0000 * h9 + rest + q0
             == TOP * q + r
    requires 0 <= r < TOP
    requires -0x80_0000_0000_0000_0000_0000_0000_0000_0000_0000_0000_0000_0000_0000_0000 < rest
             < 0x80_0000_0000_0000_0000_0000_0000_0000_0000_0000_0000_0000_0000_0000_0000
    requires -0x270_0000 <= h9 <= 0x270_0000
    ensures -2 <= q <= 1
    ensures 0 <= 0x40_0000_0000_0000_0000_0000_0000_0000_0000_0000_0000_0000_0000_0000_0000 * h9 + rest - q * P < P
  {
  }

  /** An element within the stated limb bounds whose value is below -P, so that the quotient is -2. */
  lemma QuotientMinusTwo()
    ensures var h := Ten(0, 0, 0, 0, 0, 0, 0, 0, 0, -0x200_0001);
            h.Within(ENCODABLE) && h.Val() < -P && 0 <= h.Val() + 2 * P < P
  {
    Ten(0, 0, 0, 0, 0, 0, 0, 0, 0, -0x200_0001).ValIs();
  }

  /** The limbs of the value modulo P: each in its full non-negative range. */
  ghost predicate Canonical(t: Ten)
  {
    && 0 <= t.x0 < 0x400_0000
    && 0 <= t.x1 < 0x200_0000
    && 0 <= t.x2 < 0x400_0000
    && 0 <= t.x3 < 0x200_0000
    && 0 <= t.x4 < 0x400_0000
    && 0 <= t.x5 < 0x200_0000
    && 0 <= t.x6 < 0x400_0000
    && 0 <= t.x7 < 0x200_0000
    && 0 <= t.x8 < 0x400_0000
    && 0 <= t.x9 < 0x200_0000
  }

  /** carry = lo >> 26; hi += carry; lo -= carry << 26. */
  method CarryUp26(lo: int32, hi: int32) returns (lo': int32, hi': int32)
    requires -0x600_0000 <= lo <= 0x600_0000 && -0x600_0000 <= hi <= 0x600_0000
    ensures lo as int + 0x400_0000 * hi as int == lo' as int + 0x400_0000 * hi' as int
    ensures 0 <= lo' < 0x400_0000 && hi - 2 <= hi' <= hi + 1
  {
    var carry := Shr26(lo);
    hi', lo' := hi + carry, lo - carry * 0x400_0000;
  }

  method CarryUp25(lo: int32, hi: int32) returns (lo': int32, hi': int32)
    requires -0x300_0000 <= lo <= 0x300_0000 && -0x600_0000 <= hi <= 0x600_0000
    ensures lo as int + 0x200_0000 * hi as int == lo' as int + 0x200_0000 * hi' as int
    ensures 0 <= lo' < 0x200_0000 && hi - 2 <= hi' <= hi + 1
  {
    var carry := Shr25(lo);
    hi', lo' := hi + carry, lo - carry * 0x200_0000;
  }

  /** Adding 19 * q and carrying upwards. */
  method Propagate(h: Ten, q: int32) returns (t: Ten, carry9: int32)
    requires h.Within(ENCODABLE) && -2 <= q <= 1
    ensures Canonical(t)
    ensures t.Val() + TOP * carry9 as int == h.Val() + 19 * q as int
  {
    hide Ten.Val;
    var h0, h1, h2, h3, h4 := h.x0 + 19 * q, h.x1, h.x2, h.x3, h.x4;
    var h5, h6, h7, h8, h9 := h.x5, h.x6, h.x7, h.x8, h.x9;
    h0, h1 := CarryUp26(h0, h1);
    h1, h2 := CarryUp25(h1, h2);
    h2, h3 := CarryUp26(h2, h3);
    h3, h4 := CarryUp25(h3, h4);
    h4, h5 := CarryUp26(h4, h5);
    h5, h6 := CarryUp25(h5, h6);
    h6, h7 := CarryUp26(h6, h7);
    h7, h8 := CarryUp25(h7, h8);
    h8, h9 := CarryUp26(h8, h9);
    h9, carry9 := CarryUp25(h9, 0);
    t := Ten(h0, h1, h2, h3, h4, h5, h6, h7, h8, h9);
    t.ValIs();
    h.ValIs();
  }

  /** The last carry, which equals q, is dropped. */
  method Normalize(h: Ten, q: int32) returns (t: Ten)
    requires h.Within(ENCODABLE) && -2 <= q <= 1
    requires 0 <= h.Val() - q as int * P < P
    ensures Canonical(t) && t.Val() == h.Val() - q as int * P
  {
    hide Ten.Within;
    var carry9: int32;
    t, carry9 := Propagate(h, q);
    CanonicalBound(t);
    hide Ten.Val;
    SameCarry(t.Val(), carry9 as int, h.Val() - q as int * P, q as int);
  }

  lemma CanonicalBound(t: Ten)
    requires Canonical(t)
    ensures 0 <= t.Val() < TOP
  {
    t.ValIs();
  }

  /** Two numbers below 2^255 that agree up to multiples of 2^255 are equal. */
  lemma SameCarry(a: int, c: int, b: int, q: int)
    requires 0 <= a < TOP && 0 <= b < TOP
    requires a + TOP * c == b + TOP * q
    ensures a == b && c == q
  {
  }

  /** (unsigned char) x */
  function Low8(x: int32): (b: byte)
    requires x >= 0
    ensures b as int == x as int % 0x100
  {
    (x % 0x100) as byte
  }

  /** x << k as a 32-bit pattern; bits beyond the top are lost. */
  function ShiftedLeft(x: int32, k: nat): (r: nat)
    requires x >= 0 && k <= 6
    ensures r == Pow2(k) * (x as int % Pow2(32 - k)) && r < 0x1_0000_0000
  {
    ShiftPattern(x as int, k);
    (Pow2(k) * x as int) % 0x1_0000_0000
  }

  lemma ShiftPattern(x: nat, k: nat)
    requires k <= 6
    ensures 0 <= (Pow2(k) * x) % 0x1_0000_0000 == Pow2(k) * (x % Pow2(32 - k))
    ensures Pow2(k) * x == 0x1_0000_0000 * (x / Pow2(32 - k)) + Pow2(k) * (x % Pow2(32 - k))
  {
    hide Pow2;
    var p, q := Pow2(k), Pow2(32 - k);
    var z, t := x / q, x % q;
    Pow2Adds(k, 32 - k);
    Pow2At32();
    MulDistr(p, q * z, t);
    MulAssoc(p, q, z);
    MulLe(p, t, q - 1);
    MulDistr(p, q, -1);
    MulLe(p, 0, t);
    DivUnique(p * x, 0x1_0000_0000, z, p * t);
  }

  /** (unsigned char) (lo | (hi << k)), where lo occupies the k bits below. The lost bits do not matter: the byte is
      that of the exact sum. */
  function Joined(lo: int32, hi: int32, k: nat): (b: byte)
    requires k <= 6 && 0 <= lo as int < Pow2(k) && 0 <= hi < 0x400_0000
    ensures b as int == (lo as int + Pow2(k) * hi as int) % 0x100
  {
    JoinedByte(lo as int, hi as int, k);
    BitOrDisjoint(lo as int, hi as int % Pow2(32 - k), k);
    (BitOr(lo as int, ShiftedLeft(hi, k)) % 0x100) as byte
  }

  lemma JoinedByte(lo: nat, hi: nat, k: nat)
    requires k <= 6
    ensures (lo + Pow2(k) * hi) % 0x100 == (lo + Pow2(k) * (hi % Pow2(32 - k))) % 0x100
  {
    hide Pow2;
    ShiftPattern(hi, k);
    var s, z := lo + Pow2(k) * (hi % Pow2(32 - k)), hi / Pow2(32 - k);
    DivUnique(lo + Pow2(k) * hi, 0x100, s / 0x100 + 0x100_0000 * z, s % 0x100);
  }

  /** The eight left shifts of the packing stay within int32 with one exception: h4 << 6 does so exactly while the fifth
      limb is below 2^25. */
  lemma PackingShifts(t: Ten)
    requires Canonical(t)
    ensures 4 * t.x1 as int < 0x8000_0000 && 8 * t.x2 as int < 0x8000_0000 && 32 * t.x3 as int < 0x8000_0000
    ensures 64 * t.x4 as int < 0x8000_0000 <==> t.x4 < 0x200_0000
    ensures 2 * t.x6 as int < 0x8000_0000 && 8 * t.x7 as int < 0x8000_0000
    ensures 16 * t.x8 as int < 0x8000_0000 && 64 * t.x9 as int < 0x8000_0000
  {
  }

  /** An element that fe_tobytes packs as it is, where h4 << 6 leaves int32. */
  lemma PackingOverflows()
    ensures var t := Ten(0, 0, 0, 0, 0x200_0000, 0, 0, 0, 0, 0);
            t.Within(ENCODABLE) && Canonical(t) && 0 <= t.Val() < P && 64 * t.x4 as int >= 0x8000_0000
  {
    Ten(0, 0, 0, 0, 0x200_0000, 0, 0, 0, 0, 0).ValIs();
  }

  function LowBytes(t: Ten): (s: seq<byte>)
    requires Canonical(t)
    ensures |s| == 16
  {
    SmallPowers();
    [Low8(t.x0), Low8(t.x0 / 0x100), Low8(t.x0 / 0x1_0000), Joined(t.x0 / 0x100_0000, t.x1, 2), Low8(t.x1 / 0x40),
     Low8(t.x1 / 0x4000), Joined(t.x1 / 0x40_0000, t.x2, 3), Low8(t.x2 / 0x20),
     Low8(t.x2 / 0x2000), Joined(t.x2 / 0x20_0000, t.x3, 5), Low8(t.x3 / 0x8), Low8(t.x3 / 0x800),
     Joined(t.x3 / 0x8_0000, t.x4, 6), Low8(t.x4 / 0x4), Low8(t.x4 / 0x400), Low8(t.x4 / 0x4_0000)]
  }

  function HighBytes(t: Ten): (s: seq<byte>)
    requires Canonical(t)
    ensures |s| == 16
  {
    SmallPowers();
    [Low8(t.x5), Low8(t.x5 / 0x100), Low8(t.x5 / 0x1_0000), Joined(t.x5 / 0x100_0000, t.x6, 1), Low8(t.x6 / 0x80),
     Low8(t.x6 / 0x8000), Joined(t.x6 / 0x80_0000, t.x7, 3), Low8(t.x7 / 0x20),
     Low8(t.x7 / 0x2000), Joined(t.x7 / 0x20_0000, t.x8, 4), Low8(t.x8 / 0x10), Low8(t.x8 / 0x1000),
     Joined(t.x8 / 0x10_0000, t.x9, 6), Low8(t.x9 / 0x4), Low8(t.x9 / 0x400), Low8(t.x9 / 0x4_0000)]
  }

  lemma SmallPowers()
    ensures Pow2(1) == 2 && Pow2(2) == 4 && Pow2(3) == 8 && Pow2(4) == 16 && Pow2(5) == 32 && Pow2(6) == 64
  {
  }


  /** Pieces of a limb: its bits below log2(a), the byte above them, everything above. */
  ghost function Low(x: nat, a: nat): nat
    requires a > 0
  {
    x % a
  }

  ghost function Cut(x: nat, a: nat): nat
    requires a > 0
  {
    (x / a) % 0x100
  }

  ghost function Top(x: nat, a: nat): nat
    requires a > 0
  {
    x / a
  }

  /** A limb cut at bit position log2(a) and at the next two byte boundaries. */
  lemma Chop(x: nat, a: nat)
    requires a > 0
    ensures x == Low(x, a) + a * Cut(x, a) + (a * 0x100) * Cut(x, a * 0x100) + (a * 0x1_0000) * Top(x, a * 0x1_0000)
  {
    var y := x / a;
    DivNest(x, a, 0x100);
    DivNest(x, a, 0x1_0000);
    DivNest(y, 0x100, 0x100);
    var u, v, w := y % 0x100, (y / 0x100) % 0x100, y / 0x1_0000;
    assert y == u + 0x100 * v + 0x1_0000 * w;
    ChopSum(x, a, y, x % a, u, v, w);
  }

  lemma ChopSum(x: int, a: int, y: int, r: int, u: int, v: int, w: int)
    requires x == a * y + r && y == u + 0x100 * v + 0x1_0000 * w
    ensures x == r + a * u + (a * 0x100) * v + (a * 0x1_0000) * w
  {
    MulDistr(a, u, 0x100 * v + 0x1_0000 * w);
    MulDistr(a, 0x100 * v, 0x1_0000 * w);
  }

  /** A shared byte holds the top bits of one limb and the low bits of the next. */
  lemma JoinedVal(lo: nat, x: nat, a: nat, b: nat)
    requires lo < a && 0 < b && a * b == 0x100
    ensures (lo + a * x) % 0x100 == lo + a * Low(x, b)
  {
    var z, t := x / b, x % b;
    MulDistr(a, b * z, t);
    MulAssoc(a, b, z);
    MulLe(a, t, b - 1);
    MulDistr(a, b, -1);
    MulLe(a, 0, t);
    DivUnique(lo + a * x, 0x100, z, lo + a * t);
  }

  lemma LowBytesA1(t: Ten)
    requires Canonical(t)
    ensures LowBytes(t)[0] as int == Cut(t.x0 as int, 1)
    ensures LowBytes(t)[1] as int == Cut(t.x0 as int, 0x100)
    ensures LowBytes(t)[2] as int == Cut(t.x0 as int, 0x1_0000)
    ensures LowBytes(t)[3] as int == Top(t.x0 as int, 0x100_0000) + 4 * Low(t.x1 as int, 64)
  {
    hide Low8, Joined, Low;
    SmallPowers();
    JoinedVal(t.x0 as int / 0x100_0000, t.x1 as int, 4, 64);
  }

  lemma LowBytesA2(t: Ten)
    requires Canonical(t)
    ensures LowBytes(t)[4] as int == Cut(t.x1 as int, 0x40)
    ensures LowBytes(t)[5] as int == Cut(t.x1 as int, 0x4000)
    ensures LowBytes(t)[6] as int == Top(t.x1 as int, 0x40_0000) + 8 * Low(t.x2 as int, 32)
    ensures LowBytes(t)[7] as int == Cut(t.x2 as int, 0x20)
  {
    hide Low8, Joined, Low;
    SmallPowers();
    JoinedVal(t.x1 as int / 0x40_0000, t.x2 as int, 8, 32);
  }

  lemma LowBytesB1(t: Ten)
    requires Canonical(t)
    ensures LowBytes(t)[8] as int == Cut(t.x2 as int, 0x2000)
    ensures LowBytes(t)[9] as int == Top(t.x2 as int, 0x20_0000) + 32 * Low(t.x3 as int, 8)
    ensures LowBytes(t)[10] as int == Cut(t.x3 as int, 0x8)
    ensures LowBytes(t)[11] as int == Cut(t.x3 as int, 0x800)
  {
    hide Low8, Joined, Low;
    SmallPowers();
    JoinedVal(t.x2 as int / 0x20_0000, t.x3 as int, 32, 8);
  }

  lemma LowBytesB2(t: Ten)
    requires Canonical(t)
    ensures LowBytes(t)[12] as int == Top(t.x3 as int, 0x8_0000) + 64 * Low(t.x4 as int, 4)
    ensures LowBytes(t)[13] as int == Cut(t.x4 as int, 0x4)
    ensures LowBytes(t)[14] as int == Cut(t.x4 as int, 0x400)
    ensures LowBytes(t)[15] as int == Cut(t.x4 as int, 0x4_0000)
  {
    hide Low8, Joined, Low;
    SmallPowers();
    JoinedVal(t.x3 as int / 0x8_0000, t.x4 as int, 64, 4);
  }

  lemma LowVal(t: Ten)
    requires Canonical(t)
    ensures Half(LowBytes(t), 0) == t.x0 as int + 0x400_0000 * t.x1 as int + 0x8_0000_0000_0000 * t.x2 as int
                                    + 0x2000_0000_0000_0000_0000 * t.x3 as int
                                      + 0x40_0000_0000_0000_0000_0000_0000 * t.x4 as int
  {
    TopByte(t.x4 as int);
    assert Cut(t.x0 as int, 1) == Low(t.x0 as int, 0x100);
    hide LowBytes, Low, Cut, Top;
    LowBytesA1(t); LowBytesA2(t);
    LowBytesB1(t); LowBytesB2(t);
    Chop(t.x0 as int, 0x100); Chop(t.x1 as int, 0x40); Chop(t.x2 as int, 0x20); Chop(t.x3 as int, 0x8);
    Chop(t.x4 as int, 0x4);
  }

  lemma HighBytesA1(t: Ten)
    requires Canonical(t)
    ensures HighBytes(t)[0] as int == Cut(t.x5 as int, 1)
    ensures HighBytes(t)[1] as int == Cut(t.x5 as int, 0x100)
    ensures HighBytes(t)[2] as int == Cut(t.x5 as int, 0x1_0000)
    ensures HighBytes(t)[3] as int == Top(t.x5 as int, 0x100_0000) + 2 * Low(t.x6 as int, 128)
  {
    hide Low8, Joined, Low;
    SmallPowers();
    JoinedVal(t.x5 as int / 0x100_0000, t.x6 as int, 2, 128);
  }

  lemma HighBytesA2(t: Ten)
    requires Canonical(t)
    ensures HighBytes(t)[4] as int == Cut(t.x6 as int, 0x80)
    ensures HighBytes(t)[5] as int == Cut(t.x6 as int, 0x8000)
    ensures HighBytes(t)[6] as int == Top(t.x6 as int, 0x80_0000) + 8 * Low(t.x7 as int, 32)
    ensures HighBytes(t)[7] as int == Cut(t.x7 as int, 0x20)
  {
    hide Low8, Joined, Low;
    SmallPowers();
    JoinedVal(t.x6 as int / 0x80_0000, t.x7 as int, 8, 32);
  }

  lemma HighBytesB1(t: Ten)
    requires Canonical(t)
    ensures HighBytes(t)[8] as int == Cut(t.x7 as int, 0x2000)
    ensures HighBytes(t)[9] as int == Top(t.x7 as int, 0x20_0000) + 16 * Low(t.x8 as int, 16)
    ensures HighBytes(t)[10] as int == Cut(t.x8 as int, 0x10)
    ensures HighBytes(t)[11] as int == Cut(t.x8 as int, 0x1000)
  {
    hide Low8, Joined, Low;
    SmallPowers();
    JoinedVal(t.x7 as int / 0x20_0000, t.x8 as int, 16, 16);
  }

  lemma HighBytesB2(t: Ten)
    requires Canonical(t)
    ensures HighBytes(t)[12] as int == Top(t.x8 as int, 0x10_0000) + 64 * Low(t.x9 as int, 4)
    ensures HighBytes(t)[13] as int == Cut(t.x9 as int, 0x4)
    ensures HighBytes(t)[14] as int == Cut(t.x9 as int, 0x400)
    ensures HighBytes(t)[15] as int == Cut(t.x9 as int, 0x4_0000)
  {
    hide Low8, Joined, Low;
    SmallPowers();
    JoinedVal(t.x8 as int / 0x10_0000, t.x9 as int, 64, 4);
  }

  lemma HighVal(t: Ten)
    requires Canonical(t)
    ensures Half(HighBytes(t), 0) == t.x5 as int + 0x200_0000 * t.x6 as int + 0x8_0000_0000_0000 * t.x7 as int
                                     + 0x1000_0000_0000_0000_0000 * t.x8 as int
                                       + 0x40_0000_0000_0000_0000_0000_0000 * t.x9 as int
  {
    TopByte(t.x9 as int);
    assert Cut(t.x5 as int, 1) == Low(t.x5 as int, 0x100);
    hide HighBytes, Low, Cut, Top;
    HighBytesA1(t); HighBytesA2(t);
    HighBytesB1(t); HighBytesB2(t);
    Chop(t.x5 as int, 0x100); Chop(t.x6 as int, 0x80); Chop(t.x7 as int, 0x20); Chop(t.x8 as int, 0x10);
    Chop(t.x9 as int, 0x4);
  }

  /** The highest byte of a 26-bit limb is all that is left of it. */
  lemma TopByte(x: nat)
    requires x < 0x400_0000
    ensures Cut(x, 0x4_0000) == Top(x, 0x4_0000) && Top(x, 0x4_0000) < 0x100
  {
  }

  lemma BytesVal(t: Ten)
    requires Canonical(t)
    ensures LittleEndian(LowBytes(t) + HighBytes(t)) == t.Val()
  {
    hide LowBytes, HighBytes, LittleEndian, Half, Ten.Val;
    TwoHalves(LowBytes(t), HighBytes(t));
    LowVal(t);
    HighVal(t);
    t.ValIs();
  }

  lemma TwoHalves(low: seq<byte>, high: seq<byte>)
    requires |low| == |high| == 16
    ensures LittleEndian(low + high) == Half(low, 0) + 0x1_0000_0000_0000_0000_0000_0000_0000_0000 * Half(high, 0)
  {
    hide LittleEndian;
    var s := low + high;
    ByHalves(s);
    assert Half(s, 0) == Half(low, 0);
    assert Half(s, 16) == Half(high, 0);
  }

  /** The unique little-endian encoding of the value modulo P. */
  method FeToBytes(h: array<int32>) returns (s: seq<byte>)
    requires IsFe(h) && Bound(h, ENCODABLE)
    ensures |s| == 32 && LittleEndian(s) == Fm(h)
  {
    hide Ten.Val, Ten.Within, LowBytes, HighBytes;
    var hs := Load(h);
    var q := Quotient(hs);
    var t := Normalize(hs, q);
    s := LowBytes(t) + HighBytes(t);
    BytesVal(t);
    CongWitness(t.Val(), hs.Val(), -q as int);
    CongMod(hs.Val());
    ResidueUnique(t.Val(), Mod(hs.Val()));
  }

  /** 1 exactly when the residue is odd: s[0] & 1. */
  method FeIsNegative(f: array<int32>) returns (r: int32)
    requires IsFe(f) && Bound(f, ENCODABLE)
    ensures r as int == Fm(f) % 2
  {
    hide Ten.Within, Ten.Val, LittleEndian;
    var s := FeToBytes(f);
    Parity(s);
    r := (s[0] % 2) as int32;
  }

  lemma Parity(s: seq<byte>)
    requires s != []
    ensures LittleEndian(s) % 2 == s[0] as int % 2
  {
    assert LittleEndian(s) == s[0] as int + 2 * (128 * LittleEndian(s[1..]));
  }

  /** 1 exactly when the residue is not zero; the bytes are gathered with |. */
  method FeIsNonzero(f: array<int32>) returns (r: int32)
    requires IsFe(f) && Bound(f, ENCODABLE)
    ensures r == if Fm(f) == 0 then 0 else 1
  {
    var s := FeToBytes(f);
    var gathered: nat := s[0] as int;
    var i := 1;
    while i < 32
      invariant 1 <= i <= 32
      invariant gathered == 0 <==> forall j :: 0 <= j < i ==> s[j] == 0
    {
      gathered := BitOr(gathered, s[i] as int);
      i := i + 1;
    }
    ZeroBytes(s);
    r := if gathered != 0 then 1 else 0;
  }

  lemma {:induction false} ZeroBytes(s: seq<byte>)
    ensures LittleEndian(s) == 0 <==> forall j :: 0 <= j < |s| ==> s[j] == 0
  {
    if s != [] {
      ZeroBytes(s[1..]);
      assert forall j :: 0 <= j < |s| - 1 ==> s[1..][j] == s[j + 1];
      assert (forall j :: 0 <= j < |s| ==> s[j] == 0) ==> forall j :: 0 <= j < |s| - 1 ==> s[1..][j] == 0;
      if s[0] == 0 && (forall j :: 0 <= j < |s| - 1 ==> s[1..][j] == 0) {
        forall j | 0 <= j < |s| ensures s[j] == 0 {
          assert j > 0 ==> s[j] == s[1..][j - 1];
        }
      }
    }
  }
}
