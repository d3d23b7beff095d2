/** fe_frombytes: 32 little-endian bytes to limbs, the top bit ignored. */
module FeFromBytes {
  import opened Words
  import opened Field
  import opened Limbs
  import opened FeCarry

  function Load3(s: seq<byte>, i: nat): (r: int64)
    requires i + 3 <= |s|
    ensures r as int == s[i] as int + 0x100 * s[i + 1] as int + 0x1_0000 * s[i + 2] as int
  {
    assert Pow2(8) == 0x100 && Pow2(16) == 0x1_0000;
    BitOrDisjoint(s[i] as int, s[i + 1] as int, 8);
    var low := BitOr(s[i] as int, s[i + 1] as int * 0x100);
    BitOrDisjoint(low, s[i + 2] as int, 16);
    BitOr(low, s[i + 2] as int * 0x1_0000) as int64
  }

  lemma Pow2At24()
    ensures Pow2(24) == 0x100_0000
  {
    Pow2Adds(8, 16);
    assert Pow2(8) == 0x100 && Pow2(16) == 0x1_0000;
  }

  function Load4(s: seq<byte>, i: nat): (r: int64)
    requires i + 4 <= |s|
    ensures r as int == s[i] as int + 0x100 * s[i + 1] as int + 0x1_0000 * s[i + 2] as int
            + 0x100_0000 * s[i + 3] as int
  {
    Pow2At24();
    var low := Load3(s, i) as int;
    BitOrDisjoint(low, s[i + 3] as int, 24);
    BitOr(low, s[i + 3] as int * 0x100_0000) as int64
  }

  /** The value of sixteen bytes. */
  ghost function Half(s: seq<byte>, i: nat): nat
    requires i + 16 <= |s|
  {
    Four(s, i) + 0x1_0000_0000 * Four(s, i + 4) + 0x1_0000_0000_0000_0000 * Four(s, i + 8)
    + 0x1_0000_0000_0000_0000_0000_0000 * Four(s, i + 12)
  }

  ghost function Four(s: seq<byte>, i: nat): nat
    requires i + 4 <= |s|
  {
    s[i] as int + 0x100 * s[i + 1] as int + 0x1_0000 * s[i + 2] as int + 0x100_0000 * s[i + 3] as int
  }

  lemma FourStep(s: seq<byte>, i: nat)
    requires i + 4 <= |s|
    ensures LittleEndian(s[i..]) == Four(s, i) + 0x1_0000_0000 * LittleEndian(s[i + 4..])
  {
    assert s[i..][4..] == s[i + 4..];
    LittleEndianStep(s[i..]);
  }

  lemma HalfStep(s: seq<byte>, i: nat)
    requires i + 16 <= |s|
    ensures LittleEndian(s[i..]) == Half(s, i) + 0x1_0000_0000_0000_0000_0000_0000_0000_0000 * LittleEndian(s[i + 16..])
  {
    hide Four, LittleEndian;
    FourStep(s, i);
    FourStep(s, i + 4);
    FourStep(s, i + 8);
    FourStep(s, i + 12);
  }

  lemma ByHalves(s: seq<byte>)
    requires |s| == 32
    ensures LittleEndian(s) == Half(s, 0) + 0x1_0000_0000_0000_0000_0000_0000_0000_0000 * Half(s, 16)
  {
    hide Half;
    HalfStep(s, 0);
    HalfStep(s, 16);
    assert s[0..] == s && s[32..] == [];
  }

  lemma LoadsLow(s: seq<byte>)
    requires |s| == 32
    ensures ((Load4(s, 0)) as int) + 0x400_0000 * ((Load3(s, 4) * 64) as int)
            + 0x8_0000_0000_0000 * ((Load3(s, 7) * 32) as int)
            + 0x2000_0000_0000_0000_0000 * ((Load3(s, 10) * 8) as int)
            + 0x40_0000_0000_0000_0000_0000_0000 * ((Load3(s, 13) * 4) as int) == Half(s, 0)
  {
    hide Load3, Load4;
  }

  lemma LoadsHigh(s: seq<byte>)
    requires |s| == 32
    ensures ((Load4(s, 16)) as int) + 0x200_0000 * ((Load3(s, 20) * 128) as int)
            + 0x8_0000_0000_0000 * ((Load3(s, 23) * 32) as int)
            + 0x1000_0000_0000_0000_0000 * ((Load3(s, 26) * 16) as int)
            + 0x40_0000_0000_0000_0000_0000_0000 * (((Load3(s, 29) % 0x80_0000) * 4) as int)
            + 0x8000_0000_0000_0000_0000_0000_0000_0000 * (Load3(s, 29) as int / 0x80_0000) == Half(s, 16)
  {
    hide Load3, Load4;
  }

  /** The ten loads cover the low 255 bits exactly. */
  lemma LoadsVal(s: seq<byte>)
    requires |s| == 32
    ensures Radix((Load4(s, 0)) as int, (Load3(s, 4) * 64) as int, (Load3(s, 7) * 32) as int, (Load3(s, 10) * 8) as int,
                  (Load3(s, 13) * 4) as int, (Load4(s, 16)) as int, (Load3(s, 20) * 128) as int,
                  (Load3(s, 23) * 32) as int, (Load3(s, 26) * 16) as int, ((Load3(s, 29) % 0x80_0000) * 4) as int)
            == LittleEndian(s) % TOP
  {
    hide Load3, Load4, LittleEndian, Half;
    ByHalves(s);
    LoadsLow(s);
    LoadsHigh(s);
    var top := Load3(s, 29) as int / 0x80_0000;
    Truncate(LittleEndian(s), Radix((Load4(s, 0)) as int, (Load3(s, 4) * 64) as int, (Load3(s, 7) * 32) as int,
                                    (Load3(s, 10) * 8) as int, (Load3(s, 13) * 4) as int, (Load4(s, 16)) as int,
                                    (Load3(s, 20) * 128) as int, (Load3(s, 23) * 32) as int, (Load3(s, 26) * 16) as int,
                                    ((Load3(s, 29) % 0x80_0000) * 4) as int), top);
  }

  lemma Truncate(n: nat, low: int, top: int)
    requires n == low + TOP * top && 0 <= low < TOP
    ensures n % TOP == low
  {
  }

  /** h = the low 255 bits of s. */
  method FeFromBytes(h: array<int32>, s: seq<byte>)
    requires IsFe(h) && |s| == 32
    modifies h
    ensures Bound(h, TIGHT)
    ensures Fm(h) == Mod(LittleEndian(s) % TOP)
  {
    LoadsVal(s);
    var t := Spread(Load4(s, 0), Load3(s, 4) * 64, Load3(s, 7) * 32, Load3(s, 10) * 8, Load3(s, 13) * 4, Load4(s, 16),
                    Load3(s, 20) * 128, Load3(s, 23) * 32, Load3(s, 26) * 16, (Load3(s, 29) % 0x80_0000) * 4);
    Store(h, t);
  }

  /** The ten carries: odd limbs first, then even ones. */
  method Spread(a0: int64, a1: int64, a2: int64, a3: int64, a4: int64, a5: int64, a6: int64, a7: int64, a8: int64,
                a9: int64) returns (t: Ten)
    requires 0 <= a0 <= 0x1_0000_0000
    requires 0 <= a1 <= 0x4000_0000
    requires 0 <= a2 <= 0x2000_0000
    requires 0 <= a3 <= 0x800_0000
    requires 0 <= a4 <= 0x400_0000
    requires 0 <= a5 <= 0x1_0000_0000
    requires 0 <= a6 <= 0x8000_0000
    requires 0 <= a7 <= 0x2000_0000
    requires 0 <= a8 <= 0x1000_0000
    requires 0 <= a9 <= 0x200_0000
    ensures t.Within(TIGHT)
    ensures Cong(t.Val(), Radix(a0 as int, a1 as int, a2 as int, a3 as int, a4 as int, a5 as int, a6 as int, a7 as int,
                                a8 as int, a9 as int))
  {
    hide Cong, Ten.Val;
    var h0, h1, h2, h3, h4, h5, h6, h7, h8, h9 := a0, a1, a2, a3, a4, a5, a6, a7, a8, a9;
    var carry9: int64;
    h9, carry9 := Carry25(h9, 0, 0x200_0000);
    h0 := h0 + carry9 * 19;
    h1, h2 := Carry25(h1, h2, 0x4000_0000);
    h3, h4 := Carry25(h3, h4, 0x800_0000);
    h5, h6 := Carry25(h5, h6, 0x1_0000_0000);
    h7, h8 := Carry25(h7, h8, 0x2000_0000);
    h0, h1 := Carry26(h0, h1, 0x1_0000_0400);
    h2, h3 := Carry26(h2, h3, 0x2000_0400);
    h4, h5 := Carry26(h4, h5, 0x400_0400);
    h6, h7 := Carry26(h6, h7, 0x8000_0400);
    h8, h9 := Carry26(h8, h9, 0x1000_0400);
    t := Ten(h0 as int32, h1 as int32, h2 as int32, h3 as int32, h4 as int32, h5 as int32, h6 as int32, h7 as int32,
             h8 as int32, h9 as int32);
    assert Radix(h0 as int, h1 as int, h2 as int, h3 as int, h4 as int, h5 as int, h6 as int, h7 as int, h8 as int,
                 h9 as int)
           == Radix(a0 as int, a1 as int, a2 as int, a3 as int, a4 as int, a5 as int, a6 as int, a7 as int, a8 as int,
                    a9 as int) - P * carry9 as int;
    hide Radix, Ten.Within;
    t.ValIs();
    CongWitness(t.Val(), Radix(a0 as int, a1 as int, a2 as int, a3 as int, a4 as int, a5 as int, a6 as int, a7 as int,
                               a8 as int, a9 as int), -carry9 as int);
  }
}
