/** Carry propagation shared by fe_mul, fe_sq and fe_sq2. */
module FeCarry {
  import opened Words
  import opened Field
  import opened Limbs

  const WIDE: int64 := 0x4000_0000_0000_0000

  /** carry = (lo + 2^25) >> 26; hi += carry; lo -= carry << 26, the shift being a multiplication. */
  method Carry26(lo: int64, hi: int64, ghost b: int64) returns (lo': int64, hi': int64)
    requires 0 <= b <= WIDE && -b <= lo <= b && -WIDE <= hi <= WIDE
    ensures lo as int + 0x400_0000 * hi as int == lo' as int + 0x400_0000 * hi' as int
    ensures -0x200_0000 <= lo' < 0x200_0000
    ensures -(b / 0x400_0000) - 1 <= hi' - hi <= b / 0x400_0000 + 1
  {
    var carry := (lo + 0x200_0000) / 0x400_0000;
    hi', lo' := hi + carry, lo - carry * 0x400_0000;
  }

  /** carry = (lo + 2^24) >> 25; hi += times * carry; lo -= carry << 25. */
  method Carry25(lo: int64, hi: int64, ghost b: int64) returns (lo': int64, hi': int64)
    requires 0 <= b <= WIDE && -b <= lo <= b && -WIDE <= hi <= WIDE
    ensures lo as int + 0x200_0000 * hi as int == lo' as int + 0x200_0000 * hi' as int
    ensures -0x100_0000 <= lo' < 0x100_0000
    ensures -(b / 0x200_0000) - 1 <= hi' - hi <= b / 0x200_0000 + 1
  {
    var carry := (lo + 0x100_0000) / 0x200_0000;
    hi', lo' := hi + carry, lo - carry * 0x200_0000;
  }

  /** The twelve carries, in the order of the source. */
  method Reduce(a0: int64, a1: int64, a2: int64, a3: int64, a4: int64, a5: int64, a6: int64, a7: int64, a8: int64,
                a9: int64) returns (t: Ten)
    requires -0x3000_0000_0000_0000 <= a0 <= 0x3000_0000_0000_0000
    requires -0x3000_0000_0000_0000 <= a1 <= 0x3000_0000_0000_0000
    requires -0x3000_0000_0000_0000 <= a2 <= 0x3000_0000_0000_0000
    requires -0x3000_0000_0000_0000 <= a3 <= 0x3000_0000_0000_0000
    requires -0x3000_0000_0000_0000 <= a4 <= 0x3000_0000_0000_0000
    requires -0x3000_0000_0000_0000 <= a5 <= 0x3000_0000_0000_0000
    requires -0x3000_0000_0000_0000 <= a6 <= 0x3000_0000_0000_0000
    requires -0x3000_0000_0000_0000 <= a7 <= 0x3000_0000_0000_0000
    requires -0x3000_0000_0000_0000 <= a8 <= 0x3000_0000_0000_0000
    requires -0x3000_0000_0000_0000 <= a9 <= 0x3000_0000_0000_0000
    ensures t.Within(TIGHT)
    ensures Cong(t.Val(), Radix(a0 as int, a1 as int, a2 as int, a3 as int, a4 as int, a5 as int, a6 as int, a7 as int,
                                a8 as int, a9 as int))
  {
    hide Cong, Ten.Val;
    var h0, h1, h2, h3, h4, h5, h6, h7, h8, h9 := a0, a1, a2, a3, a4, a5, a6, a7, a8, a9;
    h0, h1 := Carry26(h0, h1, WIDE);
    h4, h5 := Carry26(h4, h5, WIDE);
    h1, h2 := Carry25(h1, h2, WIDE);
    h5, h6 := Carry25(h5, h6, WIDE);
    h2, h3 := Carry26(h2, h3, WIDE);
    h6, h7 := Carry26(h6, h7, WIDE);
    h3, h4 := Carry25(h3, h4, WIDE);
    h7, h8 := Carry25(h7, h8, WIDE);
    h4, h5 := Carry26(h4, h5, 0x400_0000_0000);
    h8, h9 := Carry26(h8, h9, WIDE);
    ghost var before := h9 as int;
    var carry9: int64;
    h9, carry9 := Carry25(h9, 0, WIDE);
    h0 := h0 + carry9 * 19;
    h0, h1 := Carry26(h0, h1, 0x4000_0000_0000);
    t := Ten(h0 as int32, h1 as int32, h2 as int32, h3 as int32, h4 as int32, h5 as int32, h6 as int32, h7 as int32,
             h8 as int32, h9 as int32);
    assert Radix(h0 as int, h1 as int, h2 as int, h3 as int, h4 as int, h5 as int, h6 as int, h7 as int, h8 as int,
                 h9 as int)
           == Radix(a0 as int, a1 as int, a2 as int, a3 as int, a4 as int, a5 as int, a6 as int, a7 as int, a8 as int,
                    a9 as int) - P * carry9 as int;
    hide Radix, Ten.Within;
    t.ValIs();
    CongWitness(t.Val(), Radix(a0 as int, a1 as int, a2 as int, a3 as int, a4 as int, a5 as int, a6 as int, a7 as int,
                               a8 as int, a9 as int), -carry9 as int);
  }
}
