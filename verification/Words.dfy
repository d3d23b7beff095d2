/** Fixed-width integers of the C sources. An operation on these types is accepted only when its
    exact result fits, so every arithmetic step below carries a proof that it cannot overflow. */
module Words {
  newtype int32 = x: int | -0x8000_0000 <= x < 0x8000_0000
  newtype int64 = x: int | -0x8000_0000_0000_0000 <= x < 0x8000_0000_0000_0000
  newtype uint32 = x: int | 0 <= x < 0x1_0000_0000
  newtype uint64 = x: int | 0 <= x < 0x1_0000_0000_0000_0000
  newtype int8 = x: int | -0x80 <= x < 0x80
  newtype byte = x: int | 0 <= x < 0x100

  const TWO64: int := 0x1_0000_0000_0000_0000
  /** 2^255, the weight of the sign bit of an encoded point. */
  const TOP: int := 0x8000_0000_0000_0000_0000_0000_0000_0000_0000_0000_0000_0000_0000_0000_0000_0000

  /** The number whose little-endian base-256 digits are `s`. */
  function LittleEndian(s: seq<byte>): (n: nat)
  {
    if s == [] then 0 else s[0] as int + 256 * LittleEndian(s[1..])
  }

  function Pow2(n: nat): (r: nat)
    ensures r > 0
  {
    if n == 0 then 1 else 2 * Pow2(n - 1)
  }

  lemma {:induction false} Pow2Adds(m: nat, n: nat)
    ensures Pow2(m + n) == Pow2(m) * Pow2(n)
  {
    if m != 0 {
      Pow2Adds(m - 1, n);
    }
  }

  /** C's bitwise `|` on non-negative integers. */
  function BitOr(x: nat, y: nat): (r: nat)
    ensures r == 0 <==> x == 0 && y == 0
    decreases x + y
  {
    if x == 0 && y == 0 then 0
    else (if x % 2 == 1 || y % 2 == 1 then 1 else 0) + 2 * BitOr(x / 2, y / 2)
  }

  /** C's bitwise `^` on non-negative integers. */
  function BitXor(x: nat, y: nat): (r: nat)
    ensures r == 0 <==> x == y
    decreases x + y
  {
    if x == 0 && y == 0 then 0
    else (if x % 2 != y % 2 then 1 else 0) + 2 * BitXor(x / 2, y / 2)
  }

  /** C's bitwise `&` on non-negative integers. */
  function BitAnd(x: nat, y: nat): (r: nat)
    ensures x == 0 || y == 0 ==> r == 0
    decreases x
  {
    if x == 0 || y == 0 then 0
    else (if x % 2 == 1 && y % 2 == 1 then 1 else 0) + 2 * BitAnd(x / 2, y / 2)
  }

  lemma {:induction false} BitAndOnes(x: nat, k: nat)
    requires x < Pow2(k)
    ensures BitAnd(x, Pow2(k) - 1) == x
  {
    if x != 0 {
      BitAndOnes(x / 2, k - 1);
      assert (Pow2(k) - 1) / 2 == Pow2(k - 1) - 1 && (Pow2(k) - 1) % 2 == 1;
    }
  }

  lemma {:induction false} BitXorTwice(x: nat, y: nat)
    ensures BitXor(x, BitXor(x, y)) == y
    decreases x + y
  {
    if x != 0 || y != 0 {
      BitXorTwice(x / 2, y / 2);
    }
  }

  lemma {:induction false} BitOrBelow(x: nat, y: nat, k: nat)
    requires x < Pow2(k) && y < Pow2(k)
    ensures BitOr(x, y) < Pow2(k)
  {
    if k != 0 {
      BitOrBelow(x / 2, y / 2, k - 1);
    }
  }

  lemma {:induction false} BitXorBelow(x: nat, y: nat, k: nat)
    requires x < Pow2(k) && y < Pow2(k)
    ensures BitXor(x, y) < Pow2(k)
  {
    if k != 0 {
      BitXorBelow(x / 2, y / 2, k - 1);
    }
  }

  lemma Pow2At32()
    ensures Pow2(32) == 0x1_0000_0000
  {
    assert Pow2(8) == 0x100;
    hide Pow2;
    Pow2Adds(8, 8);
    Pow2Adds(16, 16);
  }

  /** The 8-bit pattern of a number. */
  function ByteBits(n: nat): (b: bv8)
    requires n < 0x100
    ensures b as int == n
  {
    if n == 0 then 0 else
      NextBits(ByteBits(n - 1));
      ByteBits(n - 1) + 1
  }

  lemma NextBits(b: bv8)
    ensures b as int < 0xFF ==> (b + 1) as int == b as int + 1
  {
  }

  lemma {:induction false} BitOrZero(x: nat)
    ensures BitOr(x, 0) == x && BitOr(0, x) == x
  {
    if x != 0 {
      BitOrZero(x / 2);
    }
  }

  lemma HalfScale(k: nat, n: nat)
    requires k > 0
    ensures Pow2(k) * n == 2 * (Pow2(k - 1) * n) && 2 * Pow2(k - 1) == Pow2(k)
  {
  }

  lemma BitOrEven(x: nat, y: nat)
    ensures BitOr(x, 2 * y) == x % 2 + 2 * BitOr(x / 2, y)
  {
    var z := 2 * y;
    assert z % 2 == 0 && z / 2 == y;
    if x != 0 || y != 0 {
      assert BitOr(x, z) == (if x % 2 == 1 then 1 else 0) + 2 * BitOr(x / 2, y);
    }
  }

  /** When the operands share no bit position, `|` is addition. */
  lemma {:induction false} BitOrDisjoint(lo: nat, hi: nat, k: nat)
    requires lo < Pow2(k)
    ensures BitOr(lo, Pow2(k) * hi) == lo + Pow2(k) * hi
  {
    hide BitOr;
    if k == 0 {
      BitOrZero(hi);
    } else {
      HalfScale(k, hi);
      BitOrDisjoint(lo / 2, hi, k - 1);
      BitOrEven(lo, Pow2(k - 1) * hi);
    }
  }

  lemma {:induction false} BitXorZero(x: nat)
    ensures BitXor(x, 0) == x && BitXor(0, x) == x
  {
    if x != 0 {
      BitXorZero(x / 2);
    }
  }

  lemma BitXorEven(x: nat, y: nat)
    ensures BitXor(x, 2 * y) == x % 2 + 2 * BitXor(x / 2, y)
  {
    var z := 2 * y;
    assert z % 2 == 0 && z / 2 == y;
    if x != 0 || y != 0 {
      assert BitXor(x, z) == (if x % 2 == 1 then 1 else 0) + 2 * BitXor(x / 2, y);
    }
  }

  /** When the operands share no bit position, `^` is addition too. */
  lemma {:induction false} BitXorDisjoint(lo: nat, hi: nat, k: nat)
    requires lo < Pow2(k)
    ensures BitXor(lo, Pow2(k) * hi) == lo + Pow2(k) * hi
  {
    hide BitXor;
    if k == 0 {
      BitXorZero(hi);
    } else {
      HalfScale(k, hi);
      BitXorDisjoint(lo / 2, hi, k - 1);
      BitXorEven(lo, Pow2(k - 1) * hi);
    }
  }

  lemma LittleEndianStep(s: seq<byte>)
    requires |s| >= 4
    ensures LittleEndian(s) == s[0] as int + 0x100 * s[1] as int + 0x1_0000 * s[2] as int + 0x100_0000 * s[3] as int
                               + 0x1_0000_0000 * LittleEndian(s[4..])
  {
    assert s[1..][1..] == s[2..] && s[2..][1..] == s[3..] && s[3..][1..] == s[4..];
    assert LittleEndian(s) == s[0] as int + 256 * LittleEndian(s[1..]);
    assert LittleEndian(s[1..]) == s[1] as int + 256 * LittleEndian(s[2..]);
    assert LittleEndian(s[2..]) == s[2] as int + 256 * LittleEndian(s[3..]);
    assert LittleEndian(s[3..]) == s[3] as int + 256 * LittleEndian(s[4..]);
  }

  lemma {:induction false} LittleEndianAppend(s: seq<byte>, t: seq<byte>)
    ensures LittleEndian(s + t) == LittleEndian(s) + Pow2(8 * |s|) * LittleEndian(t)
  {
    if s == [] {
      assert s + t == t;
    } else {
      assert (s + t)[1..] == s[1..] + t;
      LittleEndianAppend(s[1..], t);
      Pow2Adds(8, 8 * |s| - 8);
      assert Pow2(8) == 256;
      ScaleByte(Pow2(8 * |s| - 8), LittleEndian(t));
    }
  }

  lemma ScaleByte(w: nat, n: nat)
    ensures 256 * (w * n) == (256 * w) * n
  {
  }

  /** Equal lengths and equal values force equal bytes. */
  lemma {:induction false} LittleEndianInjective(s: seq<byte>, t: seq<byte>)
    requires |s| == |t| && LittleEndian(s) == LittleEndian(t)
    ensures s == t
  {
    if s != [] {
      var m, n := LittleEndian(s[1..]), LittleEndian(t[1..]);
      assert s[0] as int + 256 * m == t[0] as int + 256 * n;
      LittleEndianInjective(s[1..], t[1..]);
      assert s == [s[0]] + s[1..] && t == [t[0]] + t[1..];
    }
  }

  lemma {:induction false} LittleEndianBound(s: seq<byte>)
    ensures LittleEndian(s) < Pow2(8 * |s|)
  {
    if s != [] {
      LittleEndianBound(s[1..]);
      Pow2Adds(8, 8 * |s| - 8);
      assert Pow2(8) == 256;
    }
  }

  /** The n low base-256 digits of x. */
  function Bytes(x: nat, n: nat): (s: seq<byte>)
    ensures |s| == n
  {
    if n == 0 then [] else [(x % 256) as byte] + Bytes(x / 256, n - 1)
  }

  lemma {:induction false} BytesLittleEndian(x: nat, n: nat)
    requires x < Pow2(8 * n)
    ensures LittleEndian(Bytes(x, n)) == x
  {
    if n != 0 {
      Pow2Adds(8, 8 * n - 8);
      assert Pow2(8) == 256;
      BytesLittleEndian(x / 256, n - 1);
      assert Bytes(x, n)[1..] == Bytes(x / 256, n - 1);
    }
  }

  /** The number with big-endian base-256 digits s. */
  function BigEndian(s: seq<byte>): (n: nat)
  {
    if s == [] then 0 else 256 * BigEndian(s[..|s| - 1]) + s[|s| - 1] as int
  }

  lemma BigEndianEmpty()
    ensures BigEndian([]) == 0
  {
  }

  lemma BigEndianLast(s: seq<byte>)
    requires s != []
    ensures BigEndian(s) == 256 * BigEndian(s[..|s| - 1]) + s[|s| - 1] as int
  {
  }

  lemma ShiftProduct(b: int, w: int, n: int)
    ensures 256 * (b * w + n) == b * (256 * w) + 256 * n
  {
  }

  lemma {:induction false} BigEndianCons(b: byte, s: seq<byte>)
    ensures BigEndian([b] + s) == b as int * Pow2(8 * |s|) + BigEndian(s)
  {
    if s == [] {
      assert [b] + s == [b] && [b][..0] == [];
    } else {
      var u, t := s[..|s| - 1], [b] + s;
      assert t[..|t| - 1] == [b] + u;
      BigEndianCons(b, u);
      assert Pow2(8) == 256;
      hide Pow2, BigEndian;
      BigEndianLast(s);
      BigEndianLast(t);
      Pow2Adds(8, 8 * |u|);
      ShiftProduct(b as int, Pow2(8 * |u|), BigEndian(u));
    }
  }

  /** The two byte orders. */
  lemma Reversed4(a: byte, b: byte, c: byte, d: byte)
    ensures BigEndian([d, c, b, a]) == LittleEndian([a, b, c, d])
  {
    LittleEndianStep([a, b, c, d]);
    assert LittleEndian([]) == 0;
    hide LittleEndian;
    BigEndianLast([d, c, b, a]);
    assert [d, c, b, a][..3] == [d, c, b];
    BigEndianLast([d, c, b]);
    assert [d, c, b][..2] == [d, c];
    BigEndianLast([d, c]);
    assert [d, c][..1] == [d];
    BigEndianLast([d]);
    assert [d][..0] == [];
    BigEndianEmpty();
  }

  lemma {:induction false} BigEndianInjective(s: seq<byte>, t: seq<byte>)
    requires |s| == |t| && BigEndian(s) == BigEndian(t)
    ensures s == t
  {
    if s != [] {
      var m, n := BigEndian(s[..|s| - 1]), BigEndian(t[..|t| - 1]);
      assert 256 * m + s[|s| - 1] as int == 256 * n + t[|t| - 1] as int;
      BigEndianInjective(s[..|s| - 1], t[..|t| - 1]);
      assert s == s[..|s| - 1] + [s[|s| - 1]] && t == t[..|t| - 1] + [t[|t| - 1]];
    }
  }

  lemma {:induction false} BigEndianBelow(s: seq<byte>)
    ensures BigEndian(s) < Pow2(8 * |s|)
  {
    if s != [] {
      BigEndianBelow(s[..|s| - 1]);
      Pow2Adds(8, 8 * |s| - 8);
      assert Pow2(8) == 256;
    }
  }

  lemma {:induction false} BigEndianAppend(s: seq<byte>, t: seq<byte>)
    ensures BigEndian(s + t) == BigEndian(s) * Pow2(8 * |t|) + BigEndian(t)
  {
    if t == [] {
      assert s + t == s;
    } else {
      var u, v := t[..|t| - 1], s + t;
      assert v[..|v| - 1] == s + u;
      BigEndianAppend(s, u);
      assert Pow2(8) == 256;
      hide Pow2, BigEndian;
      BigEndianLast(t);
      BigEndianLast(v);
      Pow2Adds(8, 8 * |u|);
      ShiftProduct(BigEndian(s), Pow2(8 * |u|), BigEndian(u));
    }
  }

  lemma {:induction false} BitOrComm(x: nat, y: nat)
    ensures BitOr(x, y) == BitOr(y, x)
    decreases x + y
  {
    if x != 0 || y != 0 {
      BitOrComm(x / 2, y / 2);
    }
  }
}
