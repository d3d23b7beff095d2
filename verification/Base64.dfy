/** Base64 without padding, as encoding.c computes it through a wrapping 32-bit accumulator. Section 4 of RFC 4648. */
module Base64 {
  import opened Words
  import opened Nonlinear

  // ---- the constant-time character maps ----

  /** EQ, GT and their derivatives: all ones in the low byte when true, on operands in 0..255. */
  function EQ(x: bv32, y: bv32): bv32 { (((0 - (x ^ y)) >> 8) & 0xFF) ^ 0xFF }
  function GT(x: bv32, y: bv32): bv32 { ((y - x) >> 8) & 0xFF }
  function GE(x: bv32, y: bv32): bv32 { GT(y, x) ^ 0xFF }
  function LT(x: bv32, y: bv32): bv32 { GT(y, x) }
  function LE(x: bv32, y: bv32): bv32 { GE(y, x) }

  /** b64_byte_to_char */
  function ByteToChar(x: bv32): (c: bv32)
    requires x < 64
    ensures c == if x < 26 then x + 65
                 else if x < 52 then x + 71
                 else if x < 62 then x - 4
                 else if x == 62 then 43 else 47
  {
    (LT(x, 26) & (x + 65)) | (GE(x, 26) & LT(x, 52) & (x + (97 - 26))) | (GE(x, 52) & LT(x, 62) & (x + (48 - 52)))
    | (EQ(x, 62) & 43) | (EQ(x, 63) & 47)
  }

  /** b64_char_to_byte, on a character promoted to int. In the domain of the macros it is 255 for anything that is not
      a Base64 character. A negative character is outside: both tests with EQ succeed, and the result is that of '/'. */
  function CharToByte(c: bv32): (x: bv32)
    ensures c < 256 ==>
              x == if 65 <= c <= 90 then c - 65 else if 97 <= c <= 122 then c - 71 else if 48 <= c <= 57 then c + 4
                   else if c == 43 then 62 else if c == 47 then 63 else 255
    ensures c >= 0xFFFF_FF80 ==> x == 63
  {
    var x := (GE(c, 65) & LE(c, 90) & (c - 65)) | (GE(c, 97) & LE(c, 122) & (c - (97 - 26)))
             | (GE(c, 48) & LE(c, 57) & (c - (48 - 52))) | (EQ(c, 43) & 62) | (EQ(c, 47) & 63);
    x | (EQ(x, 0) & (EQ(c, 65) ^ 0xFF))
  }

  /** The 64 characters: A-Z, a-z, 0-9, + and /. */
  function CharCode(x: nat): (c: char)
    requires x < 64
  {
    (if x < 26 then x + 65 else if x < 52 then x + 71 else if x < 62 then x - 4 else if x == 62 then 43 else 47) as char
  }

  /** The value that is read for a character where plain char is signed. */
  function CharValue(c: char): (x: nat)
    ensures x < 64 || x == 255
  {
    if c as int < 128 then CodeValue(c as int) else 63
  }

  /** The Base64 value of a character code, 255 for any other code. */
  function CodeValue(n: nat): (x: nat)
    ensures x < 64 || x == 255
  {
    if 65 <= n <= 90 then n - 65 else if 97 <= n <= 122 then n - 71 else if 48 <= n <= 57 then n + 4
    else if n == 43 then 62 else if n == 47 then 63 else 255
  }

  /** (char) b64_byte_to_char(v) */
  function PrintedChar(v: nat): char
    requires v < 64
  {
    BitsOrder(ByteBits(v));
    ((ByteToChar(ByteBits(v) as bv32) & 0xFF) as bv8 as int) as char
  }

  /** The promotion of a signed char to int. */
  function Promoted(b: bv8): bv32 { if b < 128 then b as bv32 else b as bv32 | 0xFFFF_FF00 }

  /** b64_char_to_byte of the signed char with the bits of n. */
  function ReadValue(n: nat): nat
    requires n < 0x100
  {
    ((CharToByte(Promoted(ByteBits(n))) & 0xFF) as bv8) as int
  }

  lemma BitsOrder(b: bv8)
    ensures b < 64 <==> b as int < 64
    ensures b < 128 <==> b as int < 128
  {
  }

  lemma PrintedByte(b: bv8)
    requires b < 64
    ensures ((ByteToChar(b as bv32) & 0xFF) as bv8) as int == CharCode(b as int) as int
  {
  }

  lemma ReadByte(b: bv8)
    ensures ((CharToByte(b as bv32) & 0xFF) as bv8) as int == CodeValue(b as int)
  {
  }

  lemma ReadPromoted(b: bv8)
    ensures b < 128 ==> CharToByte(Promoted(b)) == CharToByte(b as bv32)
    ensures b >= 128 ==> ((CharToByte(Promoted(b)) & 0xFF) as bv8) as int == 63
  {
  }

  /** The branch-free macros print the 64 characters. */
  lemma MacroPrints(v: nat)
    requires v < 64
    ensures PrintedChar(v) == CharCode(v)
  {
    hide ByteToChar, CharCode;
    BitsOrder(ByteBits(v));
    PrintedByte(ByteBits(v));
  }

  /** They read a signed char correctly exactly when its code is below 128; any other reads as '/'. */
  lemma MacroReads(n: nat)
    requires n < 0x100
    ensures ReadValue(n) == CharValue(n as char)
    ensures ReadValue(n) == CodeValue(n) <==> n < 128
  {
    HighCodes(n);
    hide CharToByte, CodeValue, Promoted, ByteBits;
    var b := ByteBits(n);
    BitsOrder(b);
    ReadByte(b);
    ReadPromoted(b);
  }

  /** An unsigned char is always read correctly. */
  lemma MacroReadsUnsigned(n: nat)
    requires n < 0x100
    ensures ((CharToByte(ByteBits(n) as bv32) & 0xFF) as bv8) as int == CodeValue(n)
  {
    hide CharToByte, CodeValue;
    ReadByte(ByteBits(n));
  }

  lemma HighCodes(n: nat)
    ensures n >= 128 ==> CodeValue(n) == 255
  {
  }

  /** The character that is read in place of c. */
  function Blur(c: char): char { if c as int < 128 then c else '/' }

  lemma CharsInverse(x: nat, c: char)
    ensures x < 64 ==> CharValue(CharCode(x)) == x && 0 < CharCode(x) as int < 128
    ensures CharValue(c) != 255 ==> CharCode(CharValue(c)) == Blur(c)
    ensures CharValue(Blur(c)) == CharValue(c)
  {
  }

  /** The alphabet of section 4 of RFC 4648: capital letters, small letters, digits, '+' and '/'. */
  lemma Alphabet(x: nat)
    requires x < 64
    ensures x < 26 ==> CharCode(x) as int == 'A' as int + x
    ensures 26 <= x < 52 ==> CharCode(x) as int == 'a' as int + (x - 26)
    ensures 52 <= x < 62 ==> CharCode(x) as int == '0' as int + (x - 52)
    ensures CharCode(62) == '+' && CharCode(63) == '/'
  {
  }

  // ---- the code on 6-bit values ----

  type Sextet = x: nat | x < 64

  datatype Option<+T> = None | Some(value: T)
  {
    predicate IsFailure() { None? }

    function PropagateFailure<U>(): Option<U>
      requires IsFailure()
    {
      None
    }

    function Extract(): T
      requires !IsFailure()
    {
      value
    }
  }

  // The four 6-bit values of a three-byte group; the last byte is 0 when a group is not full.

  function First(a: byte): Sextet { a as int / 4 }
  function Second(a: byte, b: byte): Sextet { (a as int % 4) * 16 + b as int / 16 }
  function Third(b: byte, c: byte): Sextet { (b as int % 16) * 4 + c as int / 64 }
  function Fourth(c: byte): Sextet { c as int % 64 }

  function Four(a: byte, b: byte, c: byte): (t: seq<Sextet>)
    ensures |t| == 4
  {
    [First(a), Second(a, b), Third(b, c), Fourth(c)]
  }

  /** Three bytes make four characters; one or two left over make two or three, filled up with zero bits. */
  function Encode(s: seq<byte>): (t: seq<Sextet>)
    ensures |t| == EncodedLength(|s|)
  {
    if s == [] then []
    else if |s| == 1 then [First(s[0]), Second(s[0], 0)]
    else if |s| == 2 then [First(s[0]), Second(s[0], s[1]), Third(s[1], 0)]
    else Four(s[0], s[1], s[2]) + Encode(s[3..])
  }

  /** The number with big-endian base-64 digits t. */
  function SextetNumber(t: seq<Sextet>): (n: nat)
  {
    if t == [] then 0 else 64 * SextetNumber(t[..|t| - 1]) + t[|t| - 1]
  }

  /** The bits that fill up the last character, as a factor. */
  function Padding(n: nat): (f: nat) { if n % 3 == 1 then 16 else if n % 3 == 2 then 4 else 1 }

  lemma {:induction false} SextetAppend(t: seq<Sextet>, u: seq<Sextet>)
    ensures SextetNumber(t + u) == SextetNumber(t) * Pow2(6 * |u|) + SextetNumber(u)
  {
    if u == [] {
      assert t + u == t;
    } else {
      var v := u[..|u| - 1];
      assert (t + u)[..|t + u| - 1] == t + v;
      SextetAppend(t, v);
      Pow2Adds(6, 6 * |v|);
      assert Pow2(6) == 64;
      hide Pow2;
      ScaledBy64(SextetNumber(t), Pow2(6 * |v|));
    }
  }

  lemma ScaledBy64(n: int, w: int)
    ensures 64 * (n * w) == n * (64 * w)
  {
  }

  lemma SextetDigits(u: Sextet, v: Sextet, w: Sextet, x: Sextet)
    ensures SextetNumber([u, v]) == 64 * u + v && SextetNumber([u, v, w]) == 64 * (64 * u + v) + w
    ensures SextetNumber([u, v, w, x]) == 64 * (64 * (64 * u + v) + w) + x
  {
    assert [u][..0] == [] && [u, v][..1] == [u] && [u, v, w][..2] == [u, v] && [u, v, w, x][..3] == [u, v, w];
    assert SextetNumber([u]) == u;
    assert SextetNumber([u, v]) == 64 * SextetNumber([u]) + v;
    assert SextetNumber([u, v, w]) == 64 * SextetNumber([u, v]) + w;
  }

  lemma ByteDigits(a: byte, b: byte, c: byte)
    ensures BigEndian([a]) == a as int && BigEndian([a, b]) == a as int * 256 + b as int
    ensures BigEndian([a, b, c]) == (a as int * 256 + b as int) * 256 + c as int
  {
    assert [a][..0] == [] && [a, b][..1] == [a] && [a, b, c][..2] == [a, b];
    assert BigEndian([a]) == a as int;
    assert BigEndian([a, b]) == 256 * BigEndian([a]) + b as int;
  }

  lemma Six(a: byte, b: byte, c: byte)
    ensures SextetNumber(Four(a, b, c)) == BigEndian([a, b, c])
    ensures SextetNumber([First(a), Second(a, 0)]) == BigEndian([a]) * 16
    ensures SextetNumber([First(a), Second(a, b), Third(b, 0)]) == BigEndian([a, b]) * 4
  {
    hide SextetNumber, BigEndian;
    SextetDigits(First(a), Second(a, b), Third(b, c), Fourth(c));
    SextetDigits(First(a), Second(a, b), Third(b, 0), 0);
    SextetDigits(First(a), Second(a, 0), 0, 0);
    ByteDigits(a, b, c);
  }

  lemma SameBits(r: nat)
    ensures 6 * EncodedLength(r) == 8 * r + (if r % 3 == 1 then 4 else if r % 3 == 2 then 2 else 0)
    ensures Pow2(6 * EncodedLength(r)) == Pow2(8 * r) * Padding(r)
    ensures Padding(r + 3) == Padding(r)
  {
    assert Pow2(4) == 16 && Pow2(2) == 4 && Pow2(0) == 1;
    hide Pow2;
    Pow2Adds(8 * r, 4);
    Pow2Adds(8 * r, 2);
    Pow2Adds(8 * r, 0);
  }

  lemma GroupScaled(x: int, w: int, f: int, r: int)
    ensures x * (w * f) + r * f == (x * w + r) * f
  {
  }

  /** The characters spell the same number as the bytes, filled up with zero bits. */
  lemma {:induction false} EncodeMeaning(s: seq<byte>)
    ensures SextetNumber(Encode(s)) == BigEndian(s) * Padding(|s|)
  {
    if |s| == 1 {
      Six(s[0], 0, 0);
      assert s == [s[0]];
    } else if |s| == 2 {
      Six(s[0], s[1], 0);
      assert s == [s[0], s[1]];
    } else if |s| >= 3 {
      var g, r := [s[0], s[1], s[2]], s[3..];
      assert s == g + r;
      EncodeMeaning(r);
      EncodeStep(s);
      hide Encode, Pow2, BigEndian, SextetNumber, Padding, EncodedLength;
      Six(s[0], s[1], s[2]);
      SextetAppend(Four(s[0], s[1], s[2]), Encode(r));
      BigEndianAppend(g, r);
      SameBits(|r|);
      GroupScaled(BigEndian(g), Pow2(8 * |r|), Padding(|r|), BigEndian(r));
    }
  }

  /** olen of to_base64 and b64len. */
  function EncodedLength(n: nat): nat
  {
    n / 3 * 4 + (if n % 3 == 2 then 3 else if n % 3 == 1 then 2 else 0)
  }

  /** One character left over, or fill bits that are not zero, are an error. */
  function Decode(t: seq<Sextet>): Option<seq<byte>>
  {
    if t == [] then Some([])
    else if |t| == 1 then None
    else if |t| == 2 then if t[1] % 16 == 0 then Some([ByteA(t[0], t[1])]) else None
    else if |t| == 3 then
      if t[2] % 4 == 0 then Some([ByteA(t[0], t[1]), ByteB(t[1], t[2])]) else None
    else
      match Decode(t[4..])
      case None => None
      case Some(rest) => Some(Group(t[0], t[1], t[2], t[3]) + rest)
  }

  // The three bytes of four 6-bit values.

  function ByteA(a: Sextet, b: Sextet): byte { (a as int * 4 + b as int / 16) as byte }
  function ByteB(b: Sextet, c: Sextet): byte { (b as int % 16 * 16 + c as int / 4) as byte }
  function ByteC(c: Sextet, d: Sextet): byte { (c as int % 4 * 64 + d as int) as byte }

  function Group(a: Sextet, b: Sextet, c: Sextet, d: Sextet): (s: seq<byte>)
    ensures |s| == 3
  {
    [ByteA(a, b), ByteB(b, c), ByteC(c, d)]
  }

  /** Two digits put together and taken apart again. */
  lemma TwoDigits(u: int, v: int, n: int)
    requires 0 <= v < n
    ensures (u * n + v) % n == v && (u * n + v) / n == u
  {
    DivUnique(u * n + v, n, u, v);
  }

  lemma ByteAInverse(a: byte, b: byte)
    ensures ByteA(First(a), Second(a, b)) == a && Second(a, 0) % 16 == 0
  {
    TwoDigits(a as int % 4, b as int / 16, 16);
  }

  lemma ByteBInverse(a: byte, b: byte, c: byte)
    ensures ByteB(Second(a, b), Third(b, c)) == b && Third(b, 0) % 4 == 0
  {
    TwoDigits(a as int % 4, b as int / 16, 16);
    TwoDigits(b as int % 16, c as int / 64, 4);
    assert Second(a, b) % 16 == b as int / 16 && Third(b, c) / 4 == b as int % 16;
    assert Third(b, 0) % 4 == 0 by { TwoDigits(b as int % 16, 0, 4); }
    hide Second, Third;
    assert b as int == b as int / 16 * 16 + b as int % 16;
  }

  lemma ByteCInverse(b: byte, c: byte)
    ensures ByteC(Third(b, c), Fourth(c)) == c
  {
    TwoDigits(b as int % 16, c as int / 64, 4);
  }

  lemma GroupInverse(a: byte, b: byte, c: byte)
    ensures Group(First(a), Second(a, b), Third(b, c), Fourth(c)) == [a, b, c]
    ensures Second(a, 0) % 16 == 0 && Third(b, 0) % 4 == 0
  {
    hide First, Second, Third, Fourth, ByteA, ByteB, ByteC;
    ByteAInverse(a, b);
    ByteBInverse(a, b, c);
    ByteCInverse(b, c);
  }

  lemma {:induction false} DecodeEncode(s: seq<byte>)
    ensures Decode(Encode(s)) == Some(s)
  {
    hide First, Second, Third, Fourth, ByteA, ByteB, ByteC;
    if |s| >= 3 {
      DecodeEncode(s[3..]);
      var t := Encode(s);
      assert t[4..] == Encode(s[3..]);
      GroupInverse(s[0], s[1], s[2]);
      assert s == [s[0], s[1], s[2]] + s[3..];
    } else if |s| == 2 {
      GroupInverse(s[0], s[1], 0);
      assert s == [s[0], s[1]];
    } else if |s| == 1 {
      GroupInverse(s[0], 0, 0);
      assert s == [s[0]];
    }
  }

  lemma SextetsInverse(a: Sextet, b: Sextet, c: Sextet, d: Sextet)
    ensures First(ByteA(a, b)) == a && Second(ByteA(a, b), ByteB(b, c)) == b
    ensures Third(ByteB(b, c), ByteC(c, d)) == c && Fourth(ByteC(c, d)) == d
    ensures b % 16 == 0 ==> Second(ByteA(a, b), 0) == b
    ensures c % 4 == 0 ==> Third(ByteB(b, c), 0) == c
  {
  }

  /** Any accepted text is the encoding of what it decodes to. */
  lemma {:induction false} EncodeDecode(t: seq<Sextet>)
    requires Decode(t).Some?
    ensures Encode(Decode(t).value) == t
  {
    hide First, Second, Third, Fourth, ByteA, ByteB, ByteC;
    if |t| >= 4 {
      EncodeDecode(t[4..]);
      SextetsInverse(t[0], t[1], t[2], t[3]);
      var s, rest := Decode(t).value, Decode(t[4..]).value;
      assert s[3..] == rest;
      assert t == [t[0], t[1], t[2], t[3]] + t[4..];
    } else if |t| == 3 {
      SextetsInverse(t[0], t[1], t[2], 0);
    } else if |t| == 2 {
      SextetsInverse(t[0], t[1], 0, 0);
    }
  }

  lemma {:induction false} DecodedLength(t: seq<Sextet>)
    requires Decode(t).Some?
    ensures |Decode(t).value| == |t| * 6 / 8
  {
    if |t| >= 4 {
      DecodedLength(t[4..]);
    }
  }

  // ---- to_base64 ----

  /** 2^k for the accumulator lengths that occur. */
  function Power(k: nat): (p: nat)
    requires k <= 12
    ensures p > 0
  {
    [1, 2, 4, 8, 16, 32, 64, 128, 256, 512, 1024, 2048, 4096][k]
  }

  /** The accumulator after a shift that wraps: its low bits are as if it had not. */
  lemma ShiftedIn(acc: int, b: int) returns (lo: int)
    requires 0 <= acc < 0x1_0000_0000 && 0 <= b < 256
    ensures 0 <= lo && (acc * 256 + b) % 0x1_0000_0000 == lo * 256 + b && lo % 4 == acc % 4 && lo % 16 == acc % 16
  {
    lo := acc % 0x100_0000;
    assert acc == 0x100_0000 * (acc / 0x100_0000) + lo;
    assert acc * 256 + b == 0x1_0000_0000 * (acc / 0x100_0000) + (lo * 256 + b);
  }

  lemma Taken4(lo: int, b: int)
    requires 0 <= lo && 0 <= b < 256
    ensures (lo * 256 + b) / 4 % 64 == b / 4 && (lo * 256 + b) % 4 == b % 4
  {
    assert (lo * 256 + b) / 4 == lo * 64 + b / 4;
  }

  lemma Taken16(lo: int, b: int)
    requires 0 <= lo && 0 <= b < 256
    ensures (lo * 256 + b) / 16 % 64 == lo % 4 * 16 + b / 16 && (lo * 256 + b) % 16 == b % 16
  {
    assert (lo * 256 + b) / 16 == lo * 16 + b / 16;
    assert lo == 4 * (lo / 4) + lo % 4;
  }

  lemma Taken64(lo: int, b: int)
    requires 0 <= lo && 0 <= b < 256
    ensures (lo * 256 + b) / 64 % 64 == lo % 16 * 4 + b / 64 && (lo * 256 + b) % 64 == b % 64
  {
    assert (lo * 256 + b) / 64 == lo * 4 + b / 64;
    assert lo == 16 * (lo / 16) + lo % 16;
  }

  /** The values that one more byte releases from an accumulator of 0, 2 or 4 bits. */
  function Released(acc: int, accLen: nat, b: byte): (t: seq<int>)
  {
    if accLen == 0 then [b as int / 4]
    else if accLen == 2 then [acc % 4 * 16 + b as int / 16]
    else [acc % 16 * 4 + b as int / 64, b as int % 64]
  }

  /** They are the top bits of the accumulator, six at a time. */
  lemma ReleasedBits(acc0: int, accLen0: nat, b: byte)
    requires 0 <= acc0 < 0x1_0000_0000 && (accLen0 == 0 || accLen0 == 2 || accLen0 == 4)
    ensures var acc := (acc0 * 256 + b as int) % 0x1_0000_0000;
            && (forall k :: 0 <= k < |Released(acc0, accLen0, b)| ==>
                  Released(acc0, accLen0, b)[k] == acc / Power(accLen0 + 2 - 6 * k) % 64)
            && (accLen0 == 0 ==> acc % 4 == b as int % 4)
            && (accLen0 == 2 ==> acc % 16 == b as int % 16)
  {
    var lo := ShiftedIn(acc0, b as int);
    Taken4(lo, b as int);
    Taken16(lo, b as int);
    Taken64(lo, b as int);
  }

  /** The characters c stand for the values t. */
  ghost predicate AreChars(c: seq<char>, t: seq<int>)
  {
    |c| == |t| && forall k :: 0 <= k < |t| ==> 0 <= t[k] < 64 && c[k] == CharCode(t[k])
  }

  lemma CharsMore(c: seq<char>, t: seq<int>, v: nat)
    requires AreChars(c, t) && v < 64
    ensures AreChars(c + [CharCode(v)], t + [v])
  {
  }

  lemma CharsJoin(c: seq<char>, t: seq<int>, d: seq<char>, u: seq<int>)
    requires AreChars(c, t) && AreChars(d, u)
    ensures AreChars(c + d, t + u)
  {
  }

  /** *dst++ = (char) b64_byte_to_char(v) */
  method WriteChar(dst: array<char>, at: nat, v: nat)
    requires at < dst.Length && v < 64
    modifies dst
    ensures dst[..at] == old(dst[..at]) && dst[at] == CharCode(v)
  {
    hide CharCode, PrintedChar;
    MacroPrints(v);
    dst[at] := PrintedChar(v);
  }

  /** acc = (acc << 8) + *buf++ in 32 bits, and the inner loop that writes while six bits are there. */
  method PushByte(dst: array<char>, at: nat, acc0: nat, accLen0: nat, b: byte)
    returns (acc: nat, accLen: nat, next: nat)
    requires acc0 < 0x1_0000_0000 && (accLen0 == 0 || accLen0 == 2 || accLen0 == 4)
    requires at + |Released(acc0, accLen0, b)| <= dst.Length
    modifies dst
    ensures acc < 0x1_0000_0000 && next == at + |Released(acc0, accLen0, b)|
    ensures accLen == (if accLen0 == 4 then 0 else accLen0 + 2)
    ensures accLen == 2 ==> acc % 4 == b as int % 4
    ensures accLen == 4 ==> acc % 16 == b as int % 16
    ensures dst[..at] == old(dst[..at]) && AreChars(dst[at..next], Released(acc0, accLen0, b))
  {
    ghost var t := Released(acc0, accLen0, b);
    assert |t| == if accLen0 == 4 then 2 else 1;
    ReleasedBits(acc0, accLen0, b);
    NoChars(dst[at..at]);
    hide CharCode, Released, Power, AreChars;
    acc := (acc0 * 256 + b as int) % 0x1_0000_0000;
    accLen := accLen0 + 8;
    next := at;
    assert t[..0] == [];
    while accLen >= 6
      invariant at <= next <= at + |t| && accLen + 6 * (next - at) == accLen0 + 8
      invariant dst[..at] == old(dst[..at]) && AreChars(dst[at..next], t[..next - at])
    {
      accLen := accLen - 6;
      ghost var k, before := next - at, dst[..next];
      var v := acc / Power(accLen) % 64;
      assert t[..k + 1] == t[..k] + [v];
      WriteChar(dst, next, v);
      CharsMore(before[at..], t[..k], v);
      assert dst[at..next + 1] == before[at..] + [CharCode(v)] && dst[..at] == before[..at];
      next := next + 1;
    }
    assert t[..|t|] == t;
  }

  /** The loop of to_base64 on values: what is written, and the waiting bits with their number 0, 2 or 4. */
  datatype Writer = Writer(out: seq<int>, acc: int, len: nat)
  {
    ghost predicate Valid() { (len == 0 && acc == 0) || (len == 2 && 0 <= acc < 4) || (len == 4 && 0 <= acc < 16) }
  }

  function Push(w: Writer, b: byte): Writer
  {
    Writer(w.out + Released(w.acc, w.len, b),
           if w.len == 0 then b as int % 4 else if w.len == 2 then b as int % 16 else 0,
           if w.len == 4 then 0 else w.len + 2)
  }

  ghost function PushAll(w: Writer, s: seq<byte>): Writer
    decreases |s|
  {
    if s == [] then w else PushAll(Push(w, s[0]), s[1..])
  }

  /** The last character, filled up with zero bits. */
  function Finish(w: Writer): seq<int>
  {
    if w.len == 0 then w.out else if w.len == 2 then w.out + [w.acc * 16] else w.out + [w.acc * 4]
  }

  lemma ReleasedGroup(a: byte, b: byte, c: byte)
    ensures Released(0, 0, a) == [First(a)]
    ensures Released(a as int % 4, 2, b) == [Second(a, b)]
    ensures Released(b as int % 16, 4, c) == [Third(b, c), Fourth(c)]
  {
    assert a as int % 4 % 4 == a as int % 4 && b as int % 16 % 16 == b as int % 16;
  }

  lemma PushGroup(out: seq<int>, a: byte, b: byte, c: byte)
    ensures Push(Writer(out, 0, 0), a) == Writer(out + [First(a)], a as int % 4, 2)
    ensures Push(Writer(out + [First(a)], a as int % 4, 2), b)
            == Writer(out + [First(a), Second(a, b)], b as int % 16, 4)
    ensures Push(Writer(out + [First(a), Second(a, b)], b as int % 16, 4), c) == Writer(out + Four(a, b, c), 0, 0)
  {
    hide Released, First, Second, Third, Fourth;
    ReleasedGroup(a, b, c);
    Associative(out, [First(a)], [Second(a, b)]);
    Associative(out, [First(a), Second(a, b)], [Third(b, c), Fourth(c)]);
  }

  lemma PushAllStep(w: Writer, s: seq<byte>)
    ensures PushAll(w, []) == w
    ensures s != [] ==> PushAll(w, s) == PushAll(Push(w, s[0]), s[1..])
  {
  }

  lemma PushAllShort(w: Writer, a: byte, b: byte)
    ensures PushAll(w, [a]) == Push(w, a) && PushAll(w, [a, b]) == Push(Push(w, a), b)
  {
    hide Push, PushAll;
    PushAllStep(w, [a, b]);
    PushAllStep(w, [a]);
    PushAllStep(Push(w, a), [b]);
    PushAllStep(Push(Push(w, a), b), []);
    assert [a][1..] == [] && [a, b][1..] == [b] && [b][1..] == [];
  }

  lemma PushAllLong(w: Writer, s: seq<byte>)
    requires |s| >= 3
    ensures PushAll(w, s) == PushAll(Push(Push(Push(w, s[0]), s[1]), s[2]), s[3..])
  {
    hide Push, PushAll;
    PushAllStep(w, s);
    PushAllStep(Push(w, s[0]), s[1..]);
    PushAllStep(Push(Push(w, s[0]), s[1]), s[2..]);
    assert s[1..][1..] == s[2..] && s[2..][1..] == s[3..];
  }

  lemma WriterTail(out: seq<int>, a: byte, b: byte)
    ensures Finish(PushAll(Writer(out, 0, 0), [a])) == out + Encode([a])
    ensures Finish(PushAll(Writer(out, 0, 0), [a, b])) == out + Encode([a, b])
  {
    hide Push, PushAll, First, Second, Encode;
    PushGroup(out, a, b, 0);
    EncodeTail(a, b);
    PushAllShort(Writer(out, 0, 0), a, b);
    Associative(out, [First(a)], [a as int % 4 * 16]);
    Associative(out, [First(a), Second(a, b)], [b as int % 16 * 4]);
  }

  /** The loop computes the encoding by groups. */
  lemma {:induction false} WriterEncodes(out: seq<int>, s: seq<byte>)
    ensures Finish(PushAll(Writer(out, 0, 0), s)) == out + Encode(s)
    decreases |s|
  {
    hide Push, PushAll, First, Second, Four, EncodedLength, Finish, Encode;
    if |s| >= 3 {
      PushGroup(out, s[0], s[1], s[2]);
      PushAllLong(Writer(out, 0, 0), s);
      WriterEncodes(out + Four(s[0], s[1], s[2]), s[3..]);
      EncodeStep(s);
      Associative(out, Four(s[0], s[1], s[2]), Encode(s[3..]));
    } else if |s| == 2 {
      assert s == [s[0], s[1]];
      WriterTail(out, s[0], s[1]);
    } else if |s| == 1 {
      assert s == [s[0]];
      WriterTail(out, s[0], 0);
    } else {
      WriterNothing(out);
    }
  }

  lemma WriterNothing(out: seq<int>)
    ensures Finish(PushAll(Writer(out, 0, 0), [])) == out + Encode([])
  {
    assert out + Encode([]) == out;
  }

  lemma EncodeStep(s: seq<byte>)
    requires |s| >= 3
    ensures Encode(s) == Four(s[0], s[1], s[2]) + Encode(s[3..])
  {
  }

  lemma Associative<T>(a: seq<T>, b: seq<T>, c: seq<T>)
    ensures a + (b + c) == (a + b) + c
  {
  }

  lemma EncodeTail(a: byte, b: byte)
    ensures Encode([a]) == [First(a)] + [a as int % 4 * 16]
    ensures Encode([a, b]) == [First(a), Second(a, b)] + [b as int % 16 * 4]
  {
  }

  /** Only the waiting bits of the accumulator matter. */
  lemma ReleasedLow(acc: int, w: int, accLen: nat, b: byte)
    requires (accLen == 0 || accLen == 2 || accLen == 4) && acc % Power(accLen) == w
    ensures Released(acc, accLen, b) == Released(w, accLen, b)
  {
  }

  /** to_base64: -1 exactly when the result and its terminating zero do not fit; otherwise the length. */
  method ToBase64(dst: array<char>, start: nat, dstLen: nat, src: seq<byte>) returns (n: int)
    requires start + dstLen <= dst.Length
    modifies dst
    ensures n == if dstLen <= EncodedLength(|src|) then -1 else EncodedLength(|src|)
    ensures dst[..start] == old(dst[..start]) && (n == -1 ==> dst[..] == old(dst[..]))
    ensures n >= 0 ==> AreChars(dst[start..start + n], Encode(src)) && dst[start + n] == '\0'
  {
    hide Encode, EncodedLength, PushAll, Finish, AreChars;
    var olen := EncodedLength(|src|);
    if dstLen <= olen {
      return -1;
    }
    WriterEncodes([], src);
    assert [] + Encode(src) == Encode(src);
    EncodedCount(src);
    LengthBound(|src|);
    var acc, accLen, at := WriteAll(dst, start, src);
    ghost var w := PushAll(Writer([], 0, 0), src);
    LastCount(w, |src|);
    at := WriteLast(dst, start, at, acc, accLen, w);
    CharsFrame(dst[start..at], Encode(src));
    ghost var before := dst[start..at];
    dst[at] := '\0';
    assert dst[start..at] == before;
    return olen;
  }

  /** The bits left over. */
  method WriteLast(dst: array<char>, start: nat, at: nat, acc: nat, accLen: nat, ghost w: Writer) returns (end: nat)
    requires start <= at && at + (if accLen == 0 then 0 else 1) <= dst.Length
    requires w.Valid() && accLen == w.len && acc % Power(accLen) == w.acc && AreChars(dst[start..at], w.out)
    modifies dst
    ensures end == at + (if accLen == 0 then 0 else 1) && dst[..start] == old(dst[..start])
    ensures AreChars(dst[start..end], Finish(w))
  {
    hide CharCode, Power;
    PowerValues();
    end := at;
    if accLen > 0 {
      LastBits(acc, accLen);
      ghost var before := dst[start..at];
      WriteChar(dst, at, acc * Power(6 - accLen) % 0x1_0000_0000 % 64);
      end := at + 1;
      assert dst[start..at] == before;
    }
  }

  lemma CharsFrame(c: seq<char>, t: seq<int>)
    requires AreChars(c, t)
    ensures |c| == |t|
  {
  }

  lemma LastCount(w: Writer, n: nat)
    requires w.Valid() && 6 * |w.out| + w.len == 8 * n
    ensures |w.out| + (if w.len == 0 then 0 else 1) == EncodedLength(n) && |Finish(w)| == EncodedLength(n)
  {
  }

  /** The loop over the source bytes. */
  method WriteAll(dst: array<char>, start: nat, src: seq<byte>) returns (acc: nat, accLen: nat, at: nat)
    requires start + EncodedLength(|src|) < dst.Length
    modifies dst
    ensures var w := PushAll(Writer([], 0, 0), src);
            && w.Valid() && accLen == w.len && acc % Power(accLen) == w.acc && at == start + |w.out|
            && 6 * |w.out| + w.len == 8 * |src| && AreChars(dst[start..at], w.out)
    ensures at <= dst.Length && dst[..start] == old(dst[..start])
  {
    hide Power, Push, PushAll, EncodedLength, AreChars;
    acc, accLen, at := 0, 0, start;
    ghost var w := Writer([], 0, 0);
    PowerValues();
    NoChars(dst[start..start]);
    LengthBound(|src|);
    assert src[0..] == src;
    var i := 0;
    while i < |src|
      invariant 0 <= i <= |src| && acc < 0x1_0000_0000
      invariant w.Valid() && accLen == w.len && acc % Power(accLen) == w.acc && at == start + |w.out|
      invariant 6 * |w.out| + w.len == 8 * i
      invariant PushAll(w, src[i..]) == PushAll(Writer([], 0, 0), src)
      invariant dst[..start] == old(dst[..start])
      invariant AreChars(dst[start..at], w.out)
    {
      PushCounts(w, src[i]);
      PushAllStep(w, src[i..]);
      assert src[i..][1..] == src[i + 1..];
      acc, accLen, at := PushChars(dst, start, at, acc, accLen, src[i], w);
      w := Push(w, src[i]);
      i := i + 1;
    }
    assert src[i..] == [];
    PushAllStep(w, []);
  }

  lemma NoChars(c: seq<char>)
    requires c == []
    ensures AreChars(c, [])
  {
  }

  lemma PushCounts(w: Writer, b: byte)
    requires w.Valid()
    ensures Push(w, b).Valid() && Push(w, b).out == w.out + Released(w.acc, w.len, b)
    ensures 6 * |Push(w, b).out| + Push(w, b).len == 6 * |w.out| + w.len + 8
    ensures Push(w, b).acc == (if w.len == 0 then b as int % 4 else if w.len == 2 then b as int % 16 else 0)
    ensures Push(w, b).len == (if w.len == 4 then 0 else w.len + 2)
  {
  }

  lemma LengthBound(n: nat)
    ensures 3 * EncodedLength(n) >= 4 * n
  {
  }

  lemma EncodedCount(s: seq<byte>)
    ensures |Encode(s)| == EncodedLength(|s|)
  {
  }

  lemma PowerValues()
    ensures Power(0) == 1 && Power(2) == 4 && Power(4) == 16
  {
  }

  /** PushByte, behind the characters already written from start on. */
  method PushChars(dst: array<char>, start: nat, at: nat, acc0: nat, accLen0: nat, b: byte, ghost w: Writer)
    returns (acc: nat, accLen: nat, next: nat)
    requires acc0 < 0x1_0000_0000 && w.Valid() && accLen0 == w.len && acc0 % Power(accLen0) == w.acc
    requires at == start + |w.out| && start + |Push(w, b).out| <= dst.Length && AreChars(dst[start..at], w.out)
    modifies dst
    ensures acc < 0x1_0000_0000 && next == start + |Push(w, b).out|
    ensures accLen == Push(w, b).len && acc % Power(accLen) == Push(w, b).acc
    ensures dst[..start] == old(dst[..start])
    ensures AreChars(dst[start..next], Push(w, b).out)
  {
    ReleasedLow(acc0, w.acc, accLen0, b);
    PowerValues();
    PushCounts(w, b);
    hide Released, CharCode, Push, Power;
    hide AreChars, Writer.Valid;
    ghost var before := dst[..at];
    assert before[start..] == dst[start..at];
    acc, accLen, next := PushByte(dst, at, acc0, accLen0, b);
    assert dst[..start] == before[..start] && dst[start..next] == before[start..] + dst[at..next];
    CharsJoin(before[start..], w.out, dst[at..next], Released(acc0, accLen0, b));
  }

  lemma LastBits(acc: nat, accLen: nat)
    requires accLen == 2 || accLen == 4
    ensures acc * Power(6 - accLen) % 0x1_0000_0000 % 64 == acc % Power(accLen) * Power(6 - accLen)
  {
    var d := Power(6 - accLen);
    var e, n := 64 / d, 0x1_0000_0000 / d;
    var lo := acc % n;
    assert acc == n * (acc / n) + lo;
    DivUnique(acc * d, 0x1_0000_0000, acc / n, lo * d);
    DivUnique(lo * d, 64, lo / e, lo % e * d);
    DivUnique(acc, e, n / e * (acc / n) + lo / e, lo % e);
  }

  // ---- from_base64 ----

  /** The loop of from_base64 on values: the bytes written, and the waiting bits with their number 0, 6, 4 or 2. */
  datatype Reader = Reader(out: seq<byte>, acc: int, len: nat)
  {
    ghost predicate Valid()
    {
      (len == 0 && acc == 0) || (len == 6 && 0 <= acc < 64) || (len == 4 && 0 <= acc < 16) || (len == 2 && 0 <= acc < 4)
    }
  }

  /** The byte that a 6-bit value completes. */
  function Completed(acc: int, len: nat, d: Sextet): int
  {
    if len == 6 then acc % 64 * 4 + d as int / 16
    else if len == 4 then acc % 16 * 16 + d as int / 4
    else acc % 4 * 64 + d as int
  }

  function Take(r: Reader, d: Sextet): Reader
    requires r.Valid()
  {
    if r.len == 0 then Reader(r.out, d, 6)
    else
      Reader(r.out + [Completed(r.acc, r.len, d) as byte],
             if r.len == 6 then d as int % 16 else if r.len == 4 then d as int % 4 else 0,
             r.len - 2)
  }

  ghost function TakeAll(r: Reader, t: seq<Sextet>): (q: Reader)
    requires r.Valid()
    ensures q.Valid()
    decreases |t|
  {
    if t == [] then r else TakeAll(Take(r, t[0]), t[1..])
  }

  /** The test after the loop: at most four bits waiting, all of them zero. */
  function Close(r: Reader): Option<seq<byte>>
  {
    if r.len > 4 || r.acc != 0 then None else Some(r.out)
  }

  ghost function Prefixed(out: seq<byte>, o: Option<seq<byte>>): Option<seq<byte>>
  {
    match o
    case None => None
    case Some(s) => Some(out + s)
  }

  lemma TakeAllStep(r: Reader, t: seq<Sextet>)
    requires r.Valid()
    ensures TakeAll(r, []) == r
    ensures t != [] ==> TakeAll(r, t) == TakeAll(Take(r, t[0]), t[1..])
  {
  }

  /** Four values make three bytes. */
  lemma TakeGroup(out: seq<byte>, a: Sextet, b: Sextet, c: Sextet, d: Sextet)
    ensures Take(Reader(out, 0, 0), a) == Reader(out, a, 6)
    ensures Take(Reader(out, a, 6), b) == Reader(out + [ByteA(a, b)], b as int % 16, 4)
    ensures Take(Reader(out + [ByteA(a, b)], b as int % 16, 4), c)
            == Reader(out + [ByteA(a, b), ByteB(b, c)], c as int % 4, 2)
    ensures Take(Reader(out + [ByteA(a, b), ByteB(b, c)], c as int % 4, 2), d) == Reader(out + Group(a, b, c, d), 0, 0)
  {
    CompletedGroup(a, b, c, d);
    hide ByteA, ByteB, ByteC, Completed;
    Associative(out, [ByteA(a, b)], [ByteB(b, c)]);
    Associative(out, [ByteA(a, b), ByteB(b, c)], [ByteC(c, d)]);
  }

  lemma CompletedGroup(a: Sextet, b: Sextet, c: Sextet, d: Sextet)
    ensures Completed(a, 6, b) == ByteA(a, b) as int
    ensures Completed(b as int % 16, 4, c) == ByteB(b, c) as int
    ensures Completed(c as int % 4, 2, d) == ByteC(c, d) as int
  {
  }

  lemma TakeAllLong(r: Reader, t: seq<Sextet>)
    requires r.Valid() && |t| >= 4
    ensures TakeAll(r, t) == TakeAll(Take(Take(Take(Take(r, t[0]), t[1]), t[2]), t[3]), t[4..])
  {
    hide Take, TakeAll;
    TakeValid(r, t[0]);
    TakeValid(Take(r, t[0]), t[1]);
    TakeValid(Take(Take(r, t[0]), t[1]), t[2]);
    TakeValid(Take(Take(Take(r, t[0]), t[1]), t[2]), t[3]);
    TakeAllStep(r, t);
    TakeAllStep(Take(r, t[0]), t[1..]);
    TakeAllStep(Take(Take(r, t[0]), t[1]), t[2..]);
    TakeAllStep(Take(Take(Take(r, t[0]), t[1]), t[2]), t[3..]);
    assert t[1..][1..] == t[2..] && t[2..][1..] == t[3..] && t[3..][1..] == t[4..];
  }

  lemma TakeValid(r: Reader, d: Sextet)
    requires r.Valid()
    ensures Take(r, d).Valid()
  {
  }

  lemma TakeAllShort(r: Reader, a: Sextet, b: Sextet, c: Sextet)
    requires r.Valid()
    ensures Take(r, a).Valid() && Take(Take(r, a), b).Valid()
    ensures TakeAll(r, [a]) == Take(r, a) && TakeAll(r, [a, b]) == Take(Take(r, a), b)
    ensures TakeAll(r, [a, b, c]) == Take(Take(Take(r, a), b), c)
  {
    hide Take, TakeAll;
    TakeValid(r, a);
    TakeValid(Take(r, a), b);
    TakeValid(Take(Take(r, a), b), c);
    TakeAllStep(r, [a]);
    TakeAllStep(r, [a, b]);
    TakeAllStep(r, [a, b, c]);
    TakeAllStep(Take(r, a), [b]);
    TakeAllStep(Take(r, a), [b, c]);
    TakeAllStep(Take(Take(r, a), b), [c]);
    TakeAllStep(Take(Take(Take(r, a), b), c), []);
    assert [a][1..] == [] && [a, b][1..] == [b] && [b][1..] == [] && [a, b, c][1..] == [b, c] && [b, c][1..] == [c]
           && [c][1..] == [];
  }

  lemma ReaderTail(out: seq<byte>, a: Sextet, b: Sextet, c: Sextet)
    ensures Close(TakeAll(Reader(out, 0, 0), [])) == Prefixed(out, Decode([]))
    ensures Close(TakeAll(Reader(out, 0, 0), [a])) == Prefixed(out, Decode([a]))
    ensures Close(TakeAll(Reader(out, 0, 0), [a, b])) == Prefixed(out, Decode([a, b]))
    ensures Close(TakeAll(Reader(out, 0, 0), [a, b, c])) == Prefixed(out, Decode([a, b, c]))
  {
    hide Take, TakeAll, ByteA, ByteB;
    TakeGroup(out, a, b, c, 0);
    TakeAllStep(Reader(out, 0, 0), []);
    TakeAllShort(Reader(out, 0, 0), a, b, c);
    assert out + [] == out;
  }

  /** The loop and its final test compute the decoding by groups. */
  lemma {:induction false} ReaderDecodes(out: seq<byte>, t: seq<Sextet>)
    ensures Close(TakeAll(Reader(out, 0, 0), t)) == Prefixed(out, Decode(t))
    decreases |t|
  {
    hide Take, TakeAll, Group, Close;
    if |t| >= 4 {
      TakeGroup(out, t[0], t[1], t[2], t[3]);
      TakeAllLong(Reader(out, 0, 0), t);
      var g := Group(t[0], t[1], t[2], t[3]);
      ReaderDecodes(out + g, t[4..]);
      match Decode(t[4..])
      case None =>
      case Some(rest) => Associative(out, g, rest);
    } else {
      assert t == [] || t == [t[0]] || t == [t[0], t[1]] || t == [t[0], t[1], t[2]];
      ReaderTail(out, if |t| > 0 then t[0] else 0, if |t| > 1 then t[1] else 0, if |t| > 2 then t[2] else 0);
    }
  }

  /** Bytes once written stay written. */
  lemma {:induction false} TakeAllGrows(r: Reader, t: seq<Sextet>)
    requires r.Valid()
    ensures r.out <= TakeAll(r, t).out
    decreases |t|
  {
    if t != [] {
      TakeAllGrows(Take(r, t[0]), t[1..]);
    }
  }

  /** The values of the Base64 characters from position p up to the first other character. */
  function Values(text: seq<char>, p: nat): (t: seq<Sextet>)
    ensures p <= |text| ==> |t| <= |text| - p
    decreases if p < |text| then |text| - p else 0
  {
    if p < |text| && CharValue(text[p]) != 255 then [CharValue(text[p])] + Values(text, p + 1) else []
  }

  /** acc = (acc << 6) + d in 32 bits: the byte taken from it and the bits that stay. */
  lemma ShiftedIn6(acc: int, d: Sextet)
    requires 0 <= acc < 0x1_0000_0000
    ensures var next := (acc * 64 + d as int) % 0x1_0000_0000;
            && 0 <= next && next % 64 == d
            && next / 16 % 256 == Completed(acc, 6, d) && next % 16 == d as int % 16
            && next / 4 % 256 == Completed(acc, 4, d) && next % 4 == d as int % 4
            && next % 256 == Completed(acc, 2, d)
  {
    var lo := acc % 0x400_0000;
    assert acc == 0x400_0000 * (acc / 0x400_0000) + lo;
    DivUnique(acc * 64 + d as int, 0x1_0000_0000, acc / 0x400_0000, lo * 64 + d as int);
    LowBits6(acc, lo);
    Low6(lo, d as int);
  }

  lemma LowBits6(acc: int, lo: int)
    requires 0 <= acc && lo == acc % 0x400_0000
    ensures lo % 64 == acc % 64 && lo % 16 == acc % 16 && lo % 4 == acc % 4
  {
    var q := acc / 0x400_0000;
    DivUnique(acc, 64, 0x10_0000 * q + lo / 64, lo % 64);
    DivUnique(acc, 16, 0x40_0000 * q + lo / 16, lo % 16);
    DivUnique(acc, 4, 0x100_0000 * q + lo / 4, lo % 4);
  }

  lemma Low6(lo: int, d: int)
    requires 0 <= lo && 0 <= d < 64
    ensures (lo * 64 + d) % 64 == d && (lo * 64 + d) % 16 == d % 16 && (lo * 64 + d) % 4 == d % 4
    ensures (lo * 64 + d) / 16 % 256 == lo % 64 * 4 + d / 16
    ensures (lo * 64 + d) / 4 % 256 == lo % 16 * 16 + d / 4
    ensures (lo * 64 + d) % 256 == lo % 4 * 64 + d
  {
    var n := lo * 64 + d;
    DivUnique(n, 64, lo, d);
    DivUnique(n, 16, lo * 4 + d / 16, d % 16);
    DivUnique(n, 4, lo * 16 + d / 4, d % 4);
    DivUnique(lo * 4 + d / 16, 256, lo / 64, lo % 64 * 4 + d / 16);
    DivUnique(lo * 16 + d / 4, 256, lo / 16, lo % 16 * 16 + d / 4);
    DivUnique(n, 256, lo / 4, lo % 4 * 64 + d);
  }

  /** *src, where the end of the text reads as the terminating zero. */
  function Peek(text: seq<char>, p: nat): char { if p < |text| then text[p] else '\0' }

  /** The characters of a C string are bytes. */
  ghost predicate EightBit(text: seq<char>)
  {
    forall k :: 0 <= k < |text| ==> text[k] as int < 0x100
  }

  ghost predicate SevenBit(text: seq<char>)
  {
    forall k :: 0 <= k < |text| ==> text[k] as int < 128
  }

  /** The text as from_base64 reads it. */
  function Blurred(text: seq<char>): (u: seq<char>)
    ensures |u| == |text|
  {
    seq(|text|, k requires 0 <= k < |text| => Blur(text[k]))
  }

  /** What one more 6-bit value does to the accumulator: six bits are there, or a byte is complete. */
  lemma TakeIs(acc0: int, d: Sextet, r: Reader)
    requires 0 <= acc0 < 0x1_0000_0000 && r.Valid() && acc0 % Power(r.len) == r.acc
    ensures var acc, q := (acc0 * 64 + d as int) % 0x1_0000_0000, Take(r, d);
            && r.len <= 6 && q.len <= 6 && acc % Power(q.len) == q.acc
            && (r.len == 0 ==> q.out == r.out && q.len == 6)
            && (r.len > 0 ==> r.len >= 2 && q.len == r.len - 2 && q.out == r.out + [(acc / Power(q.len) % 256) as byte])
  {
    ShiftedIn6(acc0, d);
    PowerMore();
    hide Power;
    CompletedLow(acc0, r.acc, r.len, d);
  }

  /** One accepted character: acc = (acc << 6) + d, and a byte stored when eight bits are there. `full` means that the
      buffer had no room for it. */
  method TakeChar(buf: array<byte>, cap: nat, len0: nat, acc0: nat, accLen0: nat, d: Sextet, ghost r: Reader)
    returns (full: bool, len: nat, acc: nat, accLen: nat)
    requires len0 <= cap <= buf.Length && acc0 < 0x1_0000_0000 && r.Valid()
    requires accLen0 == r.len && acc0 % Power(accLen0) == r.acc
    requires buf[..len0] == r.out
    modifies buf
    ensures buf[cap..] == old(buf[cap..])
    ensures full ==> |Take(r, d).out| > cap
    ensures !full ==> len <= cap && acc < 0x1_0000_0000
    ensures !full ==> accLen == Take(r, d).len && acc % Power(accLen) == Take(r, d).acc
                      && buf[..len] == Take(r, d).out
  {
    TakeIs(acc0, d, r);
    hide Power, Take, Reader.Valid;
    acc := (acc0 * 64 + d as int) % 0x1_0000_0000;
    accLen := accLen0 + 6;
    len := len0;
    full := false;
    if accLen >= 8 {
      accLen := accLen - 8;
      if len >= cap {
        full := true;
        return;
      }
      ghost var before := buf[..len];
      buf[len] := (acc / Power(accLen) % 256) as byte;
      len := len + 1;
      assert buf[..len] == before + [buf[len - 1]];
    }
  }

  lemma PowerMore()
    ensures Power(0) == 1 && Power(2) == 4 && Power(4) == 16 && Power(6) == 64
  {
  }

  lemma CompletedLow(acc: int, w: int, len: nat, d: Sextet)
    requires (len == 2 || len == 4 || len == 6) ==> acc % Power(len) == w
    ensures (len == 2 || len == 4 || len == 6) ==> Completed(acc, len, d) == Completed(w, len, d)
  {
  }

  /** from_base64: reads the Base64 characters from pos on. NULL (here -1) exactly when they are no valid encoding or
      decode to more bytes than the buffer holds; otherwise the position after them, with the bytes in the buffer. */
  method FromBase64(buf: array<byte>, cap: nat, text: seq<char>, pos: nat) returns (next: int, len: nat)
    requires cap <= buf.Length && pos <= |text| && EightBit(text)
    modifies buf
    ensures next == match Decode(Values(text, pos))
                    case None => -1
                    case Some(s) => if |s| > cap then -1 else pos + |Values(text, pos)|
    ensures next != -1 ==> len <= cap && Some(buf[..len]) == Decode(Values(text, pos))
    ensures buf[cap..] == old(buf[cap..])
  {
    hide Decode, Take, TakeAll, Power, CodeValue, CharValue, ReadValue;
    var acc, accLen, src := 0, 0, pos;
    len := 0;
    ghost var r := Reader([], 0, 0);
    PowerMore();
    ReaderDecodes([], Values(text, pos));
    PrefixNothing(Decode(Values(text, pos)));
    while true
      invariant pos <= src <= |text| && len <= cap && 0 <= acc < 0x1_0000_0000
      invariant r.Valid() && accLen == r.len && acc % Power(accLen) == r.acc && buf[..len] == r.out
      invariant src + |Values(text, src)| == pos + |Values(text, pos)| && buf[cap..] == old(buf[cap..])
      invariant TakeAll(r, Values(text, src)) == TakeAll(Reader([], 0, 0), Values(text, pos))
      decreases |text| - src
    {
      MacroReads(Peek(text, src) as int);
      var d := ReadValue(Peek(text, src) as int);
      if d == 255 {
        break;
      }
      PeekEnd();
      ValuesStep(text, src);
      TakeAllStep(r, Values(text, src));
      TakeValid(r, d);
      TakeAllGrows(Take(r, d), Values(text, src + 1));
      src := src + 1;
      var full;
      full, len, acc, accLen := TakeChar(buf, cap, len, acc, accLen, d, r);
      if full {
        return -1, 0;
      }
      r := Take(r, d);
    }
    ValuesEnd(text, src);
    TakeAllStep(r, []);
    if accLen > 4 || acc % Power(accLen) != 0 {
      return -1, 0;
    }
    return src, len;
  }

  lemma PeekEnd()
    ensures CharValue('\0') == 255
  {
  }

  lemma PrefixNothing(o: Option<seq<byte>>)
    ensures Prefixed([], o) == o
  {
    if o.Some? {
      assert [] + o.value == o.value;
    }
  }

  lemma ValuesStep(text: seq<char>, p: nat)
    requires p < |text| && CharValue(text[p]) != 255
    ensures Values(text, p) == [CharValue(text[p])] + Values(text, p + 1)
    ensures Values(text, p)[0] == CharValue(text[p]) && Values(text, p)[1..] == Values(text, p + 1)
  {
  }

  lemma ValuesEnd(text: seq<char>, p: nat)
    requires CharValue(Peek(text, p)) == 255
    ensures Values(text, p) == []
  {
  }

  // ---- texts ----

  /** The values read where the text of an encoding stands, up to a character that is not Base64. */
  lemma {:induction false} ValuesOfText(text: seq<char>, p: nat, t: seq<Sextet>)
    requires p + |t| <= |text| && AreChars(text[p..p + |t|], t)
    requires CharValue(Peek(text, p + |t|)) == 255
    ensures Values(text, p) == t
    decreases |t|
  {
    hide CharValue, CharCode;
    if t == [] {
      ValuesEnd(text, p);
    } else {
      assert text[p] == text[p..p + |t|][0];
      CharsInverse(t[0], text[p]);
      NotSpecial(t[0]);
      ValuesStep(text, p);
      var u := t[1..];
      assert text[p + 1..p + 1 + |u|] == text[p..p + |t|][1..];
      ValuesOfText(text, p + 1, u);
      assert t == [t[0]] + u;
    }
  }

  lemma NotSpecial(x: nat)
    requires x < 64
    ensures CharValue(CharCode(x)) != 255
  {
  }

  /** Characters that are consumed re-encode to what they were read as. */
  lemma {:induction false} TextOfValues(text: seq<char>, p: nat)
    requires p <= |text|
    ensures AreChars(Blurred(text[p..p + |Values(text, p)|]), Values(text, p))
    decreases |text| - p
  {
    hide CharValue, CharCode, Blur;
    var t := Values(text, p);
    if p < |text| && CharValue(text[p]) != 255 {
      ValuesStep(text, p);
      TextOfValues(text, p + 1);
      CharsInverse(0, text[p]);
      assert Blurred(text[p..p + |t|]) == [Blur(text[p])] + Blurred(text[p + 1..p + |t|]);
    } else {
      PeekEnd();
      ValuesEnd(text, p);
    }
  }

  lemma {:induction false} PrintedSevenBit(c: seq<char>, t: seq<Sextet>)
    requires AreChars(c, t)
    ensures forall k :: 0 <= k < |c| ==> 0 < c[k] as int < 128
  {
    forall k | 0 <= k < |c|
      ensures 0 < c[k] as int < 128
    {
      CharsInverse(t[k], c[k]);
    }
  }

  /** What from_base64 accepts is what to_base64 writes for the bytes it delivers if and only if it has 7-bit characters
      only; otherwise a '/' is written for each other character. */
  lemma Reencodes(text: seq<char>, p: nat)
    requires p <= |text| && Decode(Values(text, p)).Some?
    ensures var read, s := text[p..p + |Values(text, p)|], Decode(Values(text, p)).value;
            AreChars(Blurred(read), Encode(s)) && (AreChars(read, Encode(s)) <==> SevenBit(read))
  {
    TextOfValues(text, p);
    EncodeDecode(Values(text, p));
    hide CharCode, Values, Encode, Decode;
    var read := text[p..p + |Values(text, p)|];
    if SevenBit(read) {
      assert Blurred(read) == read;
    }
    if AreChars(read, Values(text, p)) {
      PrintedSevenBit(read, Values(text, p));
    }
  }

  /** A text with a character that is not 7-bit, accepted although it contains a character that is not Base64. */
  lemma AcceptsOtherCharacters()
    ensures var text := ['\U{80}', 'A'];
            && Decode(Values(text, 0)) == Some([252]) && |Values(text, 0)| == 2
            && CodeValue(text[0] as int) == 255 && !AreChars(text, Encode([252]))
  {
    var text := ['\U{80}', 'A'];
    hide Values, Decode, Encode, CharCode;
    PeekEnd();
    ValuesEnd(text, 2);
    ValuesStep(text, 1);
    ValuesStep(text, 0);
    assert Values(text, 0) == [63, 0];
    TwoCharacters(Values(text, 0), [252]);
    CharsInverse(63, text[0]);
  }

  lemma TwoCharacters(t: seq<Sextet>, s: seq<byte>)
    requires t == [63, 0] && s == [252]
    ensures Decode(t) == Some(s) && Encode(s) == t
  {
    ShortEncoding(s[0]);
    ShortDecoding(t[0], t[1]);
    hide Encode, Decode;
    assert ByteA(t[0], t[1]) == 252 && First(s[0]) == 63 && Second(s[0], 0) == 0;
    assert t == [t[0], t[1]] && s == [s[0]];
  }

  lemma ShortEncoding(x: byte)
    ensures Encode([x]) == [First(x), Second(x, 0)]
  {
  }

  lemma ShortDecoding(a: Sextet, b: Sextet)
    requires b % 16 == 0
    ensures Decode([a, b]) == Some([ByteA(a, b)])
  {
  }
}
