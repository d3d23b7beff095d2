/** The BlaMka round of Argon2: the reference form on sixteen words (blamka-round-ref.h) and the form on pairs
    of words held in 128-bit registers (blamka-round-opt.h). Section 3.6 of RFC 9106. */
module Blamka {
  /** The product of the low halves, `(x & m) * (y & m)` and `_mm_mul_epu32`. */
  function LowProduct(x: bv64, y: bv64): bv64 { Product(x & 0xFFFF_FFFF, y & 0xFFFF_FFFF) }

  function Product(x: bv64, y: bv64): bv64 { x * y }

  /** fBlaMka of blamka-round-ref.h */
  function FBlaMka(x: bv64, y: bv64): bv64 { PlusTwice(x, y, LowProduct(x, y)) }

  function PlusTwice(x: bv64, y: bv64, p: bv64): bv64 { x + y + 2 * p }

  lemma PlusTwiceIs(x: bv64, y: bv64, p: bv64)
    ensures PlusTwice(x, y, p) == x + y + 2 * p
  {
  }

  lemma LowHalf(x: bv64, u: bv64)
    ensures x <= 0xFFFF_FFFF ==> (x ^ (u << 32)) & 0xFFFF_FFFF == x && x & 0xFFFF_FFFF == x
  {
  }

  lemma LowHalves(x: bv64, y: bv64, u: bv64, v: bv64)
    requires x <= 0xFFFF_FFFF && y <= 0xFFFF_FFFF
    ensures LowProduct(x ^ (u << 32), y ^ (v << 32)) == Product(x, y)
    ensures LowProduct(x, y) == Product(x, y)
  {
    hide Product;
    LowHalf(x, u);
    LowHalf(y, v);
  }

  /** The product term: all 64 bits of the product of two 32-bit numbers, whatever the upper halves are. */
  lemma LowProductMeaning(x: bv64, y: bv64, u: bv64, v: bv64, xy: bv64)
    requires x <= 0xFFFF_FFFF && y <= 0xFFFF_FFFF && xy == x * y
    ensures LowProduct(x ^ (u << 32), y ^ (v << 32)) == xy && LowProduct(x, y) == xy
  {
    hide Product, LowProduct;
    LowHalves(x, y, u, v);
    ProductIs(x, y);
  }

  lemma ProductIs(x: bv64, y: bv64)
    ensures Product(x, y) == x * y
  {
  }

  lemma FBlaMkaOf(x: bv64, y: bv64, xy: bv64)
    requires LowProduct(x, y) == xy
    ensures FBlaMka(x, y) == x + y + 2 * xy
  {
    hide LowProduct, Product, PlusTwice;
    PlusTwiceIs(x, y, xy);
  }

  /** x + y + 2 x y for 32-bit numbers. */
  lemma FBlaMkaMeaning(x: bv64, y: bv64, xy: bv64)
    requires x <= 0xFFFF_FFFF && y <= 0xFFFF_FFFF && xy == x * y
    ensures FBlaMka(x, y) == x + y + 2 * xy
  {
    hide *;
    LowProductMeaning(x, y, 0, 0, xy);
    FBlaMkaOf(x, y, xy);
  }

  /** Upper halves enter only through the sum: every word is of the form x ^ (u << 32) with x below 2^32. */
  lemma FBlaMkaUpper(x: bv64, y: bv64, u: bv64, v: bv64, xy: bv64, x': bv64, y': bv64)
    requires x <= 0xFFFF_FFFF && y <= 0xFFFF_FFFF && xy == x * y && x' == x ^ (u << 32) && y' == y ^ (v << 32)
    ensures FBlaMka(x', y') == x' + y' + 2 * xy
  {
    hide *;
    LowProductMeaning(x, y, u, v, xy);
    FBlaMkaOf(x', y', xy);
  }

  /** fBlaMka of blamka-round-opt.h, on one half of a register. */
  function FBlaMkaOpt(x: bv64, y: bv64): bv64
  {
    var z := LowProduct(x, y);
    (x + y) + (z + z)
  }

  lemma FBlaMkaSame(x: bv64, y: bv64)
    ensures FBlaMkaOpt(x, y) == FBlaMka(x, y)
  {
    hide LowProduct;
    Twice(LowProduct(x, y));
  }

  lemma Twice(z: bv64)
    ensures 2 * z == z + z
  {
  }

  /** rotr64 for the four rotation amounts of the round. */
  function Rotr32(w: bv64): bv64 { (w >> 32) | (w << 32) }
  function Rotr24(w: bv64): bv64 { (w >> 24) | (w << 40) }
  function Rotr16(w: bv64): bv64 { (w >> 16) | (w << 48) }
  function Rotr63(w: bv64): bv64 { (w >> 63) | (w << 1) }

  lemma RotationMeaning(w: bv64)
    ensures Rotr32(w) == w.RotateRight(32) && Rotr24(w) == w.RotateRight(24)
    ensures Rotr16(w) == w.RotateRight(16) && Rotr63(w) == w.RotateRight(63)
  {
  }

  // The SSSE3 shuffles on one 64-bit half: byte k of the result is the listed byte of w.

  /** `_mm_shuffle_epi32` with (2, 3, 0, 1): bytes 4 5 6 7 0 1 2 3. */
  function Shuffle32(w: bv64): (r: bv64)
    ensures r == Rotr32(w)
  {
    ((w >> 32) & 0xFF) | (((w >> 40) & 0xFF) << 8) | (((w >> 48) & 0xFF) << 16) | (((w >> 56) & 0xFF) << 24)
    | ((w & 0xFF) << 32) | (((w >> 8) & 0xFF) << 40) | (((w >> 16) & 0xFF) << 48) | (((w >> 24) & 0xFF) << 56)
  }

  /** `_mm_shuffle_epi8` with r24: bytes 3 4 5 6 7 0 1 2. */
  function Shuffle24(w: bv64): (r: bv64)
    ensures r == Rotr24(w)
  {
    ((w >> 24) & 0xFF) | (((w >> 32) & 0xFF) << 8) | (((w >> 40) & 0xFF) << 16) | (((w >> 48) & 0xFF) << 24)
    | (((w >> 56) & 0xFF) << 32) | ((w & 0xFF) << 40) | (((w >> 8) & 0xFF) << 48) | (((w >> 16) & 0xFF) << 56)
  }

  /** `_mm_shuffle_epi8` with r16: bytes 2 3 4 5 6 7 0 1. */
  function Shuffle16(w: bv64): (r: bv64)
    ensures r == Rotr16(w)
  {
    ((w >> 16) & 0xFF) | (((w >> 24) & 0xFF) << 8) | (((w >> 32) & 0xFF) << 16) | (((w >> 40) & 0xFF) << 24)
    | (((w >> 48) & 0xFF) << 32) | (((w >> 56) & 0xFF) << 40) | ((w & 0xFF) << 48) | (((w >> 8) & 0xFF) << 56)
  }

  /** The SSE2 rotation, exclusive or of two shifts, for the four amounts. */
  lemma RotationsByShifts(w: bv64)
    ensures (w >> 32) ^ (w << 32) == Rotr32(w) && (w >> 24) ^ (w << 40) == Rotr24(w)
    ensures (w >> 16) ^ (w << 48) == Rotr16(w) && (w >> 63) ^ (w << 1) == Rotr63(w)
  {
  }

  /** The SSSE3 rotation by 63: a shift with a doubling. */
  lemma RotationByDoubling(w: bv64)
    ensures (w >> 63) ^ (w + w) == Rotr63(w)
  {
  }

  function Xor(x: bv64, y: bv64): bv64 { x ^ y }

  datatype Four = Four(a: bv64, b: bv64, c: bv64, d: bv64)

  /** The two halves of G, which differ in the rotation amounts. */
  function G1(x: Four): Four
  {
    var a := FBlaMka(x.a, x.b);
    var d := Rotr32(Xor(x.d, a));
    var c := FBlaMka(x.c, d);
    Four(a, Rotr24(Xor(x.b, c)), c, d)
  }

  function G2(x: Four): Four
  {
    var a := FBlaMka(x.a, x.b);
    var d := Rotr16(Xor(x.d, a));
    var c := FBlaMka(x.c, d);
    Four(a, Rotr63(Xor(x.b, c)), c, d)
  }

  function G(x: Four): Four { G2(G1(x)) }

  lemma XorRotations(x: bv64, y: bv64)
    ensures Rotr32(Xor(x, y)) == (x ^ y).RotateRight(32) && Rotr24(Xor(x, y)) == (x ^ y).RotateRight(24)
    ensures Rotr16(Xor(x, y)) == (x ^ y).RotateRight(16) && Rotr63(Xor(x, y)) == (x ^ y).RotateRight(63)
  {
    XorIs(x, y);
    hide Xor;
  }

  lemma XorIs(x: bv64, y: bv64)
    ensures Xor(x, y) == x ^ y
  {
  }

  /** G step by step: a, d, c, b are set twice, with rotations by 32, 24, 16 and 63. */
  lemma GMeaning(x: Four, a: bv64, b: bv64, c: bv64, d: bv64, a': bv64, b': bv64, c': bv64, d': bv64)
    requires a == FBlaMka(x.a, x.b) && d == (x.d ^ a).RotateRight(32)
    requires c == FBlaMka(x.c, d) && b == (x.b ^ c).RotateRight(24)
    requires a' == FBlaMka(a, b) && d' == (d ^ a').RotateRight(16)
    requires c' == FBlaMka(c, d') && b' == (b ^ c').RotateRight(63)
    ensures G(x) == Four(a', b', c', d')
  {
    hide FBlaMka, Rotr32, Rotr24, Rotr16, Rotr63, Xor;
    XorRotations(x.d, a);
    XorRotations(x.b, c);
    XorRotations(d, a');
    XorRotations(b, c');
  }

  /** The macro G of blamka-round-ref.h, overwriting its four operands. */
  method Mix(a0: bv64, b0: bv64, c0: bv64, d0: bv64) returns (a: bv64, b: bv64, c: bv64, d: bv64)
    ensures Four(a, b, c, d) == G(Four(a0, b0, c0, d0))
  {
    hide FBlaMka, Rotr32, Rotr24, Rotr16, Rotr63, Xor;
    a, b, c, d := a0, b0, c0, d0;
    a := FBlaMka(a, b);
    d := Rotr32(Xor(d, a));
    c := FBlaMka(c, d);
    b := Rotr24(Xor(b, c));
    a := FBlaMka(a, b);
    d := Rotr16(Xor(d, a));
    c := FBlaMka(c, d);
    b := Rotr63(Xor(b, c));
  }

  /** The sixteen words of one round. */
  datatype Sixteen = Sixteen(w0: bv64, w1: bv64, w2: bv64, w3: bv64, w4: bv64, w5: bv64, w6: bv64, w7: bv64,
                             w8: bv64, w9: bv64, w10: bv64, w11: bv64, w12: bv64, w13: bv64, w14: bv64, w15: bv64)

  /** Word j. */
  function At(w: Sixteen, j: nat): bv64
  {
    match j
    case 0 => w.w0
    case 1 => w.w1
    case 2 => w.w2
    case 3 => w.w3
    case 4 => w.w4
    case 5 => w.w5
    case 6 => w.w6
    case 7 => w.w7
    case 8 => w.w8
    case 9 => w.w9
    case 10 => w.w10
    case 11 => w.w11
    case 12 => w.w12
    case 13 => w.w13
    case 14 => w.w14
    case _ => w.w15
  }

  /** G down the columns of the 4 by 4 square. */
  function Columns(v: Sixteen): Sixteen
  {
    var g0, g1, g2, g3 := G(Four(v.w0, v.w4, v.w8, v.w12)), G(Four(v.w1, v.w5, v.w9, v.w13)),
                          G(Four(v.w2, v.w6, v.w10, v.w14)), G(Four(v.w3, v.w7, v.w11, v.w15));
    Sixteen(g0.a, g1.a, g2.a, g3.a, g0.b, g1.b, g2.b, g3.b, g0.c, g1.c, g2.c, g3.c, g0.d, g1.d, g2.d, g3.d)
  }

  /** G along its diagonals. */
  function Diagonals(v: Sixteen): Sixteen
  {
    var g0, g1, g2, g3 := G(Four(v.w0, v.w5, v.w10, v.w15)), G(Four(v.w1, v.w6, v.w11, v.w12)),
                          G(Four(v.w2, v.w7, v.w8, v.w13)), G(Four(v.w3, v.w4, v.w9, v.w14));
    Sixteen(g0.a, g1.a, g2.a, g3.a, g3.b, g0.b, g1.b, g2.b, g2.c, g3.c, g0.c, g1.c, g1.d, g2.d, g3.d, g0.d)
  }

  function Round(v: Sixteen): Sixteen { Diagonals(Columns(v)) }

  /** The four words of column q, and those of the diagonal that starts in column q. */
  function Column(v: Sixteen, q: nat): Four
    requires q < 4
  {
    Four(At(v, q), At(v, 4 + q), At(v, 8 + q), At(v, 12 + q))
  }

  function Diagonal(v: Sixteen, q: nat): Four
    requires q < 4
  {
    Four(At(v, q), At(v, 4 + (q + 1) % 4), At(v, 8 + (q + 2) % 4), At(v, 12 + (q + 3) % 4))
  }

  /** The round applies G to each column and then to each diagonal of the square. */
  lemma RoundMeaning(v: Sixteen, q: nat)
    requires q < 4
    ensures Column(Columns(v), q) == G(Column(v, q))
    ensures Diagonal(Round(v), q) == G(Diagonal(Columns(v), q))
  {
    hide G, Column, Diagonal, At;
    assert q == 0 || q == 1 || q == 2 || q == 3;
    ColumnWords(v);
    ColumnWords(Columns(v));
    DiagonalWords(Columns(v));
    DiagonalWords(Diagonals(Columns(v)));
  }

  lemma ColumnWords(v: Sixteen)
    ensures Column(v, 0) == Four(v.w0, v.w4, v.w8, v.w12) && Column(v, 1) == Four(v.w1, v.w5, v.w9, v.w13)
    ensures Column(v, 2) == Four(v.w2, v.w6, v.w10, v.w14) && Column(v, 3) == Four(v.w3, v.w7, v.w11, v.w15)
  {
    AtWords(v);
    hide At;
  }

  lemma DiagonalWords(v: Sixteen)
    ensures Diagonal(v, 0) == Four(v.w0, v.w5, v.w10, v.w15) && Diagonal(v, 1) == Four(v.w1, v.w6, v.w11, v.w12)
    ensures Diagonal(v, 2) == Four(v.w2, v.w7, v.w8, v.w13) && Diagonal(v, 3) == Four(v.w3, v.w4, v.w9, v.w14)
  {
    AtWords(v);
    hide At;
  }

  lemma AtWords(v: Sixteen)
    ensures v == Sixteen(At(v, 0), At(v, 1), At(v, 2), At(v, 3), At(v, 4), At(v, 5), At(v, 6), At(v, 7),
                         At(v, 8), At(v, 9), At(v, 10), At(v, 11), At(v, 12), At(v, 13), At(v, 14), At(v, 15))
  {
    hide At;
    RowA(v);
    RowB(v);
    RowC(v);
    RowD(v);
  }

  lemma RowA(v: Sixteen)
    ensures At(v, 0) == v.w0 && At(v, 1) == v.w1 && At(v, 2) == v.w2 && At(v, 3) == v.w3
  {
  }

  lemma RowB(v: Sixteen)
    ensures At(v, 4) == v.w4 && At(v, 5) == v.w5 && At(v, 6) == v.w6 && At(v, 7) == v.w7
  {
  }

  lemma RowC(v: Sixteen)
    ensures At(v, 8) == v.w8 && At(v, 9) == v.w9 && At(v, 10) == v.w10 && At(v, 11) == v.w11
  {
  }

  lemma RowD(v: Sixteen)
    ensures At(v, 12) == v.w12 && At(v, 13) == v.w13 && At(v, 14) == v.w14 && At(v, 15) == v.w15
  {
  }

  /** BLAKE2_ROUND_NOMSG */
  method RoundNomsg(x: Sixteen) returns (r: Sixteen)
    ensures r == Round(x)
  {
    hide G;
    var v0, v1, v2, v3, v4, v5, v6, v7, v8, v9, v10, v11, v12, v13, v14, v15 :=
      x.w0, x.w1, x.w2, x.w3, x.w4, x.w5, x.w6, x.w7, x.w8, x.w9, x.w10, x.w11, x.w12, x.w13, x.w14, x.w15;
    v0, v4, v8, v12 := Mix(v0, v4, v8, v12);
    v1, v5, v9, v13 := Mix(v1, v5, v9, v13);
    v2, v6, v10, v14 := Mix(v2, v6, v10, v14);
    v3, v7, v11, v15 := Mix(v3, v7, v11, v15);
    v0, v5, v10, v15 := Mix(v0, v5, v10, v15);
    v1, v6, v11, v12 := Mix(v1, v6, v11, v12);
    v2, v7, v8, v13 := Mix(v2, v7, v8, v13);
    v3, v4, v9, v14 := Mix(v3, v4, v9, v14);
    r := Sixteen(v0, v1, v2, v3, v4, v5, v6, v7, v8, v9, v10, v11, v12, v13, v14, v15);
  }

  // ---- registers of two words ----

  datatype Pair = Pair(lo: bv64, hi: bv64)

  function PairXor(x: Pair, y: Pair): Pair { Pair(Xor(x.lo, y.lo), Xor(x.hi, y.hi)) }

  /** fBlaMka of blamka-round-opt.h agrees with the reference on both halves. */
  function PairBlaMka(x: Pair, y: Pair): (r: Pair)
    ensures r == Pair(FBlaMka(x.lo, y.lo), FBlaMka(x.hi, y.hi))
  {
    FBlaMkaSame(x.lo, y.lo);
    FBlaMkaSame(x.hi, y.hi);
    Pair(FBlaMkaOpt(x.lo, y.lo), FBlaMkaOpt(x.hi, y.hi))
  }

  function UnpackHi(x: Pair, y: Pair): Pair { Pair(x.hi, y.hi) }

  function UnpackLo(x: Pair, y: Pair): Pair { Pair(x.lo, y.lo) }

  /** `_mm_alignr_epi8(x, y, 8)` */
  function AlignRight(x: Pair, y: Pair): Pair { Pair(y.hi, x.lo) }


  // `_mm_roti_epi64`: byte shuffles and a doubling with SSSE3, two shifts without. Either way it rotates.

  function Roti32(w: bv64, ssse3: bool): (r: bv64)
    ensures r == Rotr32(w)
  {
    RotationsByShifts(w);
    if ssse3 then Shuffle32(w) else (w >> 32) ^ (w << 32)
  }

  function Roti24(w: bv64, ssse3: bool): (r: bv64)
    ensures r == Rotr24(w)
  {
    RotationsByShifts(w);
    if ssse3 then Shuffle24(w) else (w >> 24) ^ (w << 40)
  }

  function Roti16(w: bv64, ssse3: bool): (r: bv64)
    ensures r == Rotr16(w)
  {
    RotationsByShifts(w);
    if ssse3 then Shuffle16(w) else (w >> 16) ^ (w << 48)
  }

  function Roti63(w: bv64, ssse3: bool): (r: bv64)
    ensures r == Rotr63(w)
  {
    RotationsByShifts(w);
    RotationByDoubling(w);
    if ssse3 then (w >> 63) ^ (w + w) else (w >> 63) ^ (w << 1)
  }

  function PairRoti32(x: Pair, ssse3: bool): Pair { Pair(Roti32(x.lo, ssse3), Roti32(x.hi, ssse3)) }
  function PairRoti24(x: Pair, ssse3: bool): Pair { Pair(Roti24(x.lo, ssse3), Roti24(x.hi, ssse3)) }
  function PairRoti16(x: Pair, ssse3: bool): Pair { Pair(Roti16(x.lo, ssse3), Roti16(x.hi, ssse3)) }
  function PairRoti63(x: Pair, ssse3: bool): Pair { Pair(Roti63(x.lo, ssse3), Roti63(x.hi, ssse3)) }

  datatype Eight = Eight(A0: Pair, A1: Pair, B0: Pair, B1: Pair, C0: Pair, C1: Pair, D0: Pair, D1: Pair)

  /** The words that eight registers hold, in memory order. */
  function Words(e: Eight): Sixteen
  {
    Sixteen(e.A0.lo, e.A0.hi, e.A1.lo, e.A1.hi, e.B0.lo, e.B0.hi, e.B1.lo, e.B1.hi,
            e.C0.lo, e.C0.hi, e.C1.lo, e.C1.hi, e.D0.lo, e.D0.hi, e.D1.lo, e.D1.hi)
  }

  /** Column k of the registers. */
  function Lane(e: Eight, k: nat): Four
  {
    match k
    case 0 => Four(e.A0.lo, e.B0.lo, e.C0.lo, e.D0.lo)
    case 1 => Four(e.A0.hi, e.B0.hi, e.C0.hi, e.D0.hi)
    case 2 => Four(e.A1.lo, e.B1.lo, e.C1.lo, e.D1.lo)
    case _ => Four(e.A1.hi, e.B1.hi, e.C1.hi, e.D1.hi)
  }

  /** The macro G1: all four columns at once. */
  method G1Opt(e: Eight, ssse3: bool) returns (r: Eight)
    ensures Lane(r, 0) == G1(Lane(e, 0)) && Lane(r, 1) == G1(Lane(e, 1))
    ensures Lane(r, 2) == G1(Lane(e, 2)) && Lane(r, 3) == G1(Lane(e, 3))
  {
    hide FBlaMka, PairBlaMka, Rotr32, Rotr24, Roti32, Roti24, Xor;
    var A0, A1, B0, B1, C0, C1, D0, D1 := e.A0, e.A1, e.B0, e.B1, e.C0, e.C1, e.D0, e.D1;
    A0 := PairBlaMka(A0, B0);
    A1 := PairBlaMka(A1, B1);
    D0 := PairXor(D0, A0);
    D1 := PairXor(D1, A1);
    D0 := PairRoti32(D0, ssse3);
    D1 := PairRoti32(D1, ssse3);
    C0 := PairBlaMka(C0, D0);
    C1 := PairBlaMka(C1, D1);
    B0 := PairXor(B0, C0);
    B1 := PairXor(B1, C1);
    B0 := PairRoti24(B0, ssse3);
    B1 := PairRoti24(B1, ssse3);
    r := Eight(A0, A1, B0, B1, C0, C1, D0, D1);
  }

  /** The macro G2. */
  method G2Opt(e: Eight, ssse3: bool) returns (r: Eight)
    ensures Lane(r, 0) == G2(Lane(e, 0)) && Lane(r, 1) == G2(Lane(e, 1))
    ensures Lane(r, 2) == G2(Lane(e, 2)) && Lane(r, 3) == G2(Lane(e, 3))
  {
    hide FBlaMka, PairBlaMka, Rotr16, Rotr63, Roti16, Roti63, Xor;
    var A0, A1, B0, B1, C0, C1, D0, D1 := e.A0, e.A1, e.B0, e.B1, e.C0, e.C1, e.D0, e.D1;
    A0 := PairBlaMka(A0, B0);
    A1 := PairBlaMka(A1, B1);
    D0 := PairXor(D0, A0);
    D1 := PairXor(D1, A1);
    D0 := PairRoti16(D0, ssse3);
    D1 := PairRoti16(D1, ssse3);
    C0 := PairBlaMka(C0, D0);
    C1 := PairBlaMka(C1, D1);
    B0 := PairXor(B0, C0);
    B1 := PairXor(B1, C1);
    B0 := PairRoti63(B0, ssse3);
    B1 := PairRoti63(B1, ssse3);
    r := Eight(A0, A1, B0, B1, C0, C1, D0, D1);
  }

  /** Row B turned by one column, C by two, D by three. */
  function Turned(e: Eight): Eight
  {
    Eight(e.A0, e.A1, Pair(e.B0.hi, e.B1.lo), Pair(e.B1.hi, e.B0.lo), e.C1, e.C0, Pair(e.D1.hi, e.D0.lo),
          Pair(e.D0.hi, e.D1.lo))
  }

  /** DIAGONALIZE, in the SSSE3 and the SSE2 form. */
  method Diagonalize(e: Eight, ssse3: bool) returns (r: Eight)
    ensures r == Turned(e)
  {
    var B0, B1, C0, C1, D0, D1 := e.B0, e.B1, e.C0, e.C1, e.D0, e.D1;
    var t0, t1;
    if ssse3 {
      t0 := AlignRight(B1, B0);
      t1 := AlignRight(B0, B1);
      B0 := t0;
      B1 := t1;
      t0 := C0;
      C0 := C1;
      C1 := t0;
      t0 := AlignRight(D1, D0);
      t1 := AlignRight(D0, D1);
      D0 := t1;
      D1 := t0;
    } else {
      t0 := D0;
      t1 := B0;
      D0 := C0;
      C0 := C1;
      C1 := D0;
      D0 := UnpackHi(D1, UnpackLo(t0, t0));
      D1 := UnpackHi(t0, UnpackLo(D1, D1));
      B0 := UnpackHi(B0, UnpackLo(B1, B1));
      B1 := UnpackHi(B1, UnpackLo(t1, t1));
    }
    r := Eight(e.A0, e.A1, B0, B1, C0, C1, D0, D1);
  }

  /** UNDIAGONALIZE undoes the turn. */
  method Undiagonalize(e: Eight, ssse3: bool) returns (r: Eight)
    ensures Turned(r) == e
  {
    var B0, B1, C0, C1, D0, D1 := e.B0, e.B1, e.C0, e.C1, e.D0, e.D1;
    var t0, t1;
    if ssse3 {
      t0 := AlignRight(B0, B1);
      t1 := AlignRight(B1, B0);
      B0 := t0;
      B1 := t1;
      t0 := C0;
      C0 := C1;
      C1 := t0;
      t0 := AlignRight(D0, D1);
      t1 := AlignRight(D1, D0);
      D0 := t1;
      D1 := t0;
    } else {
      t0 := C0;
      C0 := C1;
      C1 := t0;
      t0 := B0;
      t1 := D0;
      B0 := UnpackHi(B1, UnpackLo(B0, B0));
      B1 := UnpackHi(t0, UnpackLo(B1, B1));
      D0 := UnpackHi(D0, UnpackLo(D1, D1));
      D1 := UnpackHi(D1, UnpackLo(t1, t1));
    }
    r := Eight(e.A0, e.A1, B0, B1, C0, C1, D0, D1);
  }

  /** BLAKE2_ROUND on registers is BLAKE2_ROUND_NOMSG on the words they hold. */
  method Blake2Round(e: Eight, ssse3: bool) returns (r: Eight)
    ensures Words(r) == Round(Words(e))
  {
    hide G1, G2;
    var x := G1Opt(e, ssse3);
    x := G2Opt(x, ssse3);
    ghost var mid := x;
    ColumnLanes(e, mid);
    x := Diagonalize(x, ssse3);
    ghost var turned := x;
    x := G1Opt(x, ssse3);
    x := G2Opt(x, ssse3);
    r := Undiagonalize(x, ssse3);
    DiagonalLanes(mid, turned, x, r);
  }

  /** Four columns at a time are the column half of the round. */
  lemma ColumnLanes(e: Eight, r: Eight)
    requires Lane(r, 0) == G(Lane(e, 0)) && Lane(r, 1) == G(Lane(e, 1))
    requires Lane(r, 2) == G(Lane(e, 2)) && Lane(r, 3) == G(Lane(e, 3))
    ensures Words(r) == Columns(Words(e))
  {
    hide G;
  }

  /** Between the turns they are the diagonal half. */
  lemma DiagonalLanes(e: Eight, u: Eight, v: Eight, r: Eight)
    requires u == Turned(e) && v == Turned(r)
    requires Lane(v, 0) == G(Lane(u, 0)) && Lane(v, 1) == G(Lane(u, 1))
    requires Lane(v, 2) == G(Lane(u, 2)) && Lane(v, 3) == G(Lane(u, 3))
    ensures Words(r) == Diagonals(Words(e))
  {
    hide G;
  }
}
