/** The limbwise operations of fe.c: constants, sum, difference, negation, copy, conditional move. */
module FeLinear {
  import opened Words
  import opened Field
  import opened Limbs

  /** fe_0 and fe_1: h = c for c in {0, 1}. */
  method FeSet(h: array<int32>, c: int32)
    requires IsFe(h) && 0 <= c <= 1
    modifies h
    ensures Bound(h, 1) && Fm(h) == c as int
  {
    hide Mod;
    ResidueMod(c as int);
    var t := Ten(c, 0, 0, 0, 0, 0, 0, 0, 0, 0);
    t.ValIs();
    Store(h, t);
  }

  function FeAddLimbs(f: Ten, g: Ten, ghost m: nat, ghost n: nat): Ten
    requires f.Within(m) && g.Within(n) && m + n <= 6000
  {
    Ten(f.x0 + g.x0, f.x1 + g.x1, f.x2 + g.x2, f.x3 + g.x3, f.x4 + g.x4,
        f.x5 + g.x5, f.x6 + g.x6, f.x7 + g.x7, f.x8 + g.x8, f.x9 + g.x9)
  }

  lemma FeAddWithin(f: Ten, g: Ten, m: nat, n: nat)
    requires f.Within(m) && g.Within(n) && m + n <= 6000
    ensures FeAddLimbs(f, g, m, n).Within(m + n)
  {
  }

  lemma FeAddVal(f: Ten, g: Ten, m: nat, n: nat)
    requires f.Within(m) && g.Within(n) && m + n <= 6000
    ensures FeAddLimbs(f, g, m, n).Val() == f.Val() + g.Val()
  {
    hide Ten.Val, Ten.Within, Near;
    f.ValIs();
    g.ValIs();
    FeAddLimbs(f, g, m, n).ValIs();
  }

  /** h = f + g. The ghost arguments bound the operands in hundredths of 2^25. */
  method FeAdd(h: array<int32>, f: array<int32>, g: array<int32>, ghost m: nat, ghost n: nat)
    requires IsFe(h) && IsFe(f) && IsFe(g)
    requires Bound(f, m) && Bound(g, n) && m + n <= 6000
    modifies h
    ensures Bound(h, m + n)
    ensures Fm(h) == old(FAdd(Fm(f), Fm(g)))
  {
    hide Ten.Val, Ten.Within;
    FOpsReduce(Load(f).Val(), Load(g).Val());
    FeAddWithin(Load(f), Load(g), m, n);
    FeAddVal(Load(f), Load(g), m, n);
    Store(h, FeAddLimbs(Load(f), Load(g), m, n));
  }

  function FeSubLimbs(f: Ten, g: Ten, ghost m: nat, ghost n: nat): Ten
    requires f.Within(m) && g.Within(n) && m + n <= 6000
  {
    Ten(f.x0 - g.x0, f.x1 - g.x1, f.x2 - g.x2, f.x3 - g.x3, f.x4 - g.x4,
        f.x5 - g.x5, f.x6 - g.x6, f.x7 - g.x7, f.x8 - g.x8, f.x9 - g.x9)
  }

  lemma FeSubWithin(f: Ten, g: Ten, m: nat, n: nat)
    requires f.Within(m) && g.Within(n) && m + n <= 6000
    ensures FeSubLimbs(f, g, m, n).Within(m + n)
  {
  }

  lemma FeSubVal(f: Ten, g: Ten, m: nat, n: nat)
    requires f.Within(m) && g.Within(n) && m + n <= 6000
    ensures FeSubLimbs(f, g, m, n).Val() == f.Val() - g.Val()
  {
    hide Ten.Val, Ten.Within, Near;
    f.ValIs();
    g.ValIs();
    FeSubLimbs(f, g, m, n).ValIs();
  }

  /** h = f - g. The ghost arguments bound the operands in hundredths of 2^25. */
  method FeSub(h: array<int32>, f: array<int32>, g: array<int32>, ghost m: nat, ghost n: nat)
    requires IsFe(h) && IsFe(f) && IsFe(g)
    requires Bound(f, m) && Bound(g, n) && m + n <= 6000
    modifies h
    ensures Bound(h, m + n)
    ensures Fm(h) == old(FSub(Fm(f), Fm(g)))
  {
    hide Ten.Val, Ten.Within;
    FOpsReduce(Load(f).Val(), Load(g).Val());
    FeSubWithin(Load(f), Load(g), m, n);
    FeSubVal(Load(f), Load(g), m, n);
    Store(h, FeSubLimbs(Load(f), Load(g), m, n));
  }

  function FeNegLimbs(f: Ten, ghost n: nat): Ten
    requires f.Within(n) && n <= 6000
  {
    Ten(-f.x0, -f.x1, -f.x2, -f.x3, -f.x4, -f.x5, -f.x6, -f.x7, -f.x8, -f.x9)
  }

  lemma FeNegVal(f: Ten, n: nat)
    requires f.Within(n) && n <= 6000
    ensures FeNegLimbs(f, n).Within(n) && FeNegLimbs(f, n).Val() == -f.Val()
  {
    hide Ten.Val;
    assert FeNegLimbs(f, n).Within(n);
    hide Ten.Within;
    f.ValIs();
    FeNegLimbs(f, n).ValIs();
  }

  method FeNeg(h: array<int32>, f: array<int32>, ghost n: nat)
    requires IsFe(h) && IsFe(f) && Bound(f, n) && n <= 6000
    modifies h
    ensures Bound(h, n) && Fm(h) == old(FNeg(Fm(f)))
  {
    hide Ten.Val, Ten.Within;
    FOpsReduce(Load(f).Val(), 0);
    FeNegVal(Load(f), n);
    Store(h, FeNegLimbs(Load(f), n));
  }

  method FeCopy(h: array<int32>, f: array<int32>)
    requires IsFe(h) && IsFe(f)
    modifies h
    ensures Load(h) == old(Load(f))
  {
    Store(h, Load(f));
  }

  /** The 32-bit pattern of x. */
  function Pattern(x: int32): (n: nat)
    ensures n < 0x1_0000_0000
  {
    x as int % 0x1_0000_0000
  }

  /** The mask of fe_cmov on one limb: f ^ ((f ^ g) & -b). */
  function Masked(f: int32, g: int32, b: int32): nat
    requires 0 <= b <= 1
  {
    BitXor(Pattern(f), BitAnd(BitXor(Pattern(f), Pattern(g)), Pattern(-b)))
  }

  lemma MaskSelects(f: int32, g: int32, b: int32)
    requires 0 <= b <= 1
    ensures Masked(f, g, b) == Pattern(if b == 1 then g else f)
  {
    hide BitXor, BitAnd;
    MaskedBits(Pattern(f), Pattern(g));
    assert Pattern(-b) == if b == 1 then 0xFFFF_FFFF else 0;
  }

  lemma MaskedBits(x: nat, y: nat)
    requires x < 0x1_0000_0000 && y < 0x1_0000_0000
    ensures BitXor(x, BitAnd(BitXor(x, y), 0)) == x
    ensures BitXor(x, BitAnd(BitXor(x, y), 0xFFFF_FFFF)) == y
  {
    hide BitXor, BitAnd, Pow2;
    Pow2At32();
    BitXorBelow(x, y, 32);
    BitAndOnes(BitXor(x, y), 32);
    BitXorTwice(x, y);
    BitXorZero(x);
  }

  /** One limb of fe_cmov. */
  function Select(f: int32, g: int32, b: int32): (r: int32)
    requires 0 <= b <= 1
    ensures r == if b == 1 then g else f
  {
    MaskSelects(f, g, b);
    var n := Masked(f, g, b);
    (if n < 0x8000_0000 then n else n - 0x1_0000_0000) as int32
  }

  /** fe_cmov: f = g if b == 1, f unchanged if b == 0. */
  method FeCmov(f: array<int32>, g: array<int32>, b: int32)
    requires IsFe(f) && IsFe(g) && 0 <= b <= 1
    modifies f
    ensures Load(f) == old(if b == 1 then Load(g) else Load(f))
  {
    hide Select;
    Store(f, Ten(Select(f[0], g[0], b), Select(f[1], g[1], b), Select(f[2], g[2], b), Select(f[3], g[3], b),
                 Select(f[4], g[4], b), Select(f[5], g[5], b), Select(f[6], g[6], b), Select(f[7], g[7], b),
                 Select(f[8], g[8], b), Select(f[9], g[9], b)));
  }
}
