/** fe_invert and fe_pow22523: fixed square-and-multiply chains. */
module FePower {
  import opened Words
  import opened Field
  import opened Limbs
  import opened FeMultiply
  import opened FeSquare

  /** (z^m)^n = z^(m * n) for squarings repeated n times: m doubles n times. */
  lemma SquareExponent(z: int, m: nat)
    ensures FMul(FPow(z, m), FPow(z, m)) == FPow(z, 2 * m)
  {
    FPowAdds(z, m, m);
  }

  /** t = t^(2^n), the loops `for (i = 1; i < n; ++i) fe_sq(t, t)` with the squaring before them. */
  method SquareTimes(t: array<int32>, f: array<int32>, n: nat, ghost z: int, ghost m: nat)
    requires IsFe(t) && IsFe(f) && Bound(f, LOOSE) && n >= 1
    requires Fm(f) == FPow(z, m)
    modifies t
    ensures Bound(t, TIGHT) && Fm(t) == FPow(z, Pow2(n) * m)
  {
    hide Ten.Val, Ten.Within, FPow;
    SquareExponent(z, m);
    FeSq(t, f);
    assert Pow2(1) == 2;
    var i := 1;
    while i < n
      invariant 1 <= i <= n
      invariant Bound(t, TIGHT) && Fm(t) == FPow(z, Pow2(i) * m)
    {
      WithinMono(Load(t), TIGHT, LOOSE);
      SquareExponent(z, Pow2(i) * m);
      assert 2 * (Pow2(i) * m) == Pow2(i + 1) * m;
      FeSq(t, t);
      i := i + 1;
    }
  }

  /** t = f * g where both are powers of z. */
  method Multiply(t: array<int32>, f: array<int32>, g: array<int32>, ghost z: int, ghost m: nat, ghost n: nat)
    requires IsFe(t) && IsFe(f) && IsFe(g) && Bound(f, LOOSE) && Bound(g, LOOSE)
    requires Fm(f) == FPow(z, m) && Fm(g) == FPow(z, n)
    modifies t
    ensures Bound(t, TIGHT) && Fm(t) == FPow(z, m + n)
  {
    hide Ten.Val, Ten.Within, FPow;
    FPowAdds(z, m, n);
    FeMul(t, f, g);
  }

  /** 2^a - 1 and 2^b - 1 in binary, one written after the other. */
  lemma Ones(a: nat, b: nat)
    ensures Pow2(a) * (Pow2(b) - 1) + (Pow2(a) - 1) == Pow2(a + b) - 1
  {
    Pow2Adds(a, b);
  }

  lemma Pow2At255()
    ensures Pow2(2) == 4 && Pow2(5) == 32
    ensures 32 * Pow2(250) == P + 19 && 8 * Pow2(252) == P + 19 && 4 * Pow2(250) == Pow2(252)
  {
    hide Pow2;
    SmallPow2();
    Pow2Adds(5, 5);
    Pow2Adds(10, 10);
    Pow2Adds(20, 20);
    Pow2Adds(40, 40);
    Pow2Adds(80, 80);
    Pow2Adds(160, 80);
    Pow2Adds(240, 10);
    Pow2Adds(250, 5);
    Pow2Adds(250, 2);
    Pow2Adds(252, 3);
  }

  lemma SmallPow2()
    ensures Pow2(1) == 2 && Pow2(2) == 4 && Pow2(3) == 8 && Pow2(5) == 32
  {
  }

  /** s = f^(2^a); t = s * g, which appends the a ones of g to the b ones of f. */
  method Append(s: array<int32>, t: array<int32>, f: array<int32>, g: array<int32>, a: nat, ghost b: nat, ghost z: int)
    requires IsFe(s) && IsFe(t) && IsFe(f) && IsFe(g) && s != g && a >= 1
    requires Bound(f, TIGHT) && Bound(g, TIGHT)
    requires Fm(f) == FPow(z, Pow2(b) - 1) && Fm(g) == FPow(z, Pow2(a) - 1)
    modifies s, t
    ensures Bound(t, TIGHT) && Fm(t) == FPow(z, Pow2(a + b) - 1)
    ensures s != t ==> Bound(s, TIGHT)
  {
    hide Ten.Val, Ten.Within, FPow, Pow2;
    Loosen(TIGHT);
    Ones(a, b);
    SquareTimes(s, f, a, z, Pow2(b) - 1);
    Multiply(t, s, g, z, Pow2(a) * (Pow2(b) - 1), Pow2(a) - 1);
  }

  /** The part that both chains share: from z^(2^5 - 1) to z^(2^250 - 1). */
  method Climb(t1: array<int32>, t2: array<int32>, t3: array<int32>, ghost z: int)
    requires IsFe(t1) && IsFe(t2) && IsFe(t3) && t1 != t2 && t1 != t3 && t2 != t3
    requires Bound(t1, TIGHT) && Fm(t1) == FPow(z, Pow2(5) - 1)
    modifies t1, t2, t3
    ensures Bound(t1, TIGHT) && Fm(t1) == FPow(z, Pow2(250) - 1)
  {
    hide Ten.Val, Ten.Within, FPow, Pow2;
    Append(t2, t1, t1, t1, 5, 5, z);
    Append(t2, t2, t1, t1, 10, 10, z);
    Append(t3, t2, t2, t2, 20, 20, z);
    Append(t2, t1, t2, t1, 10, 40, z);
    Append(t2, t2, t1, t1, 50, 50, z);
    Append(t3, t2, t2, t2, 100, 100, z);
    Append(t2, t1, t2, t1, 50, 200, z);
  }

  /** z^9 and z^11, which open both chains. */
  method Open(t0: array<int32>, t1: array<int32>, z: array<int32>)
    requires IsFe(t0) && IsFe(t1) && IsFe(z) && Bound(z, LOOSE)
    requires t0 != t1 && t0 != z && t1 != z
    modifies t0, t1
    ensures Bound(t0, TIGHT) && Bound(t1, TIGHT)
    ensures Fm(t1) == FPow(Fm(z), 9) && Fm(t0) == FPow(Fm(z), 11)
  {
    hide Ten.Val, Ten.Within, FPow, Pow2;
    ghost var x := Fm(z);
    FPowOne(x);
    SmallPow2();
    Loosen(TIGHT);
    SquareTimes(t0, z, 1, x, 1);
    SquareTimes(t1, t0, 2, x, 2);
    Multiply(t1, z, t1, x, 1, 8);
    Multiply(t0, t0, t1, x, 2, 9);
  }

  /** z^11 and z^(2^5 - 1), from which fe_invert goes on. */
  method OpenInvert(t0: array<int32>, t1: array<int32>, t2: array<int32>, z: array<int32>)
    requires IsFe(t0) && IsFe(t1) && IsFe(t2) && IsFe(z) && Bound(z, LOOSE)
    requires t0 != t1 && t0 != t2 && t1 != t2 && z != t0 && z != t1 && z != t2
    modifies t0, t1, t2
    ensures Bound(t0, TIGHT) && Bound(t1, TIGHT)
    ensures Fm(t0) == FPow(Fm(z), 11) && Fm(t1) == FPow(Fm(z), Pow2(5) - 1)
  {
    hide Ten.Val, Ten.Within, FPow, Pow2, Fm, Bound;
    ghost var x := Fm(z);
    SmallPow2();
    Open(t0, t1, z);
    Loose(t0, TIGHT);
    Loose(t1, TIGHT);
    SquareTimes(t2, t0, 1, x, 11);
    Loose(t2, TIGHT);
    Multiply(t1, t1, t2, x, 9, 22);
  }

  /** out = z^(2^255 - 21) = z^(P - 2), the inverse of a nonzero z; out may be z. */
  method FeInvert(out: array<int32>, z: array<int32>)
    requires IsFe(out) && IsFe(z) && Bound(z, LOOSE)
    modifies out
    ensures Bound(out, TIGHT) && Fm(out) == old(FPow(Fm(z), P - 2))
  {
    hide Ten.Val, Ten.Within, FPow, Pow2, Fm, Bound;
    var t0, t1, t2, t3 := new int32[10], new int32[10], new int32[10], new int32[10];
    ghost var x := Fm(z);
    OpenInvert(t0, t1, t2, z);
    Climb(t1, t2, t3, x);
    Loose(t0, TIGHT);
    Loose(t1, TIGHT);
    SquareTimes(t1, t1, 5, x, Pow2(250) - 1);
    Loose(t1, TIGHT);
    Pow2At255();
    Multiply(out, t1, t0, x, 32 * (Pow2(250) - 1), 11);
  }

  /** out = z^(2^252 - 3) = z^((P - 5) / 8); out may be z. */
  method FePow22523(out: array<int32>, z: array<int32>)
    requires IsFe(out) && IsFe(z) && Bound(z, LOOSE)
    modifies out
    ensures Bound(out, TIGHT) && Fm(out) == old(FPow(Fm(z), (P - 5) / 8))
  {
    hide Ten.Val, Ten.Within, FPow, Pow2;
    var t0, t1, t2 := new int32[10], new int32[10], new int32[10];
    ghost var x := Fm(z);
    FPowOne(x);
    hide Fm, Bound;
    SmallPow2();
    Open(t0, t1, z);
    Loose(t0, TIGHT);
    SquareTimes(t0, t0, 1, x, 11);
    Loose(t0, TIGHT);
    Loose(t1, TIGHT);
    Multiply(t0, t1, t0, x, 9, 22);
    Climb(t0, t1, t2, x);
    Loose(t0, TIGHT);
    SquareTimes(t0, t0, 2, x, Pow2(250) - 1);
    Loose(t0, TIGHT);
    Pow2At255();
    Multiply(out, t0, z, x, 4 * (Pow2(250) - 1), 1);
  }
}
