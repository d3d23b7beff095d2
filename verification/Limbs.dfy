/** Limb representation of field elements (fe.h): ten signed 32-bit limbs in radix 2^25.5. */
module Limbs {
  import opened Words
  import opened Field

  /** The ten limbs of an element, as every routine of fe.c loads them into locals first. */
  datatype Ten = Ten(x0: int32, x1: int32, x2: int32, x3: int32, x4: int32, x5: int32, x6: int32, x7: int32, x8: int32,
                     x9: int32)
  {
    /** The integer represented: limb i stands at bit position 0, 26, 51, 77, .., 230. The detour keeps the solver from
        expanding the sum wherever a value is mentioned; ValIs expands it on demand. */
    ghost function Val(): int { Expand(|[x0, x1, x2, x3]|) }

    ghost function Expand(n: nat): int
    {
      if n == 0 then
        Radix(x0 as int, x1 as int, x2 as int, x3 as int, x4 as int, x5 as int, x6 as int, x7 as int, x8 as int,
              x9 as int)
      else
        Expand(n - 1)
    }

    lemma {:induction false} ExpandIs(n: nat)
      ensures Expand(n) == Radix(x0 as int, x1 as int, x2 as int, x3 as int, x4 as int, x5 as int, x6 as int, x7 as int,
                                 x8 as int, x9 as int)
    {
      hide Radix;
      if n > 0 {
        ExpandIs(n - 1);
      }
    }

    lemma ValIs()
      ensures Val() == Radix(x0 as int, x1 as int, x2 as int, x3 as int, x4 as int, x5 as int, x6 as int, x7 as int,
                             x8 as int, x9 as int)
    {
      ExpandIs(|[x0, x1, x2, x3]|);
    }

    /** Limbs within n/100 of 2^25 (even positions) and of 2^24 (odd positions). The multiplications
        guarantee TIGHT and demand LOOSE. */
    ghost predicate Within(n: int)
    {
      && Near(x0, n * 0x200_0000) && Near(x1, n * 0x100_0000) && Near(x2, n * 0x200_0000) && Near(x3, n * 0x100_0000)
      && Near(x4, n * 0x200_0000) && Near(x5, n * 0x100_0000) && Near(x6, n * 0x200_0000) && Near(x7, n * 0x100_0000)
      && Near(x8, n * 0x200_0000) && Near(x9, n * 0x100_0000)
    }
  }

  ghost function Radix(x0: int, x1: int, x2: int, x3: int, x4: int, x5: int, x6: int, x7: int, x8: int, x9: int): int
  {
    x0 + 0x400_0000 * x1
    + 0x8_0000_0000_0000 * x2
    + 0x2000_0000_0000_0000_0000 * x3
    + 0x40_0000_0000_0000_0000_0000_0000 * x4
    + 0x1_0000_0000_0000_0000_0000_0000_0000_0000 * x5
    + 0x200_0000_0000_0000_0000_0000_0000_0000_0000_0000 * x6
    + 0x8_0000_0000_0000_0000_0000_0000_0000_0000_0000_0000_0000 * x7
    + 0x1000_0000_0000_0000_0000_0000_0000_0000_0000_0000_0000_0000_0000 * x8
    + 0x40_0000_0000_0000_0000_0000_0000_0000_0000_0000_0000_0000_0000_0000_0000 * x9
  }

  ghost predicate Near(x: int32, b: int) { -b <= 100 * (x as int) <= b }

  const TIGHT: int := 101
  const LOOSE: int := 330

  lemma WithinMono(f: Ten, m: int, n: int)
    requires m <= n && f.Within(m)
    ensures f.Within(n)
  {
  }

  /** Anything within a smaller bound is within LOOSE. */
  lemma Loosen(n: int)
    requires n <= LOOSE
    ensures forall f: Ten :: f.Within(n) ==> f.Within(LOOSE)
  {
    forall f: Ten | f.Within(n) ensures f.Within(LOOSE) {
      WithinMono(f, n, LOOSE);
    }
  }

  predicate IsFe(f: array<int32>) { f.Length == 10 }

  function Load(f: array<int32>): Ten
    requires IsFe(f)
    reads f
  {
    Ten(f[0], f[1], f[2], f[3], f[4], f[5], f[6], f[7], f[8], f[9])
  }

  /** The residue an element stands for. */
  ghost function Fm(f: array<int32>): int
    requires IsFe(f)
    reads f
  {
    Mod(Load(f).Val())
  }

  ghost predicate Bound(f: array<int32>, n: int)
    requires IsFe(f)
    reads f
  {
    Load(f).Within(n)
  }

  lemma Loose(f: array<int32>, n: int)
    requires IsFe(f) && Bound(f, n) && n <= LOOSE
    ensures Bound(f, LOOSE)
  {
    WithinMono(Load(f), n, LOOSE);
  }

  /** The ten closing stores of every routine. */
  method Store(h: array<int32>, t: Ten)
    requires IsFe(h)
    modifies h
    ensures Load(h) == t
  {
    h[0] := t.x0; h[1] := t.x1; h[2] := t.x2; h[3] := t.x3; h[4] := t.x4;
    h[5] := t.x5; h[6] := t.x6; h[7] := t.x7; h[8] := t.x8; h[9] := t.x9;
  }
}
