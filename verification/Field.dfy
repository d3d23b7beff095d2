/** Arithmetic modulo 2^255 - 19 on residues, the specification that the limb code refines. */
module Field {
  const P: int := 0x7fff_ffff_ffff_ffff_ffff_ffff_ffff_ffff_ffff_ffff_ffff_ffff_ffff_ffff_ffff_ffed

  /** a modulo P. The detour through Delayed changes nothing in the value: it keeps the solver, which unfolds a
      recursion only a few times, from dividing wherever a residue is mentioned. ModIs divides on demand. */
  function Mod(a: int): (r: int)
    ensures 0 <= r < P
  {
    Delayed(a, |[a, a, a, a]|)
  }

  function Delayed(a: int, n: nat): (r: int)
    ensures 0 <= r < P
  {
    if n == 0 then a % P else Delayed(a, n - 1)
  }

  lemma {:induction false} DelayedIs(a: int, n: nat)
    ensures Delayed(a, n) == a % P
  {
    if n > 0 {
      DelayedIs(a, n - 1);
    }
  }

  lemma ModIs(a: int)
    ensures Mod(a) == a % P
  {
    DelayedIs(a, |[a, a, a, a]|);
  }

  function FAdd(a: int, b: int): int { Mod(a + b) }

  function FSub(a: int, b: int): int { Mod(a - b) }

  function FMul(a: int, b: int): int { Mod(a * b) }

  function FNeg(a: int): int { Mod(-a) }

  predicate IsResidue(a: int) { 0 <= a < P }

  function FPow(z: int, n: nat): (r: int)
    ensures IsResidue(r)
  {
    if n == 0 then 1 else FMul(z, FPow(z, n - 1))
  }

  /** Equality modulo P, kept as a name so that the solver does not expand it. */
  ghost predicate Cong(a: int, b: int) { Mod(a) == Mod(b) }

  lemma CongWitness(a: int, b: int, k: int)
    requires a == b + P * k
    ensures Cong(a, b)
  {
    ModIs(a);
    ModIs(b);
  }

  lemma CongQuotient(a: int, b: int) returns (k: int)
    requires Cong(a, b)
    ensures a == b + P * k
  {
    ModIs(a);
    ModIs(b);
    k := a / P - b / P;
  }

  lemma CongMod(a: int)
    ensures Cong(Mod(a), a)
  {
    ModIs(a);
    CongWitness(Mod(a), a, -(a / P));
  }

  lemma CongAdd(a: int, b: int, c: int, d: int)
    requires Cong(a, b) && Cong(c, d)
    ensures Cong(a + c, b + d) && Cong(a - c, b - d)
  {
    var k := CongQuotient(a, b);
    var l := CongQuotient(c, d);
    CongWitness(a + c, b + d, k + l);
    CongWitness(a - c, b - d, k - l);
  }

  lemma Factor(k: int, c: int, b: int, l: int)
    ensures (P * k) * c + b * (P * l) == P * (k * c + b * l)
  {
  }

  lemma CongMul(a: int, b: int, c: int, d: int)
    requires Cong(a, b) && Cong(c, d)
    ensures Cong(a * c, b * d)
  {
    var k := CongQuotient(a, b);
    var l := CongQuotient(c, d);
    var m := k * c + b * l;
    Factor(k, c, b, l);
    assert a * c == (b + P * k) * c == b * c + (P * k) * c;
    assert b * c == b * (d + P * l) == b * d + b * (P * l);
    CongWitness(a * c, b * d, m);
  }

  lemma ResidueUnique(a: int, b: int)
    requires IsResidue(a) && IsResidue(b) && Cong(a, b)
    ensures a == b
  {
    ModIs(a);
    ModIs(b);
  }

  lemma ResidueMod(a: int)
    requires IsResidue(a)
    ensures Mod(a) == a
  {
    ModIs(a);
  }

  /** The field operations do not depend on the representative of an operand. */
  lemma FOpsReduce(a: int, b: int)
    ensures FAdd(Mod(a), Mod(b)) == Mod(a + b)
    ensures FSub(Mod(a), Mod(b)) == Mod(a - b)
    ensures FMul(Mod(a), Mod(b)) == Mod(a * b)
    ensures FNeg(Mod(a)) == Mod(-a)
  {
    CongMod(a);
    CongMod(b);
    CongAdd(Mod(a), a, Mod(b), b);
    CongMul(Mod(a), a, Mod(b), b);
    CongAdd(0, 0, Mod(a), a);
  }

  lemma FMulAssoc(a: int, b: int, c: int)
    ensures FMul(FMul(a, b), c) == FMul(a, FMul(b, c))
  {
    CongMod(a * b);
    CongMod(b * c);
    CongMul(FMul(a, b), a * b, c, c);
    CongMul(a, a, FMul(b, c), b * c);
    assert (a * b) * c == a * (b * c);
  }

  lemma {:induction false} FPowAdds(z: int, m: nat, n: nat)
    ensures FPow(z, m + n) == FMul(FPow(z, m), FPow(z, n))
  {
    hide Mod;
    if m == 0 {
      assert FPow(z, 0) == 1;
      ResidueMod(FPow(z, n));
    } else {
      FPowAdds(z, m - 1, n);
      FMulAssoc(z, FPow(z, m - 1), FPow(z, n));
    }
  }

  lemma {:induction false} FPowOne(z: int)
    requires IsResidue(z)
    ensures FPow(z, 1) == z
  {
    assert FPow(z, 0) == 1;
    ResidueMod(z);
  }
}
