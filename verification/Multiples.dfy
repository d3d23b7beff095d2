/** Integer multiples of curve points. */
module Multiples {
  import opened Field
  import opened Edwards

  /** a added to itself n times. */
  ghost function NMul(n: nat, a: Pt): Pt
    decreases n, a
  {
    if n == 0 then ZERO else Add(a, NMul(n - 1, a))
  }

  ghost function ZMul(n: int, a: Pt): Pt
  {
    if n >= 0 then NMul(n, a) else Neg(NMul(-n, a))
  }

  lemma {:induction false} NMulOnCurve(n: nat, a: Pt)
    requires Ed25519Holds() && OnCurve(a)
    ensures OnCurve(NMul(n, a))
  {
    ZeroOnCurve();
    if n != 0 {
      NMulOnCurve(n - 1, a);
      AddCross(a, NMul(n - 1, a));
    }
  }

  lemma ZMulOnCurve(n: int, a: Pt)
    requires Ed25519Holds() && OnCurve(a)
    ensures OnCurve(ZMul(n, a))
  {
    hide Ed25519Holds, OnCurve, Neg;
    if n >= 0 {
      NMulOnCurve(n, a);
    } else {
      NMulOnCurve(-n, a);
      NegOnCurve(NMul(-n, a));
    }
  }

  /** The four-term rearrangement that commutativity and associativity give. */
  lemma Add4(a: Pt, b: Pt, c: Pt, d: Pt)
    requires Ed25519Holds() && OnCurve(a) && OnCurve(b) && OnCurve(c) && OnCurve(d)
    ensures Add(Add(a, b), Add(c, d)) == Add(Add(a, c), Add(b, d))
  {
    hide OnCurve, Add;
    AddCross(b, c);
    AddCross(c, d);
    AddCross(b, d);
    hide FieldInverses, Cross;
    AddAssoc(a, b, Add(c, d));
    AddAssoc(b, c, d);
    AddComm(b, c);
    AddAssoc(c, b, d);
    AddAssoc(a, c, Add(b, d));
  }

  /** Adding the inverse undoes an addition. */
  lemma AddCancels(a: Pt, b: Pt)
    requires Ed25519Holds() && OnCurve(a) && OnCurve(b)
    ensures Add(Neg(a), Add(a, b)) == b
  {
    NegOnCurve(a);
    AddNeg(a);
    AddZero(b);
    hide OnCurve, Add, Neg;
    AddAssoc(Neg(a), a, b);
  }

  lemma NegAdd(a: Pt, b: Pt)
    requires Ed25519Holds() && OnCurve(a) && OnCurve(b)
    ensures Neg(Add(a, b)) == Add(Neg(a), Neg(b))
  {
    NegOnCurve(a);
    NegOnCurve(b);
    AddCross(a, b);
    NegOnCurve(Add(a, b));
    AddCross(Neg(a), Neg(b));
    AddNeg(a);
    AddNeg(b);
    AddNeg(Add(a, b));
    ZeroOnCurve();
    hide OnCurve, Add, Neg, Cross, FieldInverses;
    Add4(a, b, Neg(a), Neg(b));
    AddZero(ZERO);
    var s, n := Add(a, b), Add(Neg(a), Neg(b));
    assert Add(s, n) == ZERO;
    AddCancels(s, n);
    AddZero(Neg(s));
  }

  lemma NegNeg(a: Pt)
    requires OnCurve(a)
    ensures Neg(Neg(a)) == a
  {
    NegOnCurve(a);
    CongMod(-Neg(a).x);
    CongAdd(0, 0, Neg(a).x, -a.x);
    ResidueUnique(Neg(Neg(a)).x, a.x);
  }

  lemma NegZero()
    ensures Neg(ZERO) == ZERO
  {
    ResidueMod(0);
  }

  /** Unfolding at a negative multiple. */
  lemma ZMulBelow(n: int, a: Pt)
    requires Ed25519Holds() && OnCurve(a) && n < 0
    ensures ZMul(n + 1, a) == Neg(NMul(-n - 1, a)) && ZMul(n, a) == Add(Neg(a), Neg(NMul(-n - 1, a)))
  {
    hide OnCurve, Add, Neg, Ed25519Holds;
    var m: nat := -n - 1;
    NMulOnCurve(m, a);
    NegZero();
    NegAdd(a, NMul(m, a));
    assert NMul(m + 1, a) == Add(a, NMul(m, a));
    assert m == 0 ==> NMul(m, a) == ZERO;
  }

  /** One more copy, at any integer. */
  lemma ZMulSucc(n: int, a: Pt)
    requires Ed25519Holds() && OnCurve(a)
    ensures ZMul(n + 1, a) == Add(a, ZMul(n, a))
  {
    hide OnCurve, Add, Neg, Ed25519Holds;
    if n >= 0 {
      assert NMul(n + 1, a) == Add(a, NMul(n, a));
    } else {
      var m := -n - 1;
      ZMulBelow(n, a);
      NMulOnCurve(m, a);
      NegOnCurve(a);
      NegNeg(a);
      NegOnCurve(NMul(m, a));
      AddCancels(Neg(a), Neg(NMul(m, a)));
    }
  }

  lemma {:induction false} ZMulAdds(m: int, n: int, a: Pt)
    requires Ed25519Holds() && OnCurve(a)
    ensures ZMul(m + n, a) == Add(ZMul(m, a), ZMul(n, a))
    decreases if m >= 0 then m else -m
  {
    hide OnCurve, Add, Neg, Cross, FieldInverses, CurveGroup, ZMul, NMul, Ed25519Holds;
    ZMulOnCurve(n, a);
    if m == 0 {
      assert ZMul(0, a) == ZERO by { ZMulZero(a); }
      AddZero(ZMul(n, a));
    } else if m > 0 {
      ZMulAdds(m - 1, n, a);
      ZMulSucc(m - 1 + n, a);
      ZMulSucc(m - 1, a);
      ZMulOnCurve(m - 1, a);
      Associate(a, ZMul(m - 1, a), ZMul(n, a));
    } else {
      ZMulAdds(m + 1, n, a);
      ZMulSucc(m + n, a);
      ZMulSucc(m, a);
      ZMulOnCurve(m, a);
      ZMulOnCurve(m + n, a);
      Closed(ZMul(m, a), ZMul(n, a));
      Associate(a, ZMul(m, a), ZMul(n, a));
      AddCancels(a, ZMul(m + n, a));
      AddCancels(a, Add(ZMul(m, a), ZMul(n, a)));
    }
  }

  lemma ZMulZero(a: Pt)
    ensures ZMul(0, a) == ZERO
  {
  }

  lemma ZMulOne(a: Pt)
    requires Ed25519Holds() && OnCurve(a)
    ensures ZMul(1, a) == a
  {
    AddZero(a);
    hide Add, OnCurve, Ed25519Holds;
    assert NMul(0, a) == ZERO;
  }

  lemma Closed(a: Pt, b: Pt)
    requires Ed25519Holds() && OnCurve(a) && OnCurve(b)
    ensures OnCurve(Add(a, b))
  {
    AddCross(a, b);
  }

  lemma Associate(a: Pt, b: Pt, c: Pt)
    requires Ed25519Holds() && OnCurve(a) && OnCurve(b) && OnCurve(c)
    ensures Add(Add(a, b), c) == Add(a, Add(b, c))
  {
    AddAssoc(a, b, c);
  }

  /** Multiples of a sum. */
  lemma {:induction false} ZMulOfSum(n: int, a: Pt, b: Pt)
    requires Ed25519Holds() && OnCurve(a) && OnCurve(b)
    ensures ZMul(n, Add(a, b)) == Add(ZMul(n, a), ZMul(n, b))
    decreases if n >= 0 then n else -n
  {
    hide OnCurve, Add, Neg, Cross, FieldInverses, CurveGroup, ZMul, NMul, Ed25519Holds;
    var s := Add(a, b);
    Closed(a, b);
    if n == 0 {
      ZMulZero(a);
      ZMulZero(b);
      ZMulZero(s);
      ZeroOnCurve();
      AddZero(ZERO);
    } else if n > 0 {
      ZMulOfSum(n - 1, a, b);
      ZMulSucc(n - 1, a);
      ZMulSucc(n - 1, b);
      ZMulSucc(n - 1, s);
      ZMulOnCurve(n - 1, a);
      ZMulOnCurve(n - 1, b);
      Add4(a, b, ZMul(n - 1, a), ZMul(n - 1, b));
    } else {
      ZMulOfSum(n + 1, a, b);
      ZMulSucc(n, a);
      ZMulSucc(n, b);
      ZMulSucc(n, s);
      ZMulOnCurve(n, a);
      ZMulOnCurve(n, b);
      ZMulOnCurve(n, s);
      Add4(a, b, ZMul(n, a), ZMul(n, b));
      Closed(ZMul(n, a), ZMul(n, b));
      AddCancels(s, ZMul(n, s));
      AddCancels(s, Add(ZMul(n, a), ZMul(n, b)));
    }
  }

  /** Multiples of multiples. */
  lemma {:induction false} ZMulMul(m: int, n: int, a: Pt)
    requires Ed25519Holds() && OnCurve(a)
    ensures ZMul(m * n, a) == ZMul(m, ZMul(n, a))
    decreases if m >= 0 then m else -m
  {
    hide OnCurve, Add, Neg, Cross, FieldInverses, CurveGroup, ZMul, NMul, Ed25519Holds;
    var b := ZMul(n, a);
    ZMulOnCurve(n, a);
    if m == 0 {
      ZMulZero(a);
      ZMulZero(b);
    } else if m > 0 {
      assert m * n == n + (m - 1) * n;
      ZMulMul(m - 1, n, a);
      ZMulAdds(n, (m - 1) * n, a);
      ZMulSucc(m - 1, b);
    } else {
      assert (m + 1) * n == n + m * n;
      ZMulMul(m + 1, n, a);
      ZMulAdds(n, m * n, a);
      ZMulSucc(m, b);
      ZMulOnCurve(m * n, a);
      ZMulOnCurve(m, b);
      AddCancels(b, ZMul(m * n, a));
      AddCancels(b, ZMul(m, b));
    }
  }
}
