/** ge_double_scalarmult_vartime (ge.c). */
module DoubleScalar {
  import opened Words
  import opened Limbs
  import opened Edwards
  import opened Multiples
  import opened Coordinates
  import opened GeTypes
  import opened Ge
  import opened GePoints
  import opened BasePoint
  import opened Recoding
  import opened PointBytes
  import opened Slide

  /** A table of cached points that do not overlap; S covers their locations. */
  ghost predicate Inside(t: seq<GeCached>, S: set<object>)
  {
    && (forall k :: 0 <= k < |t| ==> t[k].Ok() && t[k].Repr() <= S)
    && (forall j, k :: 0 <= j < k < |t| ==> t[j].Repr() !! t[k].Repr())
  }

  /** The first n entries are p, 3p, 5p, .. */
  ghost predicate OddMultiples(t: seq<GeCached>, S: set<object>, n: nat, p: Pt)
    requires n <= |t| && Inside(t, S)
    reads S
  {
    forall k :: 0 <= k < n ==> t[k].Holds(ZMul(2 * k + 1, p))
  }

  ghost predicate PrecompInside(t: seq<GePrecomp>, S: set<object>)
  {
    forall k :: 0 <= k < |t| ==> t[k].Ok() && t[k].Repr() <= S
  }

  /** The table of odd multiples of the base point that precomp_data.h holds. */
  ghost predicate BaseTable(t: seq<GePrecomp>, S: set<object>)
    reads S
  {
    |t| == 8 && PrecompInside(t, S) && forall k :: 0 <= k < 8 ==> t[k].Holds(ZMul(2 * k + 1, BASE))
  }

  method NewTable() returns (t: seq<GeCached>, ghost S: set<object>)
    ensures |t| == 8 && Inside(t, S) && fresh(S)
  {
    t := [];
    S := {};
    for i := 0 to 8
      invariant |t| == i && Inside(t, S) && fresh(S)
    {
      var c := new GeCached();
      t := t + [c];
      S := S + c.Repr();
    }
  }

  lemma NextOdd(k: nat, p: Pt)
    requires Ed25519Holds() && OnCurve(p)
    ensures Add(Add(p, p), ZMul(2 * k + 1, p)) == ZMul(2 * k + 3, p)
  {
    hide Add, OnCurve, Ed25519Holds, ZMul;
    ZMulOnCurve(2 * k + 1, p);
    Associate(p, p, ZMul(2 * k + 1, p));
    ZMulSucc(2 * k + 1, p);
    ZMulSucc(2 * k + 2, p);
  }

  /** ge_p3_to_cached into entry k. */
  method StoreEntry(Ai: seq<GeCached>, ghost S: set<object>, k: nat, u: GeP3, ghost p: Pt)
    requires Inside(Ai, S) && k < |Ai| && OddMultiples(Ai, S, k, p)
    requires u.Ok() && u.Repr() !! S && u.Holds(ZMul(2 * k + 1, p))
    modifies S
    ensures OddMultiples(Ai, S, k + 1, p)
  {
    hide IsP3, IsCached, Fm, Bound, ZMul;
    assert u.Repr() !! Ai[k].Repr();
    Cache(Ai[k], u, ZMul(2 * k + 1, p));
    assert forall j :: 0 <= j < k ==> Ai[j].Repr() !! Ai[k].Repr();
  }

  /** ge_add and ge_p1p1_to_p3: u = 2A + (2k+1)A. */
  method NextMultiple(u: GeP3, A2: GeP3, q: GeCached, ghost k: nat, ghost p: Pt)
    requires Ed25519Holds() && OnCurve(p) && u.Ok() && A2.Ok()
    requires q.Ok() && u.Repr() !! A2.Repr() && u.Repr() !! q.Repr()
    requires A2.Holds(Add(p, p)) && q.Holds(ZMul(2 * k + 1, p))
    modifies u.Repr()
    ensures u.Holds(ZMul(2 * k + 3, p))
  {
    hide Add, OnCurve, FieldInverses, CurveGroup, ZMul, IsP3, IsP1P1, IsCached, Fm, Bound;
    var t := new GeP1P1();
    AddTo(t, A2, q, Add(p, p), ZMul(2 * k + 1, p));
    NextOdd(k, p);
    Extend(u, t, ZMul(2 * k + 3, p));
  }

  lemma NoMultiples(Ai: seq<GeCached>, S: set<object>, p: Pt)
    requires Inside(Ai, S)
    ensures OddMultiples(Ai, S, 0, p)
  {
  }

  method NextEntry(Ai: seq<GeCached>, ghost S: set<object>, k: nat, u: GeP3, A2: GeP3, ghost p: Pt)
    requires Ed25519Holds() && OnCurve(p) && Inside(Ai, S) && k + 1 < |Ai| && OddMultiples(Ai, S, k + 1, p)
    requires u.Ok() && A2.Ok() && u.Repr() !! A2.Repr() && u.Repr() !! S && A2.Repr() !! S && A2.Holds(Add(p, p))
    modifies u.Repr(), S
    ensures OddMultiples(Ai, S, k + 2, p) && A2.Holds(Add(p, p))
  {
    hide Add, OnCurve, FieldInverses, CurveGroup, ZMul, IsP3, IsCached, Fm, Bound;
    assert Ai[k].Repr() <= S;
    NextMultiple(u, A2, Ai[k], k, p);
    StoreEntry(Ai, S, k + 1, u, p);
  }

  /** Ai = A, 3A, 5A, .., 15A. The source unrolls the loop. */
  method Precompute(Ai: seq<GeCached>, ghost S: set<object>, A: GeP3, ghost p: Pt)
    requires Ed25519Holds() && |Ai| == 8 && Inside(Ai, S) && A.Ok() && A.Repr() !! S && A.Holds(p)
    modifies S
    ensures OddMultiples(Ai, S, 8, p)
  {
    hide Add, OnCurve, FieldInverses, CurveGroup, ZMul, IsP3, Fm, Bound, OddMultiples;
    var A2 := new GeP3();
    assert OnCurve(p) by { PointOnCurve(A.View(), p); }
    ZMulOne(p);
    assert OddMultiples(Ai, S, 0, p) by { NoMultiples(Ai, S, p); }
    StoreEntry(Ai, S, 0, A, p);
    TwiceExtended(A2, A, p);
    var u := new GeP3();
    for k := 0 to 7
      invariant OddMultiples(Ai, S, k + 1, p) && A2.Holds(Add(p, p))
    {
      NextEntry(Ai, S, k, u, A2, p);
    }
  }

  method TwiceExtended(A2: GeP3, A: GeP3, ghost p: Pt)
    requires Ed25519Holds() && A.Ok() && A2.Ok() && A.Repr() !! A2.Repr() && A.Holds(p)
    modifies A2.Repr()
    ensures A2.Holds(Add(p, p))
  {
    hide Add, OnCurve, FieldInverses, CurveGroup, IsP3, IsP1P1, Fm, Bound;
    var t := new GeP1P1();
    DoubleExtended(t, A, p);
    Extend(A2, t, Add(p, p));
  }

  lemma PointOnCurve(q: Quad, a: Pt)
    requires IsP3(q, a)
    ensures OnCurve(a)
  {
  }

  lemma NegativeMultiple(d: int, p: Pt)
    requires d < 0
    ensures Neg(ZMul(-d, p)) == ZMul(d, p)
  {
  }

  /** The step for one digit of a: t = t + d p, by table lookup. */
  method AddDigit(t: GeP1P1, u: GeP3, Ai: seq<GeCached>, ghost S: set<object>, d: int8, ghost q: Pt, ghost p: Pt)
    requires Ed25519Holds() && OnCurve(q) && t.Ok() && u.Ok() && t.Repr() !! u.Repr()
    requires |Ai| == 8 && Inside(Ai, S) && OddMultiples(Ai, S, 8, p) && S !! t.Repr() && S !! u.Repr()
    requires t.Holds(q) && Usable(d)
    modifies t.Repr(), u.Repr()
    ensures t.Holds(Add(q, ZMul(d as int, p)))
  {
    hide Add, Neg, OnCurve, FieldInverses, CurveGroup, ZMul, IsP3, IsP1P1, IsCached, Fm, Bound;
    if d > 0 {
      var k := (d / 2) as nat;
      AddStep(t, u, Ai[k], q, ZMul(2 * k + 1, p));
    } else if d < 0 {
      var k := (-d / 2) as nat;
      SubStep(t, u, Ai[k], q, ZMul(2 * k + 1, p));
      NegativeMultiple(d as int, p);
    } else {
      ZMulZero(p);
      AddZero(q);
    }
  }

  /** The step for one digit of b: t = t + d B. */
  method MaddDigit(t: GeP1P1, u: GeP3, Bi: seq<GePrecomp>, ghost S: set<object>, d: int8, ghost q: Pt)
    requires Ed25519Holds() && OnCurve(q) && t.Ok() && u.Ok() && t.Repr() !! u.Repr()
    requires BaseTable(Bi, S) && S !! t.Repr() && S !! u.Repr()
    requires t.Holds(q) && Usable(d)
    modifies t.Repr(), u.Repr()
    ensures t.Holds(Add(q, ZMul(d as int, BASE)))
  {
    hide Add, Neg, OnCurve, FieldInverses, CurveGroup, ZMul, IsP3, IsP1P1, IsCached, Fm, Bound;
    if d > 0 {
      var k := (d / 2) as nat;
      MaddStep(t, u, Bi[k], q, ZMul(2 * k + 1, BASE));
    } else if d < 0 {
      var k := (-d / 2) as nat;
      MsubStep(t, u, Bi[k], q, ZMul(2 * k + 1, BASE));
      NegativeMultiple(d as int, BASE);
    } else {
      ZMulZero(BASE);
      AddZero(q);
    }
  }

  /** m p + n B */
  ghost function Combo(m: int, n: int, p: Pt): Pt { Add(ZMul(m, p), ZMul(n, BASE)) }

  lemma ComboOnCurve(m: int, n: int, p: Pt)
    requires Ed25519Holds() && OnCurve(p)
    ensures OnCurve(Combo(m, n, p)) && OnCurve(ZMul(m, p)) && OnCurve(ZMul(n, BASE))
  {
    hide Add, OnCurve, Ed25519Holds, ZMul;
    AboutBase();
    ZMulOnCurve(m, p);
    ZMulOnCurve(n, BASE);
    Closed(ZMul(m, p), ZMul(n, BASE));
  }

  lemma ComboZero(p: Pt)
    requires Ed25519Holds()
    ensures Combo(0, 0, p) == ZERO
  {
    hide Add, OnCurve, Ed25519Holds, ZMul;
    ZMulZero(p);
    ZMulZero(BASE);
    ZeroOnCurve();
    AddZero(ZERO);
  }

  lemma ComboDouble(m: int, n: int, p: Pt)
    requires Ed25519Holds() && OnCurve(p)
    ensures Add(Combo(m, n, p), Combo(m, n, p)) == Combo(2 * m, 2 * n, p)
  {
    hide Add, OnCurve, Ed25519Holds, ZMul;
    AboutBase();
    ComboOnCurve(m, n, p);
    Add4(ZMul(m, p), ZMul(n, BASE), ZMul(m, p), ZMul(n, BASE));
    ZMulAdds(m, m, p);
    ZMulAdds(n, n, BASE);
  }

  lemma ComboAddFirst(m: int, n: int, d: int, p: Pt)
    requires Ed25519Holds() && OnCurve(p)
    ensures Add(Combo(m, n, p), ZMul(d, p)) == Combo(m + d, n, p)
  {
    hide Add, OnCurve, Ed25519Holds, ZMul;
    ComboOnCurve(m, n, p);
    ComboOnCurve(d, n, p);
    Associate(ZMul(m, p), ZMul(n, BASE), ZMul(d, p));
    AddComm(ZMul(n, BASE), ZMul(d, p));
    Associate(ZMul(m, p), ZMul(d, p), ZMul(n, BASE));
    ZMulAdds(m, d, p);
  }

  lemma ComboAddSecond(m: int, n: int, e: int, p: Pt)
    requires Ed25519Holds() && OnCurve(p)
    ensures Add(Combo(m, n, p), ZMul(e, BASE)) == Combo(m, n + e, p)
  {
    hide Add, OnCurve, Ed25519Holds, ZMul;
    AboutBase();
    ComboOnCurve(m, n, p);
    ComboOnCurve(m, e, p);
    Associate(ZMul(m, p), ZMul(n, BASE), ZMul(e, BASE));
    ZMulAdds(n, e, BASE);
  }

  /** One turn of the window loop: from m p + n B to (2m + d) p + (2n + e) B. */
  method HornerStep(r: GeP2, t: GeP1P1, u: GeP3, Ai: seq<GeCached>, ghost S: set<object>, Bi: seq<GePrecomp>,
                    ghost SB: set<object>, d: int8, e: int8, ghost m: int, ghost n: int, ghost p: Pt)
    requires Ed25519Holds() && OnCurve(p) && r.Ok() && t.Ok() && u.Ok()
    requires r.Repr() !! t.Repr() && r.Repr() !! u.Repr() && t.Repr() !! u.Repr()
    requires |Ai| == 8 && Inside(Ai, S) && OddMultiples(Ai, S, 8, p) && S !! t.Repr() && S !! u.Repr() && S !! r.Repr()
    requires BaseTable(Bi, SB) && SB !! t.Repr() && SB !! u.Repr() && SB !! r.Repr()
    requires Usable(d) && Usable(e) && r.Holds(Combo(m, n, p))
    modifies r.Repr(), t.Repr(), u.Repr()
    ensures r.Holds(Combo(2 * m + d as int, 2 * n + e as int, p))
  {
    hide Add, OnCurve, FieldInverses, CurveGroup, ZMul, IsP2, IsP1P1, Fm, Bound, OddMultiples, BaseTable, Inside, Combo;
    DoubleStep(t, r, Combo(m, n, p));
    ComboDouble(m, n, p);
    ComboOnCurve(2 * m, 2 * n, p);
    AddDigit(t, u, Ai, S, d, Combo(2 * m, 2 * n, p), p);
    ComboAddFirst(2 * m, 2 * n, d as int, p);
    ComboOnCurve(2 * m + d as int, 2 * n, p);
    MaddDigit(t, u, Bi, SB, e, Combo(2 * m + d as int, 2 * n, p));
    ComboAddSecond(2 * m + d as int, 2 * n, e as int, p);
    Project(r, t, Combo(2 * m + d as int, 2 * n + e as int, p));
  }

  lemma DigitsStep(s: seq<int8>, i: nat)
    requires i < |s|
    ensures Digits(s[i..], 2) == s[i] as int + 2 * Digits(s[i + 1..], 2)
  {
    assert s[i..][1..] == s[i + 1..];
  }

  lemma TopIsPow()
    ensures Pow(2, 255) == TOP
  {
    hide Pow, Pow2;
    Pow2IsPow(255);
    TopWeight();
    Pow2Adds(248, 7);
  }

  method OddTable(A: GeP3, ghost p: Pt) returns (Ai: seq<GeCached>, ghost S: set<object>)
    requires Ed25519Holds() && A.Ok() && A.Holds(p)
    ensures |Ai| == 8 && fresh(S) && Inside(Ai, S) && OddMultiples(Ai, S, 8, p) && OnCurve(p)
  {
    hide Add, OnCurve, FieldInverses, CurveGroup, ZMul, IsP3, Fm, Bound, OddMultiples, Inside;
    Ai, S := NewTable();
    assert OnCurve(p) by { PointOnCurve(A.View(), p); }
    Precompute(Ai, S, A, p);
  }

  /** ge_double_scalarmult_vartime: r = a A + b B for all a, b below 2^255. */
  method GeDoubleScalarMult(r: GeP2, a: seq<byte>, A: GeP3, b: seq<byte>, Bi: seq<GePrecomp>, ghost SB: set<object>,
                            ghost p: Pt)
    requires Ed25519Holds() && r.Ok() && A.Ok() && A.Holds(p) && BaseTable(Bi, SB)
    requires r.Repr() !! A.Repr() && SB !! r.Repr()
    requires |a| == 32 && |b| == 32 && LittleEndian(a) < TOP && LittleEndian(b) < TOP
    modifies r.Repr()
    ensures r.Holds(Add(ZMul(LittleEndian(a), p), ZMul(LittleEndian(b), BASE)))
  {
    hide Add, OnCurve, FieldInverses, CurveGroup, ZMul, IsP2, IsP3, Fm, Bound, OddMultiples, BaseTable, Inside, Combo,
         LittleEndian, Digits, Pow;
    var aslide, bslide := new int8[256], new int8[256];
    TopIsPow();
    Slide.Slide(aslide, a);
    Slide.Slide(bslide, b);
    var Ai;
    ghost var S;
    Ai, S := OddTable(A, p);
    GeP2Zero(r);
    ComboZero(p);
    Evaluate(r, aslide, bslide, Ai, S, Bi, SB, p);
    assert Combo(LittleEndian(a), LittleEndian(b), p) == Add(ZMul(LittleEndian(a), p), ZMul(LittleEndian(b), BASE))
           by { ComboIs(LittleEndian(a), LittleEndian(b), p); }
  }

  lemma ComboIs(m: int, n: int, p: Pt)
    ensures Combo(m, n, p) == Add(ZMul(m, p), ZMul(n, BASE))
  {
  }

  /** The window loop from digit n - 1 down: Horner evaluation of both digit strings. */
  method Horner(r: GeP2, aslide: array<int8>, bslide: array<int8>, start: nat, Ai: seq<GeCached>, ghost S: set<object>,
                Bi: seq<GePrecomp>, ghost SB: set<object>, ghost p: Pt)
    requires Ed25519Holds() && OnCurve(p) && r.Ok() && aslide.Length == 256 && bslide.Length == 256 && start <= 256
    requires forall k :: 0 <= k < 256 ==> Usable(aslide[k]) && Usable(bslide[k])
    requires |Ai| == 8 && Inside(Ai, S) && OddMultiples(Ai, S, 8, p) && S !! r.Repr()
    requires BaseTable(Bi, SB) && SB !! r.Repr()
    requires r.Holds(Combo(Digits(aslide[start..], 2), Digits(bslide[start..], 2), p))
    modifies r.Repr()
    ensures r.Holds(Combo(Value(aslide), Value(bslide), p))
  {
    hide Add, OnCurve, FieldInverses, CurveGroup, IsP2, Fm, Bound, OddMultiples, BaseTable, Inside, Combo, Digits,
         Usable;
    var t := new GeP1P1();
    var u := new GeP3();
    ghost var x, y := aslide[..], bslide[..];
    var n: nat := start;
    while n > 0
      invariant n <= 256 && r.Holds(Combo(Digits(x[n..], 2), Digits(y[n..], 2), p))
    {
      n := n - 1;
      DigitsStep(x, n);
      DigitsStep(y, n);
      HornerStep(r, t, u, Ai, S, Bi, SB, aslide[n], bslide[n], Digits(x[n + 1..], 2), Digits(y[n + 1..], 2), p);
    }
    assert x[0..] == x && y[0..] == y;
  }

  /** The two loops: skip the leading zero digits, then evaluate. */
  method Evaluate(r: GeP2, aslide: array<int8>, bslide: array<int8>, Ai: seq<GeCached>, ghost S: set<object>,
                  Bi: seq<GePrecomp>, ghost SB: set<object>, ghost p: Pt)
    requires Ed25519Holds() && OnCurve(p) && r.Ok() && aslide.Length == 256 && bslide.Length == 256
    requires forall k :: 0 <= k < 256 ==> Usable(aslide[k]) && Usable(bslide[k])
    requires |Ai| == 8 && Inside(Ai, S) && OddMultiples(Ai, S, 8, p) && S !! r.Repr()
    requires BaseTable(Bi, SB) && SB !! r.Repr()
    requires r.Holds(Combo(0, 0, p))
    modifies r.Repr()
    ensures r.Holds(Combo(Value(aslide), Value(bslide), p))
  {
    hide *;
    var i := SkipZeros(aslide, bslide);
    DigitsZero(aslide[i + 1..], 2);
    DigitsZero(bslide[i + 1..], 2);
    Horner(r, aslide, bslide, i + 1, Ai, S, Bi, SB, p);
  }

  /** The position of the highest digit that is not zero in both strings, -1 without one. */
  method SkipZeros(aslide: array<int8>, bslide: array<int8>) returns (i: int)
    requires aslide.Length == 256 && bslide.Length == 256
    ensures -1 <= i < 256 && forall k :: i < k < 256 ==> aslide[k] == 0 && bslide[k] == 0
    ensures i >= 0 ==> aslide[i] != 0 || bslide[i] != 0
  {
    i := 255;
    while i >= 0 && aslide[i] == 0 && bslide[i] == 0
      invariant -1 <= i < 256
      invariant forall k :: i < k < 256 ==> aslide[k] == 0 && bslide[k] == 0
    {
      i := i - 1;
    }
  }
}
