/** Arbitrary sequences of point operations: without any hypothesis about the curve, no operand that reaches fe_mul,
    fe_sq or fe_sq2 leaves its bound, because every operation keeps the bounds of its structure. */
module GeSequences {
  import opened Words
  import opened Limbs
  import opened Edwards
  import opened GeTypes
  import opened Ge
  import opened PointDecode

  /** Decoding into a fresh structure that replaces p on success. */
  method DecodeInto(p: GeP3, s: seq<byte>)
    requires p.Ok() && p.Bounded() && |s| == 32
    modifies p.Repr()
    ensures p.Bounded()
  {
    hide Fm, Bound;
    var h := new GeP3();
    var ok := GeFromBytesNegate(h, s);
    if ok == 0 {
      CopyPoint(p, h);
    }
  }

  method ResetP2(p: GeP2)
    requires p.Ok()
    modifies p.Repr()
    ensures p.Bounded()
  {
    GeP2Zero(p);
  }

  method ResetP3(p: GeP3)
    requires p.Ok()
    modifies p.Repr()
    ensures p.Bounded()
  {
    GeP3Zero(p);
  }

  datatype Operation =
    | Zero2 | Zero3 | Decode(s: seq<byte>)
    | Add | Sub | Madd | Msub
    | Double2 | Double3 | ToP2 | ToP3 | ToCached | P3ToP2

  /** One structure of each kind. */
  class Registers {
    const p2: GeP2
    const p3: GeP3
    const r: GeP1P1
    const c: GeCached
    const m: GePrecomp

    ghost predicate Ok()
    {
      && p2.Ok() && p3.Ok() && r.Ok() && c.Ok() && m.Ok()
      && p2.Repr() !! p3.Repr() && p2.Repr() !! r.Repr() && p3.Repr() !! r.Repr() && p3.Repr() !! c.Repr()
      && r.Repr() !! c.Repr()
      && p2.Repr() !! c.Repr() && m.Repr() !! p2.Repr() && m.Repr() !! p3.Repr() && m.Repr() !! r.Repr()
      && m.Repr() !! c.Repr()
    }

    ghost function Places(): set<object> { p2.Repr() + p3.Repr() + r.Repr() + c.Repr() }

    ghost predicate Bounded()
      requires Ok()
      reads Places(), m.Repr()
    {
      p2.Bounded() && p3.Bounded() && r.Bounded() && c.Bounded() && m.Bounded()
    }

    constructor (p2: GeP2, p3: GeP3, r: GeP1P1, c: GeCached, m: GePrecomp)
      ensures this.p2 == p2 && this.p3 == p3 && this.r == r && this.c == c && this.m == m
    {
      this.p2, this.p3, this.r, this.c, this.m := p2, p3, r, c, m;
    }

    /** One operation. A decoding that fails leaves the old point. */
    method Step(op: Operation)
      requires Ok() && Bounded() && (op.Decode? ==> |op.s| == 32)
      modifies Places()
      ensures Bounded()
    {
      hide Fm, GeP2.Bounded, GeP3.Bounded, GeP1P1.Bounded, GeCached.Bounded, GePrecomp.Bounded, GeP2.Holds, GeP3.Holds;
      hide GeP1P1.View, GeP3.View, GeCached.View, GePrecomp.View;
      match op
      case Zero2 => ResetP2(p2);
      case Zero3 => ResetP3(p3);
      case Decode(s) => LoadPoint(s);
      case Add | Sub | Madd | Msub | Double2 | Double3 => Complete(op);
      case ToP2 => GeP1P1ToP2(p2, r);
      case ToP3 => GeP1P1ToP3(p3, r);
      case ToCached => GeP3ToCached(c, p3);
      case P3ToP2 => GeP3ToP2(p2, p3);
    }

    /** The operations that leave a completed point. */
    method Complete(op: Operation)
      requires Ok() && Bounded()
      modifies r.Repr()
      ensures Bounded()
    {
      hide Fm, GeP2.Bounded, GeP3.Bounded, GeP1P1.Bounded, GeCached.Bounded, GePrecomp.Bounded, GeP2.Holds, GeP3.Holds;
      hide GeP1P1.View, GeP3.View, GeCached.View, GePrecomp.View;
      match op
      case Add => GeAdd(r, p3, c);
      case Sub => GeSub(r, p3, c);
      case Madd => GeMadd(r, p3, m);
      case Msub => GeMsub(r, p3, m);
      case Double2 => GeP2Double(r, p2);
      case Double3 => GeP3Double(r, p3);
      case _ =>
    }

    method LoadPoint(s: seq<byte>)
      requires Ok() && Bounded() && |s| == 32
      modifies Places()
      ensures Bounded()
    {
      hide Fm, Bound;
      DecodeInto(p3, s);
    }

    /** Any sequence of operations. */
    method Run(ops: seq<Operation>)
      requires Ok() && Bounded() && forall i :: 0 <= i < |ops| ==> ops[i].Decode? ==> |ops[i].s| == 32
      modifies Places()
      ensures Bounded()
    {
      for i := 0 to |ops|
        invariant Bounded()
      {
        Step(ops[i]);
      }
    }
  }

  method Identities() returns (p2: GeP2, p3: GeP3)
    ensures fresh(p2.Repr()) && fresh(p3.Repr()) && p2.Ok() && p3.Ok() && p2.Repr() !! p3.Repr()
    ensures p2.Bounded() && p3.Bounded()
  {
    hide GeP2.Bounded, GeP3.Bounded;
    p2 := new GeP2();
    p3 := new GeP3();
    ResetP2(p2);
    ResetP3(p3);
  }

  method Derived(p2: GeP2, p3: GeP3) returns (r: GeP1P1, c: GeCached)
    requires p2.Ok() && p3.Ok() && p2.Bounded() && p3.Bounded()
    ensures fresh(r.Repr()) && fresh(c.Repr()) && r.Ok() && c.Ok() && r.Repr() !! c.Repr()
    ensures r.Bounded() && c.Bounded()
  {
    hide Fm, Bound, GeP2.Bounded, GeP3.Bounded, GeP1P1.Bounded, GeCached.Bounded;
    r := new GeP1P1();
    c := new GeCached();
    GeP2Double(r, p2);
    GeP3ToCached(c, p3);
  }

  /** Registers that hold identity points and what doubling and converting them gives; m is an entry of a table. */
  method Start(m: GePrecomp) returns (s: Registers)
    requires m.Ok() && m.Bounded()
    ensures fresh(s) && s.Ok() && fresh(s.Places()) && s.m == m && s.Bounded()
  {
    hide GeP2.Bounded, GeP3.Bounded, GeP1P1.Bounded, GeCached.Bounded, GePrecomp.Bounded;
    var p2, p3 := Identities();
    var r, c := Derived(p2, p3);
    s := new Registers(p2, p3, r, c, m);
  }

  /** Any sequence of operations from identity points on. */
  method RunFromIdentity(m: GePrecomp, ops: seq<Operation>) returns (s: Registers)
    requires m.Ok() && m.Bounded() && forall i :: 0 <= i < |ops| ==> ops[i].Decode? ==> |ops[i].s| == 32
    ensures s.Ok() && s.Bounded()
  {
    hide Fm, Bound;
    s := Start(m);
    s.Run(ops);
  }
}
