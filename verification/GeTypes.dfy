/** The point structures of ge.h. Each embeds its field elements, so they never overlap. */
module GeTypes {
  import opened Words
  import opened Limbs
  import opened Edwards
  import opened Coordinates

  /** Bounds of completed points: sums and differences of up to three multiplication results. */
  const TRIPLE: int := 303
  const DOUBLE: int := 202

  /** (X:Y:Z) with x = X/Z, y = Y/Z. */
  class GeP2 {
    const X: array<int32>
    const Y: array<int32>
    const Z: array<int32>

    ghost predicate Ok()
    {
      IsFe(X) && IsFe(Y) && IsFe(Z)
      && X != Y && X != Z && Y != Z
    }

    ghost function Repr(): set<object>
    {
      {X, Y, Z}
    }

    constructor ()
      ensures Ok() && fresh(Repr())
    {
      X := new int32[10];
      Y := new int32[10];
      Z := new int32[10];
    }

    ghost predicate Bounded()
      requires Ok()
      reads X, Y, Z
    {
      Bound(X, TIGHT) && Bound(Y, TIGHT) && Bound(Z, TIGHT)
    }

    /** This structure holds the point a. */
    ghost predicate Holds(a: Pt)
      requires Ok()
      reads X, Y, Z
    {
      Bounded() && IsP2(Fm(X), Fm(Y), Fm(Z), a)
    }
  }

  /** (X:Y:Z:T) with x = X/Z, y = Y/Z, XY = ZT. */
  class GeP3 {
    const X: array<int32>
    const Y: array<int32>
    const Z: array<int32>
    const T: array<int32>

    ghost predicate Ok()
    {
      IsFe(X) && IsFe(Y) && IsFe(Z) && IsFe(T)
      && X != Y && X != Z && X != T && Y != Z && Y != T && Z != T
    }

    ghost function Repr(): set<object>
    {
      {X, Y, Z, T}
    }

    constructor ()
      ensures Ok() && fresh(Repr())
    {
      X := new int32[10];
      Y := new int32[10];
      Z := new int32[10];
      T := new int32[10];
    }

    ghost function View(): Quad
      requires Ok()
      reads X, Y, Z, T
    {
      Quad(Fm(X), Fm(Y), Fm(Z), Fm(T))
    }

    ghost predicate Bounded()
      requires Ok()
      reads X, Y, Z, T
    {
      Bound(X, TIGHT) && Bound(Y, TIGHT) && Bound(Z, TIGHT) && Bound(T, TIGHT)
    }

    ghost predicate Holds(a: Pt)
      requires Ok()
      reads X, Y, Z, T
    {
      Bounded() && IsP3(View(), a)
    }
  }

  /** ((X:Z),(Y:T)) with x = X/Z, y = Y/T. */
  class GeP1P1 {
    const X: array<int32>
    const Y: array<int32>
    const Z: array<int32>
    const T: array<int32>

    ghost predicate Ok()
    {
      IsFe(X) && IsFe(Y) && IsFe(Z) && IsFe(T)
      && X != Y && X != Z && X != T && Y != Z && Y != T && Z != T
    }

    ghost function Repr(): set<object>
    {
      {X, Y, Z, T}
    }

    constructor ()
      ensures Ok() && fresh(Repr())
    {
      X := new int32[10];
      Y := new int32[10];
      Z := new int32[10];
      T := new int32[10];
    }

    ghost function View(): Quad
      requires Ok()
      reads X, Y, Z, T
    {
      Quad(Fm(X), Fm(Y), Fm(Z), Fm(T))
    }

    ghost predicate Bounded()
      requires Ok()
      reads X, Y, Z, T
    {
      Bound(X, TRIPLE) && Bound(Y, TRIPLE) && Bound(Z, TRIPLE) && Bound(T, TRIPLE)
    }

    ghost predicate Holds(a: Pt)
      requires Ok()
      reads X, Y, Z, T
    {
      Bounded() && IsP1P1(View(), a)
    }
  }

  /** (Y+X, Y-X, Z, 2dT). */
  class GeCached {
    const YplusX: array<int32>
    const YminusX: array<int32>
    const Z: array<int32>
    const T2d: array<int32>

    ghost predicate Ok()
    {
      IsFe(YplusX) && IsFe(YminusX) && IsFe(Z) && IsFe(T2d)
      && YplusX != YminusX && YplusX != Z && YplusX != T2d && YminusX != Z && YminusX != T2d && Z != T2d
    }

    ghost function Repr(): set<object>
    {
      {YplusX, YminusX, Z, T2d}
    }

    constructor ()
      ensures Ok() && fresh(Repr())
    {
      YplusX := new int32[10];
      YminusX := new int32[10];
      Z := new int32[10];
      T2d := new int32[10];
    }

    ghost function View(): Quad
      requires Ok()
      reads YplusX, YminusX, Z, T2d
    {
      Quad(Fm(YplusX), Fm(YminusX), Fm(Z), Fm(T2d))
    }

    ghost predicate Bounded()
      requires Ok()
      reads YplusX, YminusX, Z, T2d
    {
      Bound(YplusX, DOUBLE) && Bound(YminusX, DOUBLE) && Bound(Z, TIGHT) && Bound(T2d, TIGHT)
    }

    ghost predicate Holds(a: Pt)
      requires Ok()
      reads YplusX, YminusX, Z, T2d
    {
      Bounded() && IsCached(View(), a)
    }
  }

  /** (y+x, y-x, 2dxy). */
  class GePrecomp {
    const yplusx: array<int32>
    const yminusx: array<int32>
    const xy2d: array<int32>

    ghost predicate Ok()
    {
      IsFe(yplusx) && IsFe(yminusx) && IsFe(xy2d)
      && yplusx != yminusx && yplusx != xy2d && yminusx != xy2d
    }

    ghost function Repr(): set<object>
    {
      {yplusx, yminusx, xy2d}
    }

    constructor ()
      ensures Ok() && fresh(Repr())
    {
      yplusx := new int32[10];
      yminusx := new int32[10];
      xy2d := new int32[10];
    }

    ghost function View(): Quad
      requires Ok()
      reads yplusx, yminusx, xy2d
    {
      Quad(Fm(yplusx), Fm(yminusx), 1, Fm(xy2d))
    }

    ghost predicate Bounded()
      requires Ok()
      reads yplusx, yminusx, xy2d
    {
      Bound(yplusx, TIGHT) && Bound(yminusx, TIGHT) && Bound(xy2d, TIGHT)
    }

    ghost predicate Holds(a: Pt)
      requires Ok()
      reads yplusx, yminusx, xy2d
    {
      Bounded() && IsCached(View(), a)
    }
  }
}
