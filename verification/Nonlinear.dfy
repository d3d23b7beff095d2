/** Small facts about products and quotients, one nonlinear step each. */
module Nonlinear {
  lemma MulAssoc(x: int, y: int, z: int)
    ensures x * (y * z) == (x * y) * z
  {
  }

  lemma MulDistr(x: int, y: int, z: int)
    ensures x * (y + z) == x * y + x * z
    ensures (y + z) * x == y * x + z * x
  {
  }

  lemma MulLe(a: int, x: int, y: int)
    requires 0 <= a && x <= y
    ensures a * x <= a * y
  {
  }

  lemma MulAway(d: int, e: int)
    requires 0 < d
    ensures e >= 1 ==> d * e >= d
    ensures e <= -1 ==> d * e <= -d
  {
  }

  lemma DivUnique(x: int, d: int, q: int, r: int)
    requires 0 <= r < d && x == d * q + r
    ensures x / d == q && x % d == r
  {
    var q', r' := x / d, x % d;
    assert x == d * q' + r';
    MulDistr(d, q', -q);
    MulAway(d, q' - q);
  }

  lemma DivNest(x: nat, a: nat, b: nat)
    requires a > 0 && b > 0
    ensures a * b > 0 && x / (a * b) == (x / a) / b
  {
    var y, r := x / a, x % a;
    var z, t := y / b, y % b;
    MulDistr(a, b * z, t);
    MulAssoc(a, b, z);
    MulLe(a, t, b - 1);
    MulDistr(a, b, -1);
    MulAway(a, b);
    MulLe(a, 0, t);
    DivUnique(x, a * b, z, a * t + r);
  }
}
