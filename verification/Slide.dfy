/** `slide` (ge.c): in-place rewriting of 256 bits into sparse odd digits of absolute value at most 15. */
module Slide {
  import opened Words
  import opened Nonlinear
  import opened Recoding

  ghost predicate BitsFrom(s: seq<int8>, i: nat)
  {
    forall k :: i <= k < |s| ==> 0 <= s[k] <= 1
  }

  ghost predicate ZeroBetween(s: seq<int8>, i: nat, j: nat)
  {
    forall k :: i <= k < j && k < |s| ==> s[k] == 0
  }

  /** A digit the window evaluation can use: zero, or odd and at most 15 in absolute value. */
  ghost predicate Usable(d: int8) { d == 0 || (d % 2 == 1 && -15 <= d <= 15) }

  ghost function Value(r: array<int8>): int
    reads r
  {
    Digits(r[..], 2)
  }

  /** r[i] += delta */
  method AddDigit(r: array<int8>, i: nat, delta: int)
    requires i < r.Length && -0x80 <= r[i] as int + delta < 0x80
    modifies r
    ensures r[..] == old(r[..])[i := (old(r[i]) as int + delta) as int8]
    ensures Value(r) == old(Value(r)) + Pow(2, i) * delta
  {
    hide Digits, Pow;
    var d := (r[i] as int + delta) as int8;
    DigitsUpdate(r[..], i, d, 2);
    r[i] := d;
    assert r[..] == old(r[..])[i := d];
  }

  /** The innermost loop: add 2^from to the bits from that position on. `lost` says that the carry ran
      off the end of the array. */
  method Increment(r: array<int8>, from: nat) returns (ghost lost: bool)
    requires r.Length == 256 && from < 256 && BitsFrom(r[..], from)
    modifies r
    ensures r[..from] == old(r[..from]) && BitsFrom(r[..], from)
    ensures Value(r) == old(Value(r)) + Pow(2, from) - (if lost then Pow(2, 256) else 0)
    ensures lost ==> ZeroBetween(r[..], from, 256)
    ensures old(r[from]) == 1 ==> r[from] == 0
  {
    hide Digits, Pow;
    var k := from;
    while k < 256
      invariant from <= k <= 256
      invariant r[..from] == old(r[..from]) && BitsFrom(r[..], from) && ZeroBetween(r[..], from, k)
      invariant k == from ==> r[..] == old(r[..])
      invariant Value(r) + Pow(2, k) == old(Value(r)) + Pow(2, from)
      decreases 256 - k
    {
      PowStep(k);
      if r[k] == 0 {
        AddDigit(r, k, 1);
        lost := false;
        return;
      }
      AddDigit(r, k, -1);
      k := k + 1;
    }
    lost := true;
  }

  lemma PowStep(k: nat)
    ensures Pow(2, k + 1) == 2 * Pow(2, k)
  {
  }

  /** 1 << b for the six window offsets. */
  lemma Shifts(b: nat, i: nat)
    requires 1 <= b <= 6
    ensures Pow2(b) == [1, 2, 4, 8, 16, 32, 64][b]
    ensures Pow(2, i + b) == Pow(2, i) * Pow2(b) == -(Pow(2, i) * (0 - Pow2(b)))
  {
    PowAdds(2, i, b);
    Pow2IsPow(b);
    MulDistr(Pow(2, i), Pow2(b), 0 - Pow2(b));
  }

  /** r[i] during the window loop: the bits met so far, minus 16 once the fifth has been met. */
  ghost predicate Partial(d: int8, b: nat)
  {
    d % 2 == 1 && if b <= 4 then 1 <= d as int < [1, 2, 4, 8, 16, 32, 64][b] else -15 <= d <= 15
  }

  /** r[i] -= 2^b, and 2^(i + b + 1) carried upwards from position i + b. */
  method Subtract(r: array<int8>, i: nat, b: nat) returns (ghost lost: bool)
    requires r.Length == 256 && 1 <= b <= 6 && i + b < 256 && r[i + b] == 1
    requires r[i] as int - Pow2(b) >= -15 && r[i] <= 15 && BitsFrom(r[..], i + 1)
    modifies r
    ensures r[..i] == old(r[..i]) && r[i + 1..i + b] == old(r[i + 1..i + b]) && BitsFrom(r[..], i + 1)
    ensures r[i] as int == old(r[i]) as int - Pow2(b) && r[i + b] == 0
    ensures Value(r) == old(Value(r)) - (if lost then Pow(2, 256) else 0)
    ensures lost ==> ZeroBetween(r[..], i + b, 256)
  {
    hide Digits, Pow, Pow2;
    Shifts(b, i);
    AddDigit(r, i, 0 - Pow2(b));
    ghost var mid := r[..];
    lost := Increment(r, i + b);
    assert r[..i + b] == mid[..i + b];
    assert r[i] == r[..i + b][i] && r[i + 1..i + b] == r[..i + b][i + 1..] && r[..i] == r[..i + b][..i];
  }

  /** One further set bit at i + b: absorbed into r[i], or subtracted with a carry, or left alone. */
  method Absorb(r: array<int8>, i: nat, b: nat) returns (stop: bool, ghost lost: bool)
    requires r.Length == 256 && 1 <= b <= 6 && i + b < 256 && r[i + b] == 1
    requires Partial(r[i], b) && BitsFrom(r[..], i + 1)
    modifies r
    ensures r[..i] == old(r[..i]) && r[i + 1..i + b] == old(r[i + 1..i + b]) && BitsFrom(r[..], i + 1)
    ensures stop <==> b > 4
    ensures stop ==> r[..] == old(r[..])
    ensures !stop ==> Partial(r[i], b + 1) && r[i + b] == 0
    ensures Value(r) == old(Value(r)) - (if lost then Pow(2, 256) else 0)
    ensures lost ==> !stop && i <= 251 && ZeroBetween(r[..], i + b, 256)
  {
    hide Digits, Pow, Pow2;
    lost := false;
    stop := false;
    Shifts(b, i);
    var shifted := Pow2(b);
    if r[i] as int + shifted <= 15 {
      AddDigit(r, i, shifted);
      AddDigit(r, i + b, -1);
    } else if r[i] as int - shifted >= -15 {
      lost := Subtract(r, i, b);
    } else {
      stop := true;
    }
  }

  /** The window loop for one position holding 1. */
  method Window(r: array<int8>, i: nat) returns (ghost lost: bool)
    requires r.Length == 256 && i < 256 && r[i] == 1 && BitsFrom(r[..], i)
    modifies r
    ensures r[..i] == old(r[..i]) && BitsFrom(r[..], i + 1)
    ensures r[i] % 2 == 1 && -15 <= r[i] <= 15
    ensures ZeroBetween(r[..], i + 1, i + 5)
    ensures Value(r) == old(Value(r)) - (if lost then Pow(2, 256) else 0)
    ensures lost ==> i <= 251 && ZeroBetween(r[..], i + 1, 256)
  {
    hide Digits, Pow, Pow2;
    lost := false;
    var b := 1;
    while b <= 6 && i + b < 256
      invariant 1 <= b <= 7
      invariant r[..i] == old(r[..i]) && BitsFrom(r[..], i + 1) && Partial(r[i], b)
      invariant forall k :: i + 1 <= k < i + 5 && k < i + b && k < 256 ==> r[k] == 0
      invariant Value(r) == old(Value(r)) - (if lost then Pow(2, 256) else 0)
      invariant lost ==> i <= 251 && forall k :: i + 1 <= k < 256 ==> r[k] == 0
    {
      assert r[i + b] == r[..][i + b];
      if r[i + b] != 0 {
        ghost var mid := r[i + 1..i + b];
        assert forall k :: i + 1 <= k < i + b ==> r[k] == mid[k - i - 1];
        var stop;
        ghost var ranOff;
        stop, ranOff := Absorb(r, i, b);
        if stop { break; }
        lost := lost || ranOff;
        assert forall k :: i + 1 <= k < i + b ==> r[k] == r[i + 1..i + b][k - i - 1];
      }
      b := b + 1;
    }
  }

  lemma EmptyDigits()
    ensures Digits([], 2) == 0
  {
  }

  /** The value of the finished digits after one more of them. */
  lemma LowPart(s: seq<int8>, i: nat)
    requires i < |s|
    ensures Digits(s[..i + 1], 2) == Digits(s[..i], 2) + Pow(2, i) * s[i] as int
    ensures s[i] >= -15 && 2 * Digits(s[..i], 2) + Pow(2, i) > 0 ==> 2 * Digits(s[..i + 1], 2) + Pow(2, i + 5) > 0
  {
    var t := s[..i + 1];
    assert t[..i] == s[..i] && t[i + 1..] == [];
    assert Digits([], 2) == 0;
    hide Digits, Pow;
    DigitsAround(t, i, 2);
    PowAdds(2, i, 5);
    assert Pow(2, 5) == 32 by { Pow5(); }
    if s[i] >= -15 {
      MulLe(Pow(2, i), -15, s[i] as int);
    }
  }

  lemma Pow5()
    ensures Pow(2, 4) == 16 && Pow(2, 5) == 32
  {
  }

  lemma DigitsBelowZeros(s: seq<int8>, i: nat)
    requires i < |s| && ZeroBetween(s, i + 1, |s|)
    ensures Digits(s, 2) == Digits(s[..i], 2) + Pow(2, i) * s[i] as int
  {
    DigitsZero(s[i + 1..], 2);
    hide *;
    DigitsAround(s, i, 2);
  }

  /** A carry can run off the end only for numbers of at least 2^255. */
  lemma Lost(s: seq<int8>, i: nat, v: int)
    requires |s| == 256 && i <= 251 && ZeroBetween(s, i + 1, 256) && s[i] >= -15
    requires v == Digits(s, 2) + Pow(2, 256) && 2 * Digits(s[..i], 2) + Pow(2, i) > 0
    ensures v >= Pow(2, 255)
  {
    DigitsBelowZeros(s, i);
    hide *;
    WindowBound(i);
    PowStep(255);
    LostBound(Digits(s[..i], 2), Pow(2, i), s[i] as int, Pow(2, 255));
  }

  lemma WindowBound(i: nat)
    requires i <= 251
    ensures 16 * Pow(2, i) <= Pow(2, 255)
  {
    hide Pow;
    PowAdds(2, i, 251 - i);
    MulLe(Pow(2, i), 1, Pow(2, 251 - i));
    PowAdds(2, 4, 251);
    Pow5();
  }

  lemma LostBound(d: int, t: int, c: int, h: int)
    requires c >= -15 && 2 * d + t > 0 && t > 0 && 16 * t <= h
    ensures d + t * c + 2 * h >= h
  {
    MulLe(t, -15, c);
  }

  /** r = the signed digits of a. For a below 2^255 no carry leaves the array and the value is kept. */
  method Slide(r: array<int8>, a: seq<byte>)
    requires r.Length == 256 && |a| == 32
    modifies r
    ensures forall k :: 0 <= k < 256 ==> Usable(r[k])
    ensures LittleEndian(a) < Pow(2, 255) ==> Value(r) == LittleEndian(a)
  {
    hide Digits, Pow, LittleEndian;
    ghost var v := LittleEndian(a);
    var i := 0;
    while i < 256
      invariant 0 <= i <= 256
      invariant forall k :: 0 <= k < i ==> r[k] == Bit(a, k)
    {
      r[i] := Bit(a, i);
      i := i + 1;
    }
    BitsVal(a, r[..]);
    EmptyDigits();
    assert r[..0] == [];
    i := 0;
    ghost var nz := 0;
    while i < 256
      invariant 0 <= i <= 256 && i <= nz <= i + 4
      invariant BitsFrom(r[..], i) && ZeroBetween(r[..], i, nz)
      invariant forall k :: 0 <= k < i ==> Usable(r[k])
      invariant v < Pow(2, 255) ==> Value(r) == v && 2 * Digits(r[..i], 2) + Pow(2, nz) > 0
    {
      if r[i] != 0 {
        ghost var lost := Window(r, i);
        assert r[..][..i] == r[..i] && r[..][..i + 1] == r[..i + 1];
        LowPart(r[..], i);
        if lost && v < Pow(2, 255) {
          Lost(r[..], i, v);
        }
        nz := i + 5;
      } else {
        assert r[..][..i] == r[..i] && r[..][..i + 1] == r[..i + 1];
        LowPart(r[..], i);
        PowStep(nz);
        nz := if nz == i then i + 1 else nz;
      }
      i := i + 1;
    }
  }
}
