/** The signed radix-16 digits that open ge_scalarmult_base (ge.c). */
module Radix16 {
  import opened Words
  import opened Nonlinear
  import opened Recoding

  ghost function Value(e: array<int8>): int
    reads e
  {
    Digits(e[..], 16)
  }

  method Assign(e: array<int8>, i: nat, d: int8)
    requires i < e.Length
    modifies e
    ensures e[..] == old(e[..])[i := d]
    ensures Value(e) == old(Value(e)) + Pow(16, i) * (d as int - old(e[i]) as int)
  {
    hide Digits, Pow;
    DigitsUpdate(e[..], i, d, 16);
    e[i] := d;
    assert e[..] == old(e[..])[i := d];
  }

  /** Splitting bytes into nibbles keeps the value. */
  lemma {:induction false} NibblesVal(a: seq<byte>, s: seq<int8>)
    requires |s| == 2 * |a|
    requires forall i :: 0 <= i < |a| ==> s[2 * i] as int == a[i] as int % 16 && s[2 * i + 1] as int == a[i] as int / 16
    ensures Digits(s, 16) == LittleEndian(a)
  {
    if a != [] {
      var t := s[2..];
      assert s[0] == s[2 * 0] && s[1] == s[2 * 0 + 1];
      assert s[1..][1..] == t && s[1..][0] == s[1];
      forall i | 0 <= i < |a| - 1
        ensures t[2 * i] as int == a[1..][i] as int % 16 && t[2 * i + 1] as int == a[1..][i] as int / 16
      {
        assert t[2 * i] == s[2 * (i + 1)] && t[2 * i + 1] == s[2 * (i + 1) + 1];
      }
      NibblesVal(a[1..], t);
    }
  }

  lemma PowStep16(i: nat)
    ensures Pow(16, i + 1) == 16 * Pow(16, i)
  {
  }

  /** carry = (d + 8) >> 4 and the digit that remains. */
  function CarryOf(d: int8): (c: int8)
    requires 0 <= d <= 16
    ensures 0 <= c <= 1 && -8 <= d as int - 16 * c as int <= 8
  {
    (d + 8) / 16
  }

  /** e = 64 digits in -8..8 with value a. The source demands a[31] <= 127. */
  method Recode(e: array<int8>, a: seq<byte>)
    requires e.Length == 64 && |a| == 32 && a[31] <= 127
    modifies e
    ensures Value(e) == LittleEndian(a)
    ensures forall k :: 0 <= k < 64 ==> -8 <= e[k] <= 8
  {
    hide Digits, Pow, LittleEndian;
    var i := 0;
    while i < 32
      invariant 0 <= i <= 32
      invariant forall k :: 0 <= k < i ==>
                  e[2 * k] as int == a[k] as int % 16 && e[2 * k + 1] as int == a[k] as int / 16
    {
      e[2 * i] := (a[i] % 16) as int8;
      e[2 * i + 1] := (a[i] / 16) as int8;
      i := i + 1;
    }
    NibblesVal(a, e[..]);
    Nibbles(e[..], a);
    Carries(e);
  }

  lemma Nibbles(s: seq<int8>, a: seq<byte>)
    requires |s| == 64 && |a| == 32 && a[31] <= 127
    requires forall k :: 0 <= k < 32 ==> s[2 * k] as int == a[k] as int % 16 && s[2 * k + 1] as int == a[k] as int / 16
    ensures forall k :: 0 <= k < 64 ==> 0 <= s[k] <= 15
    ensures s[63] <= 7
  {
    forall k | 0 <= k < 64 ensures 0 <= s[k] <= 15 {
      var j := k / 2;
      assert s[2 * j] as int == a[j] as int % 16 && s[2 * j + 1] as int == a[j] as int / 16;
      assert k == 2 * j || k == 2 * j + 1;
    }
    assert s[63] == s[2 * 31 + 1];
  }

  /** One step: e[i] += carry; carry = (e[i] + 8) >> 4; e[i] -= carry << 4. */
  method Step(e: array<int8>, i: nat, carry: int8) returns (next: int8)
    requires i < e.Length && 0 <= carry <= 1 && 0 <= e[i] <= 15
    modifies e
    ensures 0 <= next <= 1 && -8 <= e[i] <= 8
    ensures forall k :: 0 <= k < e.Length && k != i ==> e[k] == old(e[k])
    ensures Value(e) + Pow(16, i + 1) * next as int == old(Value(e)) + Pow(16, i) * carry as int
  {
    hide Digits, Pow, CarryOf;
    ghost var w := Pow(16, i);
    ghost var d := e[i] as int;
    PowStep16(i);
    Assign(e, i, e[i] + carry);
    next := CarryOf(e[i]);
    Assign(e, i, e[i] - next * 16);
    MulDistr(w, carry as int, -16 * next as int);
    MulAssoc(w, 16, next as int);
  }

  method Carries(e: array<int8>)
    requires e.Length == 64 && e[63] <= 7
    requires forall k :: 0 <= k < 64 ==> 0 <= e[k] <= 15
    modifies e
    ensures Value(e) == old(Value(e))
    ensures forall k :: 0 <= k < 64 ==> -8 <= e[k] <= 8
  {
    hide Digits, Pow;
    var carry: int8 := 0;
    var i := 0;
    while i < 63
      invariant 0 <= i <= 63 && 0 <= carry <= 1 && e[63] <= 7
      invariant forall k :: i <= k < 64 ==> 0 <= e[k] <= 15
      invariant forall k :: 0 <= k < i ==> -8 <= e[k] <= 8
      invariant Value(e) + Pow(16, i) * carry as int == old(Value(e))
    {
      carry := Step(e, i, carry);
      i := i + 1;
    }
    Assign(e, 63, e[63] + carry);
  }
}
