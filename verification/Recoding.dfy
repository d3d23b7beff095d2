/** The two signed recodings of ge.c: the sliding window `slide` and the radix-16 digits. */
module Recoding {
  import opened Words
  import opened Nonlinear

  ghost function Pow(b: nat, n: nat): (r: nat)
    requires b > 0
    ensures r > 0
  {
    if n == 0 then 1 else
      MulLe(b, 1, Pow(b, n - 1));
      b * Pow(b, n - 1)
  }

  lemma {:induction false} PowAdds(b: nat, m: nat, n: nat)
    requires b > 0
    ensures Pow(b, m + n) == Pow(b, m) * Pow(b, n)
  {
    if m != 0 {
      PowAdds(b, m - 1, n);
      MulAssoc(b, Pow(b, m - 1), Pow(b, n));
    }
  }

  /** The number with signed base-b digits s, least significant first. */
  ghost function Digits(s: seq<int8>, b: nat): int
  {
    if s == [] then 0 else s[0] as int + b * Digits(s[1..], b)
  }

  lemma {:induction false} DigitsAppend(s: seq<int8>, t: seq<int8>, b: nat)
    requires b > 0
    ensures Digits(s + t, b) == Digits(s, b) + Pow(b, |s|) * Digits(t, b)
  {
    if s == [] {
      assert s + t == t;
    } else {
      var u, v := Digits(s[1..], b), Digits(t, b);
      assert (s + t)[1..] == s[1..] + t;
      DigitsAppend(s[1..], t, b);
      MulDistr(b, u, Pow(b, |s| - 1) * v);
      MulAssoc(b, Pow(b, |s| - 1), v);
    }
  }

  /** A string seen around position i. */
  lemma DigitsAround(s: seq<int8>, i: nat, b: nat)
    requires i < |s| && b > 0
    ensures Digits(s, b) == Digits(s[..i], b) + Pow(b, i) * s[i] as int + Pow(b, i) * (b * Digits(s[i + 1..], b))
  {
    var tail := s[i..];
    assert s == s[..i] + tail && tail[1..] == s[i + 1..];
    DigitsAppend(s[..i], tail, b);
    MulDistr(Pow(b, i), s[i] as int, b * Digits(s[i + 1..], b));
  }

  /** Replacing one digit. */
  lemma DigitsUpdate(s: seq<int8>, i: nat, d: int8, b: nat)
    requires i < |s| && b > 0
    ensures Digits(s[i := d], b) == Digits(s, b) + Pow(b, i) * (d as int - s[i] as int)
  {
    var t := s[i := d];
    assert t[..i] == s[..i] && t[i + 1..] == s[i + 1..];
    hide *;
    DigitsAround(s, i, b);
    DigitsAround(t, i, b);
    UpdatedSum(Digits(s[..i], b), Pow(b, i), s[i] as int, d as int, Pow(b, i) * (b * Digits(s[i + 1..], b)));
  }

  lemma UpdatedSum(low: int, w: int, c: int, d: int, high: int)
    ensures low + w * d + high == low + w * c + high + w * (d - c)
  {
    MulDistr(w, d, -c);
  }

  lemma {:induction false} DigitsZero(s: seq<int8>, b: nat)
    requires forall i :: 0 <= i < |s| ==> s[i] == 0
    ensures Digits(s, b) == 0
  {
    if s != [] {
      DigitsZero(s[1..], b);
    }
  }

  lemma {:induction false} Pow2IsPow(n: nat)
    ensures Pow(2, n) == Pow2(n)
  {
    if n != 0 {
      Pow2IsPow(n - 1);
    }
  }

  // ---- bits of a byte string ----

  function Bit(a: seq<byte>, i: nat): (d: int8)
    requires i < 8 * |a|
    ensures 0 <= d <= 1
  {
    ((a[i / 8] as int / Pow2(i % 8)) % 2) as int8
  }

  /** The n low bits of x, least significant first. */
  ghost function BitString(x: nat, n: nat): (s: seq<int8>)
    ensures |s| == n
  {
    if n == 0 then [] else [(x % 2) as int8] + BitString(x / 2, n - 1)
  }

  lemma {:induction false} BitStringVal(x: nat, n: nat)
    requires x < Pow2(n)
    ensures Digits(BitString(x, n), 2) == x
  {
    if n != 0 {
      BitStringVal(x / 2, n - 1);
      assert BitString(x, n)[1..] == BitString(x / 2, n - 1);
    }
  }

  lemma {:induction false} BitStringAt(x: nat, n: nat, i: nat)
    requires i < n
    ensures BitString(x, n)[i] as int == (x / Pow2(i)) % 2
  {
    if i != 0 {
      BitStringAt(x / 2, n - 1, i - 1);
      DivNest(x, 2, Pow2(i - 1));
    }
  }

  /** The bit string of a byte string reads as the same number. */
  lemma {:induction false} BitsVal(a: seq<byte>, s: seq<int8>)
    requires |s| == 8 * |a| && forall i :: 0 <= i < |s| ==> s[i] == Bit(a, i)
    ensures Digits(s, 2) == LittleEndian(a)
  {
    if a != [] {
      var lo, hi := s[..8], s[8..];
      assert s == lo + hi;
      forall i | 0 <= i < 8 ensures lo[i] == BitString(a[0] as int, 8)[i] {
        BitStringAt(a[0] as int, 8, i);
      }
      assert lo == BitString(a[0] as int, 8);
      assert Pow2(8) == 256 && Pow(2, 8) == 256;
      BitStringVal(a[0] as int, 8);
      forall i | 0 <= i < |hi| ensures hi[i] == Bit(a[1..], i) {
        assert (i + 8) / 8 == i / 8 + 1 && (i + 8) % 8 == i % 8;
        assert a[1..][i / 8] == a[i / 8 + 1];
      }
      BitsVal(a[1..], hi);
      DigitsAppend(lo, hi, 2);
    }
  }
}
