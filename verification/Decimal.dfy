/** Decimal numbers of encoding.c: what `%lu` prints, decode_decimal and numlen. */
module Decimal {
  import opened Words
  import opened Base64

  predicate IsDigit(c: char) { '0' <= c <= '9' }

  function DigitValue(c: char): (d: nat)
    requires IsDigit(c)
    ensures d < 10
  {
    c as int - '0' as int
  }

  function DigitChar(d: nat): (c: char)
    requires d < 10
    ensures IsDigit(c) && DigitValue(c) == d
  {
    ('0' as int + d) as char
  }

  /** The digits of n, without leading zeros. */
  function Print(n: nat): (s: seq<char>)
    ensures s != [] && forall k :: 0 <= k < |s| ==> IsDigit(s[k])
  {
    if n < 10 then [DigitChar(n)] else Print(n / 10) + [DigitChar(n % 10)]
  }

  /** The number that a string of digits denotes. */
  function Number(s: seq<char>): (n: nat)
    requires forall k :: 0 <= k < |s| ==> IsDigit(s[k])
  {
    if s == [] then 0 else 10 * Number(s[..|s| - 1]) + DigitValue(s[|s| - 1])
  }

  /** The usual place values. */
  lemma NumberAppend(s: seq<char>, c: char)
    requires (forall k :: 0 <= k < |s| ==> IsDigit(s[k])) && IsDigit(c)
    ensures Number(s + [c]) == 10 * Number(s) + (c as int - 48) && Number([c]) == c as int - 48
  {
    assert (s + [c])[..|s|] == s && [c][..0] == [];
  }

  /** Minimal: some digit, and a leading zero only on its own. */
  predicate Minimal(s: seq<char>) { s != [] && (s[0] == '0' ==> |s| == 1) }

  lemma {:induction false} NumberPrint(n: nat)
    ensures Number(Print(n)) == n && Minimal(Print(n)) && (n > 0 ==> Print(n)[0] != '0')
  {
    var s := Print(n);
    if n < 10 {
      assert s[..0] == [];
    } else {
      NumberPrint(n / 10);
      assert s[..|s| - 1] == Print(n / 10);
    }
  }

  /** A minimal string is what `%lu` prints for its number. */
  lemma {:induction false} PrintNumber(s: seq<char>)
    requires (forall k :: 0 <= k < |s| ==> IsDigit(s[k])) && Minimal(s)
    ensures Print(Number(s)) == s && (s[0] != '0' ==> Number(s) > 0)
  {
    var u, d := s[..|s| - 1], DigitValue(s[|s| - 1]);
    if |s| == 1 {
      assert u == [] && s == [s[0]];
    } else {
      assert u[0] == s[0];
      PrintNumber(u);
      assert Number(s) == 10 * Number(u) + d && Number(s) / 10 == Number(u) && Number(s) % 10 == d;
      assert s == u + [s[|s| - 1]];
    }
  }

  /** numlen is the printed length. */
  method Numlen(num: uint32) returns (len: nat)
    ensures len == |Print(num as int)|
  {
    len := 1;
    var n := num;
    while n >= 10
      invariant len + |Print(n as int)| == 1 + |Print(num as int)|
    {
      len := len + 1;
      n := n / 10;
    }
  }

  /** The digits from position p on. */
  function DigitsAt(text: seq<char>, p: nat): (s: seq<char>)
    ensures forall k :: 0 <= k < |s| ==> IsDigit(s[k])
    ensures p <= |text| ==> |s| <= |text| - p && text[p..p + |s|] == s
    decreases if p < |text| then |text| - p else 0
  {
    if p < |text| && IsDigit(text[p]) then [text[p]] + DigitsAt(text, p + 1) else []
  }

  /** Reading on from acc. */
  function Horner(acc: nat, s: seq<char>): (n: nat)
    requires forall k :: 0 <= k < |s| ==> IsDigit(s[k])
    ensures n >= acc
    decreases |s|
  {
    if s == [] then acc else Horner(10 * acc + DigitValue(s[0]), s[1..])
  }

  lemma {:induction false} HornerLast(acc: nat, s: seq<char>, c: char)
    requires IsDigit(c) && forall k :: 0 <= k < |s| ==> IsDigit(s[k])
    ensures Horner(acc, s + [c]) == 10 * Horner(acc, s) + DigitValue(c)
    decreases |s|
  {
    if s == [] {
      assert ([] + [c])[1..] == [];
    } else {
      assert (s + [c])[1..] == s[1..] + [c];
      HornerLast(10 * acc + DigitValue(s[0]), s[1..], c);
    }
  }

  lemma {:induction false} HornerNumber(s: seq<char>)
    requires forall k :: 0 <= k < |s| ==> IsDigit(s[k])
    ensures Horner(0, s) == Number(s)
  {
    if s != [] {
      HornerNumber(s[..|s| - 1]);
      HornerLast(0, s[..|s| - 1], s[|s| - 1]);
      assert s == s[..|s| - 1] + [s[|s| - 1]];
    }
  }

  lemma DigitsStep(text: seq<char>, p: nat)
    ensures if IsDigit(Peek(text, p)) then
              p < |text| && DigitsAt(text, p) == [text[p]] + DigitsAt(text, p + 1)
                && DigitsAt(text, p)[1..] == DigitsAt(text, p + 1)
            else DigitsAt(text, p) == []
  {
  }

  lemma HornerStep(acc: nat, s: seq<char>)
    requires s != [] && forall k :: 0 <= k < |s| ==> IsDigit(s[k])
    ensures Horner(acc, s) == Horner(10 * acc + DigitValue(s[0]), s[1..]) >= 10 * acc + DigitValue(s[0])
  {
  }

  /** decode_decimal, for an unsigned long of either width: NULL (here -1) exactly when the digits are not minimal or
      denote a number above the maximum. */
  method DecodeDecimal(text: seq<char>, pos: nat, max: nat) returns (next: int, v: nat)
    requires pos <= |text| && max >= 0xFFFF_FFFF
    ensures var s := DigitsAt(text, pos);
            if Minimal(s) && Number(s) <= max then next == pos + |s| && v == Number(s) else next == -1
  {
    hide DigitsAt, Number, Horner;
    ghost var s := DigitsAt(text, pos);
    HornerNumber(s);
    var acc, str := 0, pos;
    while true
      invariant pos <= str <= |text| && 0 <= acc <= max
      invariant str + |DigitsAt(text, str)| == pos + |s|
      invariant Horner(acc, DigitsAt(text, str)) == Number(s)
      decreases |text| - str
    {
      DigitsStep(text, str);
      var c := Peek(text, str);
      if c < '0' || c > '9' {
        break;
      }
      HornerStep(acc, DigitsAt(text, str));
      if acc > max / 10 {
        return -1, 0;
      }
      acc := acc * 10;
      if DigitValue(c) > max - acc {
        return -1, 0;
      }
      acc := acc + DigitValue(c);
      str := str + 1;
    }
    HornerEmpty(acc);
    DigitsStep(text, pos);
    if str == pos || (Peek(text, pos) == '0' && str != pos + 1) {
      return -1, 0;
    }
    return str, acc;
  }

  lemma HornerEmpty(acc: nat)
    ensures Horner(acc, []) == acc
  {
  }

  /** Where a printed number stands before a character that is not a digit, its digits are read back. */
  lemma {:induction false} DigitsOfText(text: seq<char>, p: nat, s: seq<char>)
    requires p + |s| <= |text| && text[p..p + |s|] == s && forall k :: 0 <= k < |s| ==> IsDigit(s[k])
    requires !IsDigit(Peek(text, p + |s|))
    ensures DigitsAt(text, p) == s
    decreases |s|
  {
    if s != [] {
      assert text[p] == s[0];
      assert text[p + 1..p + |s|] == s[1..];
      DigitsOfText(text, p + 1, s[1..]);
    }
  }
}
