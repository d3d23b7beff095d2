/** ecdsa_signature_parse_der_lax (secp256k1_native.c): a lenient reader of DER signatures. Sections 8.1 and 8.3 of
    ITU-T X.690. */
module DerLax {
  import opened Words
  import opened Nonlinear
  import opened Base64

  /** The order of the secp256k1 group. */
  const ORDER: int := 0xffff_ffff_ffff_ffff_ffff_ffff_ffff_fffe_baae_dce6_af48_a03b_bfd2_5e8c_d036_4141

  /** The first position of input[at..end] that is not zero, or end. */
  function FirstNonzero(input: seq<byte>, at: nat, end: nat): (p: nat)
    requires at <= end <= |input|
    ensures at <= p <= end && (p < end ==> input[p] != 0)
    decreases end - at
  {
    if at < end && input[at] == 0 then FirstNonzero(input, at + 1, end) else at
  }

  /** Leading zeros do not count. */
  lemma {:induction false} ZerosValue(input: seq<byte>, at: nat, end: nat)
    requires at <= end <= |input|
    ensures BigEndian(input[FirstNonzero(input, at, end)..end]) == BigEndian(input[at..end])
    decreases end - at
  {
    hide BigEndian;
    if at < end && input[at] == 0 {
      ZerosValue(input, at + 1, end);
      assert input[at..end] == [0] + input[at + 1..end];
      BigEndianCons(0, input[at + 1..end]);
    }
  }

  /** s behind as many zeros as make n bytes. */
  function Padded(s: seq<byte>, n: nat): (t: seq<byte>)
    requires |s| <= n
    ensures |t| == n
    decreases n
  {
    if |s| == n then s else [0] + Padded(s, n - 1)
  }

  lemma {:induction false} PaddedValue(s: seq<byte>, n: nat)
    requires |s| <= n
    ensures BigEndian(Padded(s, n)) == BigEndian(s)
    decreases n
  {
    if |s| < n {
      PaddedValue(s, n - 1);
      BigEndianCons(0, Padded(s, n - 1));
    }
  }

  // ---- the reader as a function ----

  /** A length: short form, or long form with any number of leading zeros and at most three bytes after them. */
  function LengthAt(input: seq<byte>, pos: nat): (r: Option<(nat, nat)>)
    requires pos <= |input|
    ensures r.Some? ==> pos < r.value.0 <= |input|
  {
    if pos == |input| then None
    else if input[pos] < 0x80 then Some((pos + 1, input[pos] as nat))
    else
      var n := input[pos] as nat - 0x80;
      if n > |input| - (pos + 1) then None
      else
        var first := FirstNonzero(input, pos + 1, pos + 1 + n);
        if pos + 1 + n - first >= 4 then None else Some((pos + 1 + n, BigEndian(input[first..pos + 1 + n])))
  }

  /** An INTEGER: tag, length and contents inside the input. */
  function IntegerAt(input: seq<byte>, pos: nat): (r: Option<(nat, nat)>)
    requires pos <= |input|
    ensures r.Some? ==> pos < r.value.0 && r.value.0 + r.value.1 <= |input|
  {
    if pos == |input| || input[pos] != 0x02 then None
    else
      var l :- LengthAt(input, pos + 1);
      if l.1 > |input| - l.0 then None else Some(l)
  }

  /** The length of the SEQUENCE is skipped, not checked. */
  function SequenceAt(input: seq<byte>): (r: Option<nat>)
    ensures r.Some? ==> r.value <= |input|
  {
    if input == [] || input[0] != 0x30 || |input| == 1 then None
    else if input[1] < 0x80 then Some(2)
    else if input[1] as int - 0x80 > |input| - 2 then None
    else Some(2 + input[1] as nat - 0x80)
  }

  /** The contents of the two integers. */
  function Contents(input: seq<byte>): (r: Option<(seq<byte>, seq<byte>)>)
  {
    var start :- SequenceAt(input);
    var r :- IntegerAt(input, start);
    var s :- IntegerAt(input, r.0 + r.1);
    Some((input[r.0..r.0 + r.1], input[s.0..s.0 + s.1]))
  }

  /** A signature is 64 bytes: two 32-byte big-endian numbers. All zeros is the parsed but invalid signature. */
  ghost predicate IsSignature(sig: seq<byte>, r: int, s: int)
  {
    |sig| == 64 && BigEndian(sig[..32]) == r && BigEndian(sig[32..]) == s
  }

  // ---- the reader as the source writes it ----

  lemma BigEndianStep(s: seq<byte>, i: nat)
    requires i < |s|
    ensures BigEndian(s[..i + 1]) == 256 * BigEndian(s[..i]) + s[i] as int
    ensures BigEndian(s[..0]) == 0
  {
    assert s[..i + 1][..i] == s[..i];
  }

  /** `while (len > 0 && input[pos] == 0)` of the lengths and of the integers. */
  method SkipZeros(input: seq<byte>, at: nat, len0: nat) returns (pos: nat, len: nat)
    requires at + len0 <= |input|
    ensures pos == FirstNonzero(input, at, at + len0) && pos + len == at + len0
  {
    pos, len := at, len0;
    ghost var end := at + len0;
    while len > 0 && input[pos] == 0
      invariant at <= pos && pos + len == end
      invariant FirstNonzero(input, pos, end) == FirstNonzero(input, at, end)
    {
      pos := pos + 1;
      len := len - 1;
    }
  }

  /** rlen = (rlen << 8) + input[pos] over the remaining length bytes. */
  method ReadDigits(input: seq<byte>, at: nat, lenbyte0: nat) returns (len: nat)
    requires at + lenbyte0 <= |input|
    ensures len == BigEndian(input[at..at + lenbyte0])
  {
    hide BigEndian;
    ghost var digits := input[at..at + lenbyte0];
    var pos, lenbyte := at, lenbyte0;
    len := 0;
    BigEndianEmpty();
    while lenbyte > 0
      invariant at <= pos && 0 <= lenbyte && pos + lenbyte == at + lenbyte0
      invariant len == BigEndian(digits[..pos - at])
      decreases lenbyte
    {
      BigEndianStep(digits, pos - at);
      len := len * 256 + input[pos] as int;
      pos := pos + 1;
      lenbyte := lenbyte - 1;
    }
    assert digits[..pos - at] == digits;
  }

  /** The three-byte limit keeps the length below 2^24. */
  method ReadLength(input: seq<byte>, at: nat) returns (r: Option<(nat, nat)>)
    requires at <= |input|
    ensures r == LengthAt(input, at)
    ensures r.Some? ==> r.value.1 < 0x100_0000
  {
    hide BigEndian, FirstNonzero, Pow2;
    var pos := at;
    if pos == |input| {
      return None;
    }
    var lenbyte := input[pos] as nat;
    pos := pos + 1;
    if lenbyte < 0x80 {
      return Some((pos, lenbyte));
    }
    lenbyte := lenbyte - 0x80;
    if lenbyte > |input| - pos {
      return None;
    }
    ghost var end := pos + lenbyte;
    pos, lenbyte := SkipZeros(input, pos, lenbyte);
    if lenbyte >= 4 {
      return None;
    }
    ShortNumber(input[pos..end]);
    var len := ReadDigits(input, pos, lenbyte);
    return Some((pos + lenbyte, len));
  }

  lemma ShortNumber(s: seq<byte>)
    requires |s| <= 3
    ensures BigEndian(s) < 0x100_0000
  {
    BigEndianBelow(s);
    assert Pow2(8) == 0x100;
    Pow2Adds(8, 8);
    Pow2Adds(16, 8);
    assert |s| == 0 || |s| == 1 || |s| == 2 || |s| == 3;
  }

  method ReadInteger(input: seq<byte>, at: nat) returns (r: Option<(nat, nat)>)
    requires at <= |input|
    ensures r == IntegerAt(input, at)
  {
    hide LengthAt;
    if at == |input| || input[at] != 0x02 {
      return None;
    }
    r := ReadLength(input, at + 1);
    if r.None? || r.value.1 > |input| - r.value.0 {
      return None;
    }
  }

  /** Ignoring leading zeros, then the copy into a 32-byte half; more than 32 bytes are an overflow. */
  method CopyHalf(input: seq<byte>, pos0: nat, len0: nat) returns (overflow: bool, half: seq<byte>)
    requires pos0 + len0 <= |input|
    ensures |half| == 32
    ensures overflow <==> BigEndian(input[pos0..pos0 + len0]) >= Pow2(256)
    ensures !overflow ==> BigEndian(half) == BigEndian(input[pos0..pos0 + len0])
  {
    hide BigEndian, FirstNonzero, Padded, Pow2;
    ghost var end, all := pos0 + len0, input[pos0..pos0 + len0];
    ZerosValue(input, pos0, end);
    var pos, len := SkipZeros(input, pos0, len0);
    half := Padded([], 32);
    if len > 32 {
      overflow := true;
      LongNumber(input[pos..end]);
    } else {
      overflow := false;
      half := Padded(input[pos..pos + len], 32);
      PaddedValue(input[pos..end], 32);
      BigEndianBelow(input[pos..end]);
      Pow2Mono(8 * len, 256);
    }
  }

  lemma {:induction false} Pow2Mono(m: nat, n: nat)
    requires m <= n
    ensures Pow2(m) <= Pow2(n)
  {
    Pow2Adds(m, n - m);
    MulLe(Pow2(m), 1, Pow2(n - m));
  }

  /** A nonzero first byte with 32 or more behind it. */
  lemma LongNumber(s: seq<byte>)
    requires |s| > 32 && s[0] != 0
    ensures BigEndian(s) >= Pow2(256)
  {
    hide BigEndian, Pow2;
    assert s == [s[0]] + s[1..];
    BigEndianCons(s[0], s[1..]);
    MulLe(Pow2(8 * |s| - 8), 1, s[0] as int);
    Pow2Mono(256, 8 * |s| - 8);
  }

  /** secp256k1_ecdsa_signature_parse_compact: accepts exactly numbers below the order. */
  function ParseCompact(sig: seq<byte>): bool
    requires |sig| == 64
  {
    BigEndian(sig[..32]) < ORDER && BigEndian(sig[32..]) < ORDER
  }

  /** The order of section 2.4.1 of SEC 2, as its distance from 2^256. */
  lemma OrderBound()
    ensures ORDER == Pow2(256) - 0x1_4551_2319_50b7_5fc4_402d_a173_2fc9_bebf
  {
    hide Pow2;
    Pow2Adds(1, 1);
    assert Pow2(1) == 2 by { PowOne(); }
    Pow2Adds(2, 2);
    Pow2Adds(4, 4);
    Pow2Adds(8, 8);
    Pow2Adds(16, 16);
    Pow2Adds(32, 32);
    Pow2Adds(64, 64);
    Pow2Adds(128, 128);
  }

  lemma PowOne()
    ensures Pow2(1) == 2
  {
  }

  lemma ZeroHalf()
    ensures BigEndian(Padded([], 32)) == 0
  {
    PaddedValue([], 32);
  }

  /** ecdsa_signature_parse_der_lax: every index stays inside the input; it succeeds exactly when two integers can be
      read, and delivers their values, or zeros when one of them is not below the order. */
  method ParseDerLax(input: seq<byte>) returns (ok: bool, sig: seq<byte>)
    ensures ok <==> Contents(input).Some?
    ensures !ok ==> IsSignature(sig, 0, 0)
    ensures ok ==> var r, s := BigEndian(Contents(input).value.0), BigEndian(Contents(input).value.1);
                   if r < ORDER && s < ORDER then IsSignature(sig, r, s) else IsSignature(sig, 0, 0)
  {
    hide BigEndian, LengthAt, IntegerAt, Padded, Pow2;
    ZeroHalf();
    OrderBound();
    var zero := Padded([], 32) + Padded([], 32);
    assert zero[..32] == Padded([], 32) && zero[32..] == Padded([], 32);
    sig := zero;
    var pos := 0;
    if pos == |input| || input[pos] != 0x30 {
      return false, sig;
    }
    pos := pos + 1;
    if pos == |input| {
      return false, sig;
    }
    var lenbyte := input[pos] as nat;
    pos := pos + 1;
    if lenbyte >= 0x80 {
      lenbyte := lenbyte - 0x80;
      if lenbyte > |input| - pos {
        return false, sig;
      }
      pos := pos + lenbyte;
    }
    var r := ReadInteger(input, pos);
    if r.None? {
      return false, sig;
    }
    var s := ReadInteger(input, r.value.0 + r.value.1);
    if s.None? {
      return false, sig;
    }
    var overflowR, halfR := CopyHalf(input, r.value.0, r.value.1);
    var overflowS, halfS := CopyHalf(input, s.value.0, s.value.1);
    ok := true;
    var tmp := halfR + halfS;
    assert tmp[..32] == halfR && tmp[32..] == halfS;
    if !overflowR && !overflowS && ParseCompact(tmp) {
      sig := tmp;
    }
  }

  // ---- what is accepted ----

  /** A length: one byte below 0x80, or 0x80 + k and then k bytes for a number below 2^24, leading zeros allowed. */
  ghost predicate Length(l: seq<byte>, n: nat)
  {
    && l != []
    && if l[0] < 0x80 then |l| == 1 && n == l[0] as int
       else |l| == l[0] as int - 0x7F && BigEndian(l[1..]) == n < 0x100_0000
  }

  /** The tag of a SEQUENCE and a length of either form, whatever its value. */
  ghost predicate Head(h: seq<byte>)
  {
    && |h| >= 2 && h[0] == 0x30
    && if h[1] < 0x80 then |h| == 2 else |h| == h[1] as int - 0x7E
  }

  lemma FourBytes(s: seq<byte>)
    requires |s| >= 4 && s[0] != 0
    ensures BigEndian(s) >= 0x100_0000
  {
    assert Pow2(8) == 0x100;
    hide BigEndian, Pow2;
    assert s == [s[0]] + s[1..];
    BigEndianCons(s[0], s[1..]);
    MulLe(Pow2(8 * |s| - 8), 1, s[0] as int);
    Pow2Adds(8, 8);
    Pow2Adds(16, 8);
    Pow2Mono(24, 8 * |s| - 8);
  }

  /** LengthAt reads exactly the lengths. */
  lemma LengthExactly(input: seq<byte>, pos: nat, n: nat, q: nat)
    requires pos < q <= |input|
    ensures LengthAt(input, pos) == Some((q, n)) <==> Length(input[pos..q], n)
  {
    hide BigEndian, FirstNonzero;
    if input[pos] >= 0x80 && pos + 1 + (input[pos] as int - 0x80) <= |input| {
      var end := pos + 1 + (input[pos] as int - 0x80);
      ZerosValue(input, pos + 1, end);
      var digits := input[FirstNonzero(input, pos + 1, end)..end];
      if |digits| >= 4 {
        FourBytes(digits);
      } else {
        ShortNumber(digits);
      }
      assert q == end ==> input[pos..q][1..] == input[pos + 1..end];
    }
  }

  /** An integer behind its tag. */
  lemma IntegerExactly(input: seq<byte>, pos: nat, q: nat, n: nat)
    requires pos + 1 < q && q + n <= |input|
    ensures IntegerAt(input, pos) == Some((q, n)) <==> input[pos] == 0x02 && Length(input[pos + 1..q], n)
  {
    hide LengthAt, Length;
    LengthExactly(input, pos + 1, n, q);
  }

  /** Whatever has the form is accepted, with the contents of its two integers: strict or not, with long lengths, a
      wrong length of the whole, or bytes behind it. */
  lemma LenientAccepted(input: seq<byte>, h: seq<byte>, l: seq<byte>, c: seq<byte>, m: seq<byte>, d: seq<byte>,
                        rest: seq<byte>)
    requires Head(h) && Length(l, |c|) && Length(m, |d|)
    requires input == h + [0x02] + l + c + [0x02] + m + d + rest
    ensures Contents(input) == Some((c, d))
  {
    hide LengthAt, IntegerAt, Length;
    LengthNonempty(l, |c|);
    LengthNonempty(m, |d|);
    var p := |h| + 1 + |l|;
    var e := p + |c|;
    var q := e + 1 + |m|;
    EightParts(input, h, l, c, m, d, rest);
    HeadSkipped(input, h);
    IntegerExactly(input, |h|, p, |c|);
    IntegerExactly(input, e, q, |d|);
  }

  lemma EightParts(x: seq<byte>, h: seq<byte>, l: seq<byte>, c: seq<byte>, m: seq<byte>, d: seq<byte>, rest: seq<byte>)
    requires x == h + [0x02] + l + c + [0x02] + m + d + rest
    ensures var p, e, q := |h| + 1 + |l|, |h| + 1 + |l| + |c|, |h| + 2 + |l| + |c| + |m|;
            && q + |d| <= |x| && x[..|h|] == h && x[|h|] == 0x02 && x[|h| + 1..p] == l && x[p..e] == c
            && x[e] == 0x02 && x[e + 1..q] == m && x[q..q + |d|] == d
  {
  }

  lemma LengthNonempty(l: seq<byte>, n: nat)
    requires Length(l, n)
    ensures |l| >= 1
  {
  }

  lemma HeadSkipped(input: seq<byte>, h: seq<byte>)
    requires Head(h) && |h| <= |input| && input[..|h|] == h
    ensures SequenceAt(input) == Some(|h|)
  {
    assert input[0] == h[0] && input[1] == h[1];
  }

  /** Nothing else is accepted. */
  lemma AcceptedIsLenient(input: seq<byte>)
    returns (h: seq<byte>, l: seq<byte>, c: seq<byte>, m: seq<byte>, d: seq<byte>, rest: seq<byte>)
    requires Contents(input).Some?
    ensures Head(h) && Length(l, |c|) && Length(m, |d|) && Contents(input) == Some((c, d))
    ensures input == h + [0x02] + l + c + [0x02] + m + d + rest
  {
    hide LengthAt, IntegerAt, Length;
    var start := SequenceAt(input).value;
    var r := IntegerAt(input, start).value;
    var e := r.0 + r.1;
    var s := IntegerAt(input, e).value;
    var z := s.0 + s.1;
    IntegerBehindTag(input, start);
    IntegerBehindTag(input, e);
    h, l, c := input[..start], input[start + 1..r.0], input[r.0..e];
    m, d, rest := input[e + 1..s.0], input[s.0..z], input[z..];
    Reassembled(input, start, r.0, e, s.0, z);
  }

  lemma IntegerBehindTag(input: seq<byte>, pos: nat)
    requires pos <= |input| && IntegerAt(input, pos).Some?
    ensures var r := IntegerAt(input, pos).value;
            && pos + 1 < r.0 && r.0 + r.1 <= |input| && input[pos] == 0x02 && Length(input[pos + 1..r.0], r.1)
  {
    hide LengthAt, Length;
    var r := IntegerAt(input, pos).value;
    IntegerExactly(input, pos, r.0, r.1);
  }

  lemma Reassembled(x: seq<byte>, a: nat, p: nat, e: nat, q: nat, z: nat)
    requires a + 1 <= p <= e && e + 1 <= q <= z <= |x| && x[a] == 0x02 && x[e] == 0x02
    ensures x == x[..a] + [0x02] + x[a + 1..p] + x[p..e] + [0x02] + x[e + 1..q] + x[q..z] + x[z..]
  {
  }

  // ---- strict encodings ----

  /** The shortest two's-complement contents of a non-negative integer. */
  ghost predicate StrictContents(c: seq<byte>, n: nat)
  {
    && 1 <= |c| < 0x80 && BigEndian(c) == n && c[0] < 0x80
    && (|c| > 1 && c[0] == 0 ==> c[1] >= 0x80)
  }

  /** The DER encoding of a signature with integer contents r and s. */
  function Strict(r: seq<byte>, s: seq<byte>): seq<byte>
    requires 1 <= |r| <= 33 && 1 <= |s| <= 33
  {
    [0x30, (4 + |r| + |s|) as byte, 0x02, |r| as byte] + r + [0x02, |s| as byte] + s
  }

  /** Contents of integers below 2^256 take at most 33 bytes. */
  lemma StrictShort(c: seq<byte>, n: nat)
    requires StrictContents(c, n) && n < Pow2(256)
    ensures |c| <= 33
  {
    hide BigEndian, Pow2;
    if |c| > 33 {
      if c[0] == 0 {
        assert c == [0] + c[1..];
        BigEndianCons(0, c[1..]);
        LongNumber(c[1..]);
      } else {
        LongNumber(c);
      }
    }
  }

  /** A strict encoding is read back: accepted, and delivered as r and s whenever both are below the order. Bytes after
      it change nothing. */
  lemma StrictAccepted(r: seq<byte>, s: seq<byte>, rest: seq<byte>)
    requires 1 <= |r| <= 33 && 1 <= |s| <= 33
    ensures Contents(Strict(r, s) + rest) == Some((r, s))
  {
    var input := Strict(r, s) + rest;
    var p := 4 + |r|;
    assert input[0] == 0x30 && input[1] as int == 4 + |r| + |s| && input[2] == 0x02 && input[3] as int == |r|;
    assert input[4..p] == r;
    assert input[p] == 0x02 && input[p + 1] as int == |s|;
    assert input[p + 2..p + 2 + |s|] == s;
  }

  /** For all r and s below the order, the strict DER encoding is accepted and its contents stand for r and s. */
  lemma StrictDelivered(c: seq<byte>, d: seq<byte>, r: nat, s: nat, rest: seq<byte>)
    requires StrictContents(c, r) && StrictContents(d, s) && r < ORDER && s < ORDER
    ensures |c| <= 33 && |d| <= 33 && Contents(Strict(c, d) + rest) == Some((c, d))
    ensures BigEndian(c) == r && BigEndian(d) == s
  {
    hide BigEndian, Pow2, Strict, Contents;
    OrderBound();
    StrictShort(c, r);
    StrictShort(d, s);
    StrictAccepted(c, d, rest);
  }

  /** For all r and s below the order, reading their strict DER encoding, with anything behind it, delivers r and s as
      32-byte halves. */
  method ParseStrict(c: seq<byte>, d: seq<byte>, ghost r: nat, ghost s: nat, rest: seq<byte>)
    returns (ok: bool, sig: seq<byte>)
    requires StrictContents(c, r) && StrictContents(d, s) && r < ORDER && s < ORDER
    ensures ok && IsSignature(sig, r, s)
  {
    StrictDelivered(c, d, r, s, rest);
    hide *;
    ok, sig := ParseDerLax(Strict(c, d) + rest);
  }
}
