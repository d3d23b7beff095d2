/** The compact target, 256-bit words and the nonce search (krypton_native.c). */
module NonceSearch {
  import opened Words
  import opened Nonlinear

  const TWO256: int := 0x1_0000_0000_0000_0000_0000_0000_0000_0000_0000_0000_0000_0000_0000_0000_0000_0000

  /** The number in four words, most significant first. */
  function Value4(a: int, b: int, c: int, d: int): int { ((a * TWO64 + b) * TWO64 + c) * TWO64 + d }

  function Value(w: array<uint64>): int
    requires w.Length == 4
    reads w
  {
    Value4(w[0] as int, w[1] as int, w[2] as int, w[3] as int)
  }

  // ---- uint256_shift_left ----

  /** The word shift by 64 bits. */
  method ShiftWord(value: array<uint64>)
    requires value.Length == 4
    modifies value
    ensures Value(value) == old(Value(value)) * TWO64 % TWO256
  {
    ghost var a, b, c, d := value[0] as int, value[1] as int, value[2] as int, value[3] as int;
    for i := 0 to 3
      invariant forall k :: 0 <= k < i ==> value[k] == old(value[k + 1])
      invariant forall k :: i <= k < 4 ==> value[k] == old(value[k])
    {
      value[i] := value[i + 1];
    }
    value[3] := 0;
    DivUnique(Value4(a, b, c, d) * TWO64, TWO256, a, Value4(b, c, d, 0));
  }

  /** One word shifted left by s < 64, with the bits it loses and keeps. */
  lemma WordShift(x: int, p: int, q: int)
    requires 0 <= x < TWO64 && p > 0 && q > 0 && p * q == TWO64
    ensures x * p == TWO64 * (x / q) + x % q * p && x * p % TWO64 == x % q * p
    ensures 0 <= x / q < p && 0 <= x % q * p < TWO64 && x % q * p + p <= TWO64
  {
    MulDistr(p, q * (x / q), x % q);
    MulAssoc(p, q, x / q);
    MulLe(p, x % q, q - 1);
    MulLe(p, 0, x % q);
    MulDistr(p, q, -1);
    DivUnique(x * p, TWO64, x / q, x % q * p);
    if x / q >= p {
      MulLe(q, p, x / q);
    }
  }

  /** value[i] <<= s; value[i] |= value[i + 1] >> (64 - s) */
  function Joined(high: uint64, low: uint64, s: nat): (r: uint64)
    requires 0 < s < 64
    ensures r as int == high as int % Pow2(64 - s) * Pow2(s) + low as int / Pow2(64 - s)
  {
    var p, q := Pow2(s), Pow2(64 - s);
    Split64(s);
    WordShift(high as int, p, q);
    WordShift(low as int, p, q);
    BitOrComm(high as int * p % TWO64, low as int / q);
    BitOrDisjoint(low as int / q, high as int % q, s);
    BitOr((high as int * p) % TWO64, low as int / q) as uint64
  }

  lemma Split64(s: nat)
    requires s <= 64
    ensures Pow2(s) * Pow2(64 - s) == TWO64
  {
    hide Pow2;
    Pow2Adds(s, 64 - s);
    SmallPow2();
    Pow2Adds(8, 8);
    Pow2Adds(16, 16);
    Pow2Adds(32, 32);
  }

  lemma SmallPow2()
    ensures Pow2(8) == 256 && Pow2(0) == 1
  {
  }

  /** The shifted words together. */
  lemma ShiftedValue(a: int, b: int, c: int, d: int, p: int, q: int)
    requires 0 <= a < TWO64 && 0 <= b < TWO64 && 0 <= c < TWO64 && 0 <= d < TWO64 && p > 0 && q > 0 && p * q == TWO64
    ensures Value4(a % q * p + b / q, b % q * p + c / q, c % q * p + d / q, d % q * p)
            == Value4(a, b, c, d) * p % TWO256
  {
    WordShift(a, p, q);
    WordShift(b, p, q);
    WordShift(c, p, q);
    WordShift(d, p, q);
    var r := Value4(a % q * p + b / q, b % q * p + c / q, c % q * p + d / q, d % q * p);
    ScaledValue(a, b, c, d, p);
    DivUnique(Value4(a, b, c, d) * p, TWO256, a / q, r);
  }

  lemma ScaledValue(a: int, b: int, c: int, d: int, p: int)
    ensures Value4(a, b, c, d) * p == Value4(a * p, b * p, c * p, d * p)
  {
  }

  /** The bit shift by less than a word. */
  method ShiftBits(value: array<uint64>, s: nat)
    requires value.Length == 4 && 0 < s < 64
    modifies value
    ensures Value(value) == old(Value(value)) * Pow2(s) % TWO256
  {
    hide Pow2, Value4;
    ghost var a, b, c, d := value[0] as int, value[1] as int, value[2] as int, value[3] as int;
    Split64(s);
    ShiftedValue(a, b, c, d, Pow2(s), Pow2(64 - s));
    WordShift(d, Pow2(s), Pow2(64 - s));
    value[0] := Joined(value[0], value[1], s);
    value[1] := Joined(value[1], value[2], s);
    value[2] := Joined(value[2], value[3], s);
    value[3] := ((value[3] as int * Pow2(s)) % TWO64) as uint64;
  }

  /** Shifting twice. */
  lemma ShiftTwice(v: int, x: int, y: int)
    ensures v * x % TWO256 * y % TWO256 == v * (x * y) % TWO256
  {
    var m := v * x;
    var k, r := m / TWO256, m % TWO256;
    assert m == TWO256 * k + r;
    MulAssoc(v, x, y);
    MulDistr(y, TWO256 * k, r);
    MulAssoc(y, TWO256, k);
    var z := r * y;
    DivUnique(m * y, TWO256, k * y + z / TWO256, z % TWO256);
  }

  /** uint256_shift_left. C leaves a shift by the whole width of a word undefined; the loop ends at such a shift exactly
      for 64, 128 and 192. For every other shift the result is the product with 2^shift modulo 2^256. */
  method ShiftLeft(value: array<uint64>, shift: byte) returns (defined: bool)
    requires value.Length == 4
    modifies value
    ensures defined <==> shift != 64 && shift != 128 && shift != 192
    ensures defined ==> Value(value) == old(Value(value)) * Pow2(shift as nat) % TWO256
  {
    hide Pow2, Value;
    var s := shift as nat;
    ghost var v := Value(value);
    ValueRange(value);
    SmallPow2();
    MulOne(v);
    ghost var done := 0;
    while s > 64
      invariant 0 <= done && 0 <= s && s + done == shift as nat && done % 64 == 0
      invariant done > 0 ==> s > 0
      invariant Value(value) == v * Pow2(done) % TWO256
    {
      ShiftTwice(v, Pow2(done), TWO64);
      Pow2Adds(done, 64);
      Split64(64);
      ShiftWord(value);
      s := s - 64;
      done := done + 64;
    }
    if s == 0 {
      return true;
    }
    if s == 64 {
      return false;
    }
    ShiftTwice(v, Pow2(done), Pow2(s));
    Pow2Adds(done, s);
    ShiftBits(value, s);
    return true;
  }

  lemma MulOne(v: int)
    requires 0 <= v < TWO256
    ensures v * 1 % TWO256 == v
  {
  }

  lemma ValueRange(w: array<uint64>)
    requires w.Length == 4
    ensures 0 <= Value(w) < TWO256
  {
  }

  // ---- uint256_set_compact ----

  /** The shift that uint256_set_compact computes: the exponent less 3 in 32 bits, times 8, cut to a byte. */
  function CompactShift(compact: uint32): (s: byte)
    ensures s as int == 8 * ((compact as int / 0x100_0000 - 3) % 32)
  {
    var e := (compact as int / 0x100_0000 - 3) % 0x1_0000_0000;
    CompactWrap(compact as int / 0x100_0000 - 3);
    (8 * e % 0x1_0000_0000 % 0x100) as byte
  }

  lemma CompactWrap(d: int)
    ensures 8 * (d % 0x1_0000_0000) % 0x1_0000_0000 % 0x100 == 8 * (d % 32)
  {
    var q := d / 0x1_0000_0000;
    var e := d % 0x1_0000_0000;
    assert d == 32 * (0x800_0000 * q + e / 32) + e % 32;
    DivUnique(d, 32, 0x800_0000 * q + e / 32, e % 32);
    DivUnique(8 * e, 0x1_0000_0000, e / 0x2000_0000, 8 * (e % 0x2000_0000));
    var f := e % 0x2000_0000;
    DivUnique(8 * f, 0x100, f / 32, 8 * (f % 32));
    DivUnique(e, 32, 0x100_0000 * (e / 0x2000_0000) + f / 32, f % 32);
  }

  /** The target: the mantissa shifted, as the program computes it whenever the shift is defined. */
  function Computed(compact: uint32): int
  {
    compact as int % 0x100_0000 * Pow2(CompactShift(compact) as nat) % TWO256
  }

  predicate Defined(compact: uint32)
  {
    var s := CompactShift(compact);
    s != 64 && s != 128 && s != 192
  }

  /** uint256_set_compact into a fresh number. */
  method SetCompact(out: array<uint64>, compact: uint32) returns (defined: bool)
    requires out.Length == 4 && out[0] == 0 && out[1] == 0 && out[2] == 0
    modifies out
    ensures defined <==> Defined(compact)
    ensures defined ==> Value(out) == Computed(compact)
  {
    hide Pow2, CompactShift;
    out[3] := (compact as int % 0x100_0000) as uint64;
    defined := ShiftLeft(out, CompactShift(compact));
  }

  /** Exponents 11, 19 and 27 are the undefined ones, together with those that differ from them by multiples of 32. */
  lemma DefinedExponents(compact: uint32)
    ensures Defined(compact) <==> var e := compact as int / 0x100_0000 % 32; e != 11 && e != 19 && e != 27
  {
    var e := compact as int / 0x100_0000;
    DivUnique(e - 3, 32, if e % 32 >= 3 then e / 32 else e / 32 - 1, if e % 32 >= 3 then e % 32 - 3 else e % 32 + 29);
  }

  /** Where the shift is defined: for exponents 3 to 34 the target is mantissa * 2^(8 (e - 3)) modulo 2^256, and an
      exponent below 3 acts like the exponent 32 larger. For larger exponents that product is 0 modulo 2^256. */
  lemma CompactMeaning(compact: uint32)
    ensures var e, m := compact as int / 0x100_0000, compact as int % 0x100_0000;
            && (3 <= e <= 34 && Defined(compact) ==> Computed(compact) == m * Pow2(8 * (e - 3)) % TWO256)
            && (e < 3 ==> Defined(compact) && Computed(compact) == m * Pow2(8 * (e + 29)) % TWO256)
            && (e >= 35 ==> m * Pow2(8 * (e - 3)) % TWO256 == 0)
  {
    hide Pow2;
    var e, m := compact as int / 0x100_0000, compact as int % 0x100_0000;
    if e < 3 {
      DivUnique(e - 3, 32, -1, e + 29);
    } else if e <= 34 {
      DivUnique(e - 3, 32, 0, e - 3);
    } else {
      var k := 8 * (e - 3) - 256;
      Pow2Adds(256, k);
      Pow2At256();
      MulAssoc(m, TWO256, Pow2(k));
      assert m * TWO256 * Pow2(k) == TWO256 * (m * Pow2(k));
      DivUnique(m * Pow2(256 + k), TWO256, m * Pow2(k), 0);
    }
  }

  /** For exponents from 3 on, exactly when the code leaves mantissa * 2^(8 (e - 3)) modulo 2^256: the exponent is not
      11, 19 or 27 modulo 32, where the C shift is undefined, and it is at most 34 or the wrapped shift moves the whole
      mantissa out. */
  lemma CompactExactly(compact: uint32)
    requires compact >= 0x300_0000
    ensures var e, m := compact as int / 0x100_0000, compact as int % 0x100_0000;
            Defined(compact) && Computed(compact) == m * Pow2(8 * (e - 3)) % TWO256
            <==> e % 32 != 11 && e % 32 != 19 && e % 32 != 27 && (e <= 34 || m % Pow2(256 - 8 * ((e - 3) % 32)) == 0)
  {
    DefinedExponents(compact);
    hide Pow2, Defined;
    CompactMeaning(compact);
    var m, s := compact as int % 0x100_0000, CompactShift(compact) as nat;
    Pow2At256();
    Pow2Adds(s, 256 - s);
    ShiftedOut(m, Pow2(s), Pow2(256 - s));
  }

  /** A product with p vanishes modulo p q exactly when q divides. */
  lemma ShiftedOut(m: int, p: int, q: int)
    requires 0 <= m && 0 < p && 0 < q
    ensures p * q > 0 && (m * p % (p * q) == 0 <==> m % q == 0)
  {
    var k, r := m / q, m % q;
    calc {
      m * p;
      (q * k + r) * p;
      { MulDistr(p, q * k, r); }
      q * k * p + r * p;
      (p * q) * k + r * p;
    }
    MulLe(p, r + 1, q);
    MulLe(p, 0, r);
    MulLe(p, 1, q);
    assert p * (r + 1) == p * r + p;
    DivUnique(m * p, p * q, k, r * p);
  }

  lemma Pow2At256()
    ensures Pow2(256) == TWO256
  {
    hide Pow2;
    Split64(64);
    SmallPow2();
    Pow2Adds(64, 64);
    Pow2Adds(128, 128);
  }

  /** A compact number outside the range: exponent 35 and mantissa 1 give 1 instead of 0. */
  lemma CompactCounterexample()
    ensures Computed(0x2300_0001) == 1 && Pow2(8 * (35 - 3)) % TWO256 == 0
  {
    Pow2At256();
    hide Pow2;
    SmallPow2();
  }

  // ---- uint256_compare and uint256_set_bytes ----

  /** The order of the numbers. */
  method Compare(left: array<uint64>, right: array<uint64>) returns (r: int8)
    requires left.Length == 4 && right.Length == 4
    ensures r == if Value(left) < Value(right) then -1 else if Value(left) > Value(right) then 1 else 0
  {
    for i := 0 to 4
      invariant forall k :: 0 <= k < i ==> left[k] == right[k]
    {
      if left[i] < right[i] { return -1; }
      if left[i] > right[i] { return 1; }
    }
    return 0;
  }

  /** htobe64 of the eight bytes at position 8 i. */
  function WordAt(bytes: seq<byte>, i: nat): (w: uint64)
    requires |bytes| == 32 && i < 4
    ensures w as int == BigEndian(bytes[8 * i..8 * i + 8])
  {
    BigEndianBelow(bytes[8 * i..8 * i + 8]);
    Split64(64);
    SmallPow2();
    BigEndian(bytes[8 * i..8 * i + 8]) as uint64
  }

  /** uint256_set_bytes: the 32 bytes as a big-endian number. */
  method SetBytes(out: array<uint64>, bytes: seq<byte>)
    requires out.Length == 4 && |bytes| == 32
    modifies out
    ensures Value(out) == BigEndian(bytes)
  {
    hide BigEndian, Pow2;
    for i := 0 to 4
      invariant forall k :: 0 <= k < i ==> out[k] == WordAt(bytes, k)
    {
      out[i] := WordAt(bytes, i);
    }
    BytesValue(bytes);
  }

  lemma BytesValue(b: seq<byte>)
    requires |b| == 32
    ensures Value4(BigEndian(b[0..8]), BigEndian(b[8..16]), BigEndian(b[16..24]), BigEndian(b[24..32])) == BigEndian(b)
  {
    hide BigEndian, Pow2;
    Split64(64);
    SmallPow2();
    assert b[..16] == b[0..8] + b[8..16] && b[..24] == b[..16] + b[16..24] && b == b[..24] + b[24..32];
    BigEndianAppend(b[0..8], b[8..16]);
    BigEndianAppend(b[..16], b[16..24]);
    BigEndianAppend(b[..24], b[24..32]);
  }

  // ---- krypton_argon2_target ----

  type Hash = seq<byte> -> seq<byte>

  /** htobe32 */
  function Nonce(n: uint32): (s: seq<byte>)
    ensures |s| == 4
  {
    var b := Bytes(n as nat, 4);
    [b[3], b[2], b[1], b[0]]
  }

  /** Most significant byte first. */
  lemma NonceValue(n: uint32)
    ensures BigEndian(Nonce(n)) == n as int
  {
    var b := Bytes(n as nat, 4);
    Reversed4(b[0], b[1], b[2], b[3]);
    assert b == [b[0], b[1], b[2], b[3]];
    hide Bytes, BigEndian, LittleEndian;
    Pow2At32();
    BytesLittleEndian(n as nat, 4);
  }

  /** The strings with a given head and tail. */
  lemma NonceString(head: seq<byte>, n: uint32, x: seq<byte>)
    requires |x| == |head| + 4 && x[..|head|] == head && BigEndian(x[|head|..]) == n as int
    ensures x == head + Nonce(n)
  {
    hide Nonce, BigEndian;
    NonceValue(n);
    BigEndianInjective(x[|head|..], Nonce(n));
  }

  /** The hash of the input with nonce n is below the target. */
  ghost predicate Good(H: Hash, head: seq<byte>, n: uint32, target: int)
  {
    BigEndian(H(head + Nonce(n))) < target
  }

  /** The search: the least good nonce from minNonce on and below maxNonce; without one, maxNonce, or minNonce when
      the range is empty. The nonce is left in the last four bytes of the input, the last hash in out. */
  method Target(H: Hash, input: array<byte>, compact: uint32, minNonce: uint32, maxNonce: uint32)
    returns (defined: bool, nonce: uint32, out: seq<byte>)
    requires (forall m :: |H(m)| == 32) && input.Length >= 4
    modifies input
    ensures defined <==> Defined(compact)
    ensures defined ==>
              var head, t := old(input[..input.Length - 4]), Computed(compact);
              && (forall n: uint32 :: minNonce <= n < nonce ==> !Good(H, head, n, t))
              && (if minNonce >= maxNonce then nonce == minNonce
                  else minNonce <= nonce <= maxNonce)
              && (minNonce < maxNonce && nonce < maxNonce ==> Good(H, head, nonce, t) && out == H(head + Nonce(nonce)))
              && input[..] == head + Nonce(nonce)
    ensures defined ==>
              var head, n, t := old(input[..input.Length - 4]), input.Length - 4, Computed(compact);
              && input[..n] == head && BigEndian(input[..][n..]) == nonce as int
              && (forall x {:trigger H(x)} :: |x| == n + 4 && x[..n] == head ==>
                    minNonce as int <= BigEndian(x[n..]) < nonce as int ==> t <= BigEndian(H(x)))
              && (minNonce < maxNonce && nonce < maxNonce ==> BigEndian(H(input[..])) < t && out == H(input[..]))
  {
    hide BigEndian, Nonce, Computed, Defined, Good, Value;
    out := [];
    nonce := minNonce;
    var target := new uint64[4](_ => 0);
    var hash := new uint64[4](_ => 0);
    defined := SetCompact(target, compact);
    if !defined {
      return;
    }
    ghost var head, t := input[..input.Length - 4], Computed(compact);
    StoreNonce(input, nonce);
    while nonce < maxNonce
      invariant minNonce <= nonce && (minNonce < maxNonce ==> nonce <= maxNonce)
      invariant minNonce >= maxNonce ==> nonce == minNonce
      invariant input[..] == head + Nonce(nonce) && Value(target) == t
      invariant forall n: uint32 :: minNonce <= n < nonce ==> !Good(H, head, n, t)
    {
      var good;
      good, out := TryNonce(H, input, target, hash, head, nonce);
      if good {
        break;
      }
      nonce := nonce + 1;
      assert input[..input.Length - 4] == head;
      StoreNonce(input, nonce);
    }
    NonceAtEnd(head, nonce, input[..]);
    NoSmaller(H, head, minNonce, nonce, t);
    GoodIs(H, head, nonce, t);
  }

  lemma NonceAtEnd(head: seq<byte>, n: uint32, x: seq<byte>)
    requires x == head + Nonce(n)
    ensures x[..|head|] == head && BigEndian(x[|head|..]) == n as int
  {
    hide Nonce, BigEndian;
    NonceValue(n);
    assert x[|head|..] == Nonce(n);
  }

  lemma GoodIs(H: Hash, head: seq<byte>, n: uint32, t: int)
    ensures Good(H, head, n, t) <==> BigEndian(H(head + Nonce(n))) < t
  {
  }

  lemma NoSmaller(H: Hash, head: seq<byte>, minNonce: uint32, nonce: uint32, t: int)
    requires forall n: uint32 :: minNonce <= n < nonce ==> !Good(H, head, n, t)
    ensures forall x {:trigger H(x)} :: |x| == |head| + 4 && x[..|head|] == head ==>
              minNonce as int <= BigEndian(x[|head|..]) < nonce as int ==> t <= BigEndian(H(x))
  {
    hide Nonce, BigEndian, Good;
    forall x | |x| == |head| + 4 && x[..|head|] == head && minNonce as int <= BigEndian(x[|head|..]) < nonce as int
      ensures t <= BigEndian(H(x))
    {
      var n := BigEndian(x[|head|..]) as uint32;
      NonceString(head, n, x);
      GoodIs(H, head, n, t);
    }
  }

  /** One hash and its comparison with the target. */
  method TryNonce(H: Hash, input: array<byte>, target: array<uint64>, hash: array<uint64>, ghost head: seq<byte>,
                  ghost nonce: uint32)
    returns (good: bool, out: seq<byte>)
    requires (forall m :: |H(m)| == 32) && input[..] == head + Nonce(nonce)
    requires target.Length == 4 && hash.Length == 4 && target != hash
    modifies hash
    ensures out == H(head + Nonce(nonce)) && (good <==> Good(H, head, nonce, Value(target)))
  {
    hide BigEndian, Nonce, Value;
    out := H(input[..]);
    SetBytes(hash, out);
    var order := Compare(target, hash);
    good := order > 0;
  }

  /** noncer[0] = htobe32(nonce) */
  method StoreNonce(input: array<byte>, nonce: uint32)
    requires input.Length >= 4
    modifies input
    ensures input[..] == old(input[..input.Length - 4]) + Nonce(nonce)
  {
    hide Nonce;
    var s, at := Nonce(nonce), input.Length - 4;
    forall i | 0 <= i < 4 {
      input[at + i] := s[i];
    }
  }
}
