/** blake2b_update, blake2b_final and blake2b_long (blake2b.c). Section 3.3 of RFC 7693 and section 3.3 of RFC 9106. */
module Blake2b {
  import opened Words
  import opened HashStreams

  const BLOCK: nat := 128
  const OUTBYTES: nat := 64
  const TWO128: int := 0x1_0000_0000_0000_0000_0000_0000_0000_0000

  /** The compression function: chaining value, block, 128-bit byte counter, last-block flag. */
  type Compress = (Words8, seq<byte>, nat, bool) -> Words8

  /** The chaining value before the last block, which is never empty unless the message is. */
  ghost function Chain(F: Compress, h: Words8, t: nat, m: seq<byte>): Words8
    decreases |m|
  {
    if |m| <= BLOCK then h else Chain(F, F(h, m[..BLOCK], (t + BLOCK) % TWO128, false), t + BLOCK, m[BLOCK..])
  }

  /** The last block, before padding. */
  ghost function Last(m: seq<byte>): (r: seq<byte>)
    ensures |r| <= BLOCK && |r| <= |m| && (m != [] ==> r != [])
    decreases |m|
  {
    if |m| <= BLOCK then m else Last(m[BLOCK..])
  }

  /** The hash of section 3.3 of RFC 7693: the last block padded with zeros and compressed with the length of the
      message and the last-block flag. */
  ghost function Digest(F: Compress, initial: Words8, m: seq<byte>): Words8
  {
    F(Chain(F, initial, 0, m), Last(m) + Zeros(BLOCK - |Last(m)|), |m| % TWO128, true)
  }

  /** The first n bytes of the chaining value that it leaves, least significant byte of each word first. */
  ghost function DigestBytes(F: Compress, initial: Words8, n: nat, m: seq<byte>): (d: seq<byte>)
    requires n <= OUTBYTES
    ensures |d| == n
  {
    StoredWords(Digest(F, initial, m), false)[..n]
  }

  lemma {:induction false} Resume(F: Compress, h: Words8, t: nat, m: seq<byte>, x: seq<byte>)
    ensures Chain(F, h, t, m + x) == Chain(F, Chain(F, h, t, m), t + |m| - |Last(m)|, Last(m) + x)
    ensures Last(m + x) == Last(Last(m) + x)
    decreases |m|
  {
    if |m| > BLOCK {
      assert (m + x)[..BLOCK] == m[..BLOCK] && (m + x)[BLOCK..] == m[BLOCK..] + x;
      Resume(F, F(h, m[..BLOCK], (t + BLOCK) % TWO128, false), t + BLOCK, m[BLOCK..], x);
    }
  }

  /** One more block: when something follows it, a block is compressed with the number of bytes up to its end and
      without the last-block flag. */
  lemma {:induction false} ChainLast(F: Compress, h: Words8, t: nat, m: seq<byte>, x: seq<byte>)
    requires m != [] && |m| % BLOCK == 0 && 0 < |x| <= BLOCK
    ensures |Last(m)| == BLOCK && Last(m) == m[|m| - BLOCK..] && Last(m + x) == x
    ensures Chain(F, h, t, m + x) == F(Chain(F, h, t, m), Last(m), (t + |m|) % TWO128, false)
    decreases |m|
  {
    hide Chain, Last;
    var g := F(h, m[..BLOCK], (t + BLOCK) % TWO128, false);
    assert (m + x)[..BLOCK] == m[..BLOCK] && (m + x)[BLOCK..] == m[BLOCK..] + x;
    ChainBlock(F, h, t, m);
    ChainBlock(F, h, t, m + x);
    if |m| > BLOCK {
      ChainLast(F, g, t + BLOCK, m[BLOCK..], x);
      assert m[BLOCK..][|m| - BLOCK - BLOCK..] == m[|m| - BLOCK..];
    } else {
      assert m[..BLOCK] == m && m[BLOCK..] + x == x;
      ChainBlock(F, g, t + BLOCK, x);
    }
  }

  /** Before the last block nothing has been compressed but the whole blocks in front of it. The last block is padded
      with zeros and compressed with the length of the message and the flag. */
  lemma DigestMeaning(F: Compress, initial: Words8, m: seq<byte>, x: seq<byte>, z: seq<byte>)
    requires |m| % 128 == 0 && |x| <= 128 && (x == [] ==> m == [])
    requires |x| + |z| == 128 && forall i :: 0 <= i < |z| ==> z[i] == 0
    ensures Digest(F, initial, m + x) == F(Chain(F, initial, 0, m + x), x + z, (|m| + |x|) % TWO128, true)
    ensures Chain(F, initial, 0, m + x)
            == if m == [] then initial else F(Chain(F, initial, 0, m), m[|m| - 128..], |m| % TWO128, false)
  {
    assert z == Zeros(|z|);
    ChainBlock(F, initial, 0, m + x);
    if m == [] {
      assert m + x == x;
    } else {
      hide Chain, Last;
      ChainLast(F, initial, 0, m, x);
    }
  }

  /** Unfolding one block. */
  lemma ChainBlock(F: Compress, h: Words8, t: nat, m: seq<byte>)
    ensures |m| <= BLOCK ==> Chain(F, h, t, m) == h && Last(m) == m
    ensures |m| > BLOCK ==>
              Chain(F, h, t, m) == Chain(F, F(h, m[..BLOCK], (t + BLOCK) % TWO128, false), t + BLOCK, m[BLOCK..])
              && Last(m) == Last(m[BLOCK..])
  {
  }

  class State {
    const F: Compress
    const initial: Words8
    const outlen: nat
    var h: Words8
    var t0: uint64
    var t1: uint64
    var finished: bool
    var buf: array<byte>
    var buflen: nat
    ghost var data: seq<byte>

    ghost predicate Counts(n: nat)
      reads this
    {
      t0 as int + TWO64 * t1 as int == n % TWO128
    }

    ghost predicate Valid()
      reads this, buf
    {
      && 1 <= outlen <= OUTBYTES && buf.Length == BLOCK && buflen <= BLOCK
      && (!finished ==>
            h == Chain(F, initial, 0, data) && buf[..buflen] == Last(data) && Counts(|data| - |Last(data)|))
    }

    /** blake2b_init for a digest of outlen bytes, which the initial value depends on. */
    constructor (F: Compress, initial: Words8, outlen: nat)
      requires 1 <= outlen <= OUTBYTES
      ensures Valid() && fresh(buf) && data == [] && !finished
      ensures this.F == F && this.initial == initial && this.outlen == outlen
    {
      this.F := F;
      this.initial := initial;
      this.outlen := outlen;
      h := initial;
      t0, t1 := 0, 0;
      finished := false;
      buf := new byte[BLOCK];
      buflen := 0;
      data := [];
    }

    /** blake2b_increment_counter: the carry is seen from the wrap-around. */
    method Increment(inc: uint64, ghost n: nat)
      requires Counts(n)
      modifies this`t0, this`t1
      ensures Counts(n + inc as nat)
    {
      var sum := (t0 as int + inc as int) % TWO64;
      CarryOut(t0 as int, t1 as int, inc as int, n);
      t0 := sum as uint64;
      t1 := ((t1 as int + if t0 < inc then 1 else 0) % TWO64) as uint64;
    }

    /** One block of the message: counted and compressed. The ghost arguments say what has been compressed so far
        and what is still to come. */
    method Block(block: seq<byte>, ghost n: nat, ghost rest: seq<byte>)
      requires |block| == BLOCK && rest != [] && Counts(n)
      modifies this`h, this`t0, this`t1
      ensures Counts(n + BLOCK) && Chain(F, h, n + BLOCK, rest) == Chain(F, old(h), n, block + rest)
      ensures Last(block + rest) == Last(rest)
    {
      ChainBlock(F, h, n, block + rest);
      assert (block + rest)[..BLOCK] == block && (block + rest)[BLOCK..] == rest;
      hide Chain, Last;
      Increment(BLOCK as uint64, n);
      h := F(h, block, CounterValue(n + BLOCK), false);
    }

    /** The counter as the compression function sees it. */
    function CounterValue(ghost n: nat): (t: nat)
      requires Counts(n)
      reads this
      ensures t == n % TWO128
    {
      (t0 as int + TWO64 * t1 as int) as nat
    }

    /** The branch of blake2b_update that completes the current block and takes further blocks directly, always
        leaving at least one byte. */
    method TakeBlocks(input: seq<byte>, ghost n: nat) returns (pos: nat)
      requires buf.Length == BLOCK && buflen <= BLOCK && buflen + |input| > BLOCK && Counts(n)
      modifies this, buf
      ensures buf == old(buf) && data == old(data) && finished == old(finished)
      ensures buflen == 0 && pos <= |input| && 0 < |input| - pos <= BLOCK
      ensures h == Chain(F, old(h), n, old(buf[..buflen]) + input) && Last(old(buf[..buflen]) + input) == input[pos..]
      ensures Counts(n + old(buflen) + pos)
    {
      hide Chain, Last;
      ghost var held, h0 := buf[..buflen], h;
      var fill := BLOCK - buflen;
      CopyAt(buf, buflen, input[..fill]);
      assert buf[..] == buf[..BLOCK];
      Block(buf[..], n, input[fill..]);
      assert held + input == held + input[..fill] + input[fill..];
      buflen := 0;
      pos := fill;
      ghost var count: nat := n + BLOCK;
      while |input| - pos > BLOCK
        invariant fill <= pos < |input| && buf == old(buf) && data == old(data)
        invariant finished == old(finished) && buflen == 0
        invariant Counts(count) && count == n + |held| + pos
        invariant Chain(F, h, count, input[pos..]) == Chain(F, h0, n, held + input)
        invariant Last(input[pos..]) == Last(held + input)
        decreases |input| - pos
      {
        assert input[pos..] == input[pos..pos + BLOCK] + input[pos + BLOCK..];
        Block(input[pos..pos + BLOCK], count, input[pos + BLOCK..]);
        count := count + BLOCK;
        pos := pos + BLOCK;
      }
      ChainBlock(F, h, count, input[pos..]);
    }

    /** The rest of the input is held back behind what the buffer holds. */
    method Hold(rest: seq<byte>)
      requires buf.Length == BLOCK && buflen + |rest| <= BLOCK
      modifies this`buflen, buf
      ensures buflen == old(buflen) + |rest| && buf[..buflen] == old(buf[..buflen]) + rest
    {
      CopyAt(buf, buflen, rest);
      buflen := buflen + |rest|;
    }

    /** The input joins the block held back. */
    method TakeInput(input: seq<byte>, ghost n: nat)
      requires buf.Length == BLOCK && buflen <= BLOCK && Counts(n) && buf[..buflen] == Last(buf[..buflen])
      modifies this, buf
      ensures buf == old(buf) && data == old(data) && finished == old(finished) && buflen <= BLOCK
      ensures var all := old(buf[..buflen]) + input;
              h == Chain(F, old(h), n, all) && buf[..buflen] == Last(all) && Counts(n + |all| - buflen)
    {
      hide Chain, Last;
      ghost var all := buf[..buflen] + input;
      var pos := 0;
      if buflen + |input| > BLOCK {
        pos := TakeBlocks(input, n);
        assert buf[..0] == [];
      } else {
        ChainBlock(F, h, n, all);
      }
      Hold(input[pos..]);
    }

    /** blake2b_update: nothing happens for an empty input; otherwise -1 for a null pointer and for a state already
        used up, and else the state depends only on the concatenation of everything hashed. */
    method Update(input: Field) returns (r: int)
      requires Valid()
      modifies this, buf
      ensures Valid() && buf == old(buf) && finished == old(finished)
      ensures r == if input.Size() != 0 && (input.Null? || finished) then -1 else 0
      ensures data == if r == 0 && input.Data? then old(data) + input.bytes else old(data)
    {
      if input.Size() == 0 {
        assert input.Data? ==> data + input.bytes == data;
        return 0;
      }
      if input.Null? || finished {
        return -1;
      }
      Absorb(input.bytes);
      return 0;
    }

    method Absorb(input: seq<byte>)
      requires Valid() && !finished
      modifies this, buf
      ensures Valid() && buf == old(buf) && !finished && data == old(data) + input
    {
      hide Chain, Last;
      Resume(F, initial, 0, data, input);
      LastShort(data);
      TakeInput(input, |data| - |Last(data)|);
      data := data + input;
    }

    /** blake2b_final into a place of n bytes: -1 for a null pointer, a place too short, and a state already used up;
        else the digest of everything hashed, in the first outlen bytes only. */
    method Final(out: array?<byte>, n: nat) returns (r: int)
      requires Valid() && (out != null ==> n <= out.Length && out != buf)
      modifies this, buf, out
      ensures Valid() && buf == old(buf)
      ensures r == if out == null || n < outlen || old(finished) then -1 else 0
      ensures finished == (r == 0 || old(finished))
      ensures r == 0 ==>
                && out[..outlen] == DigestBytes(F, initial, outlen, old(data))
                && out[outlen..] == old(out[outlen..])
      ensures r == 0 ==> Delivered(out[..outlen], Digest(F, initial, old(data)))
      ensures r == -1 && out != null ==> out[..] == old(out[..])
    {
      if out == null || n < outlen {
        return -1;
      }
      if finished {
        return -1;
      }
      hide Chain, Last, Digest, StoredWords, Delivered;
      Finish();
      var buffer := new byte[OUTBYTES];
      StoreWords(h, false, buffer);
      StoredDelivered(h, outlen);
      assert buffer[..] == buffer[..OUTBYTES] && out[..0] == [];
      CopyAt(out, 0, buffer[..outlen]);
      ZeroFill(buf, 0, BLOCK);
      h := seq(8, _ => 0);
      return 0;
    }

    /** The last block, padded with zeros. */
    method Finish()
      requires Valid() && !finished
      modifies this, buf
      ensures Valid() && buf == old(buf) && finished && h == Digest(F, initial, old(data))
    {
      hide Chain, Last;
      ghost var n := |data| - |Last(data)|;
      ghost var last := buf[..buflen];
      Increment(buflen as uint64, n);
      finished := true;
      ZeroFill(buf, buflen, BLOCK);
      assert buf[..] == buf[..BLOCK];
      h := F(h, buf[..], CounterValue(n + |last|), true);
    }
  }

  lemma LastShort(m: seq<byte>)
    ensures Last(Last(m)) == Last(m)
  {
  }

  lemma CarryOut(t0: int, t1: int, inc: int, n: nat)
    requires 0 <= t0 < TWO64 && 0 <= t1 < TWO64 && 0 <= inc < TWO64 && t0 + TWO64 * t1 == n % TWO128
    ensures var s := (t0 + inc) % TWO64;
            s + TWO64 * ((t1 + if s < inc then 1 else 0) % TWO64) == (n + inc) % TWO128
  {
    var carry := if t0 + inc >= TWO64 then 1 else 0;
    assert (t0 + inc) % TWO64 == t0 + inc - TWO64 * carry;
    assert n + inc == TWO128 * (n / TWO128) + (t0 + inc + TWO64 * t1);
  }

  /** Any two ways of splitting a message into updates end in the same digest. */
  method SplitIndependent(F: Compress, initial: Words8, n: nat, parts: seq<seq<byte>>) returns (d: seq<byte>)
    requires 1 <= n <= OUTBYTES
    ensures d == DigestBytes(F, initial, n, Flatten(parts))
  {
    var s := new State(F, initial, n);
    for i := 0 to |parts|
      invariant s.Valid() && s.F == F && s.initial == initial && s.outlen == n && !s.finished
      invariant fresh(s) && fresh(s.buf)
      invariant s.data == Flatten(parts[..i])
    {
      FlattenLast(parts, i);
      var r := s.Update(Data(parts[i]));
    }
    assert parts[..|parts|] == parts;
    d := Extract(s);
  }

  // ---- variable-length output ----

  /** Unkeyed BLAKE2b: the compression and the initial value for a digest length. */
  datatype Instance = Instance(F: Compress, initial: nat -> Words8)
  {
    /** BLAKE2b with a digest of n bytes. */
    ghost function Hash(n: nat, m: seq<byte>): (d: seq<byte>)
      requires 1 <= n <= OUTBYTES
      ensures |d| == n
    {
      DigestBytes(F, initial(n), n, m)
    }
  }

  /** What follows the first half of a 64-byte value v when n more bytes are wanted: halves of repeated hashes, and a
      last hash of just the bytes that remain. */
  ghost function LongTail(I: Instance, v: seq<byte>, n: nat): (s: seq<byte>)
    requires 1 <= n
    ensures |s| == n
    decreases n
  {
    if n <= OUTBYTES then I.Hash(n, v)
    else
      var w := I.Hash(OUTBYTES, v);
      w[..32] + LongTail(I, w, n - 32)
  }

  /** V_1 = v and V_(i+1) = H^64(V_i) of section 3.3 of RFC 9106. */
  ghost function Repeated(I: Instance, v: seq<byte>, i: nat): (w: seq<byte>)
    requires i >= 1 && |v| == OUTBYTES
    ensures |w| == OUTBYTES
  {
    if i == 1 then v else I.Hash(OUTBYTES, Repeated(I, v, i - 1))
  }

  lemma {:induction false} RepeatedFirst(I: Instance, v: seq<byte>, i: nat)
    requires i >= 1 && |v| == OUTBYTES
    ensures Repeated(I, I.Hash(OUTBYTES, v), i) == Repeated(I, v, i + 1)
  {
    if i > 1 {
      RepeatedFirst(I, v, i - 1);
    }
  }

  /** H' of section 3.3 of RFC 9106. */
  ghost function Long(I: Instance, m: seq<byte>, n: nat): (s: seq<byte>)
    requires 1 <= n < 0x1_0000_0000
    ensures |s| == n
  {
    var prefixed := Bytes(n, 4) + m;
    if n <= OUTBYTES then I.Hash(n, prefixed)
    else
      var v := I.Hash(OUTBYTES, prefixed);
      v[..32] + LongTail(I, v, n - 32)
  }

  /** The first halves of V_1 to V_r. */
  ghost function Halves(I: Instance, v: seq<byte>, r: nat): (s: seq<byte>)
    requires |v| == OUTBYTES
    ensures |s| == 32 * r
  {
    if r == 0 then [] else Halves(I, v, r - 1) + Repeated(I, v, r)[..32]
  }

  lemma HalvesStep(I: Instance, v: seq<byte>, r: nat)
    requires |v| == OUTBYTES
    ensures Halves(I, v, 0) == [] && Repeated(I, v, 1) == v
    ensures Halves(I, v, r + 1) == Halves(I, v, r) + Repeated(I, v, r + 1)[..32]
  {
  }

  lemma {:induction false} HalvesFirst(I: Instance, v: seq<byte>, r: nat)
    requires |v| == OUTBYTES
    ensures Halves(I, v, r + 1) == v[..32] + Halves(I, I.Hash(OUTBYTES, v), r)
  {
    hide Long, LongTail, Halves, Repeated, DigestBytes, Bytes, LittleEndian;
    var w := I.Hash(OUTBYTES, v);
    HalvesStep(I, v, r);
    HalvesStep(I, w, 0);
    if r > 0 {
      HalvesFirst(I, v, r - 1);
      HalvesStep(I, w, r - 1);
      RepeatedFirst(I, v, r);
    }
  }

  lemma TailStep(I: Instance, v: seq<byte>, n: nat)
    requires 1 <= n
    ensures n <= OUTBYTES ==> LongTail(I, v, n) == I.Hash(n, v)
    ensures n > OUTBYTES ==>
              var w := I.Hash(OUTBYTES, v);
              LongTail(I, v, n) == w[..32] + LongTail(I, w, n - 32)
  {
  }

  lemma {:induction false} TailMeaning(I: Instance, v: seq<byte>, n: nat, r: nat)
    requires |v| == 64 && 32 * r + 32 < n <= 32 * r + 64
    ensures v[..32] + LongTail(I, v, n) == Halves(I, v, r + 1) + I.Hash(n - 32 * r, Repeated(I, v, r + 1))
    decreases n
  {
    hide Long, LongTail, Halves, Repeated, DigestBytes, Bytes, LittleEndian;
    var w := I.Hash(OUTBYTES, v);
    TailStep(I, v, n);
    HalvesFirst(I, v, r);
    HalvesStep(I, v, 0);
    HalvesStep(I, w, 0);
    if r > 0 {
      TailMeaning(I, w, n - 32, r - 1);
      RepeatedFirst(I, v, r);
      Joined(v[..32], Halves(I, w, r), I.Hash(n - 32 * r, Repeated(I, v, r + 1)));
    } else {
      assert v[..32] + [] == v[..32];
    }
  }

  lemma Joined(a: seq<byte>, b: seq<byte>, c: seq<byte>)
    ensures a + (b + c) == a + b + c
  {
  }

  lemma PrefixUnique(p: seq<byte>, n: nat)
    requires n < 0x1_0000_0000 && |p| == 4 && LittleEndian(p) == n
    ensures p == Bytes(n, 4)
  {
    hide Bytes, LittleEndian;
    Pow2At32();
    BytesLittleEndian(n, 4);
    LittleEndianInjective(p, Bytes(n, 4));
  }

  lemma LongParts(I: Instance, m: seq<byte>, n: nat)
    requires 1 <= n < 0x1_0000_0000
    ensures n <= OUTBYTES ==> Long(I, m, n) == I.Hash(n, Bytes(n, 4) + m)
    ensures n > OUTBYTES ==>
              var v := I.Hash(OUTBYTES, Bytes(n, 4) + m);
              Long(I, m, n) == v[..32] + LongTail(I, v, n - 32)
  {
    hide Bytes, LongTail, DigestBytes;
  }

  /** Section 3.3 of RFC 9106: with p the length as 32 bits, little-endian, a short output is one hash of p and m. A
      longer one is the first halves of V_1 = H^64(p m), V_2 = H^64(V_1), .., V_r with r = ceil(n / 32) - 2, and the
      hash of V_r of the length that remains. */
  lemma LongMeaning(I: Instance, m: seq<byte>, n: nat, p: seq<byte>, V: nat -> seq<byte>)
    requires 1 <= n < 0x1_0000_0000 && |p| == 4 && LittleEndian(p) == n
    requires forall i :: |V(i)| == 64
    requires V(1) == I.Hash(64, p + m) && forall i :: i >= 1 ==> V(i + 1) == I.Hash(64, V(i))
    ensures n <= 64 ==> Long(I, m, n) == I.Hash(n, p + m)
    ensures n > 64 ==>
              var r := (n + 31) / 32 - 2;
              && n - 32 * r <= 64 && Long(I, m, n)[32 * r..] == I.Hash(n - 32 * r, V(r))
              && forall i :: 1 <= i <= r ==> Long(I, m, n)[32 * (i - 1)..32 * i] == V(i)[..32]
  {
    hide Long, LongTail, Halves, Repeated, DigestBytes, Bytes, LittleEndian;
    PrefixUnique(p, n);
    LongParts(I, m, n);
    if n > 64 {
      var r, v := (n + 31) / 32 - 2, I.Hash(64, p + m);
      TailMeaning(I, v, n - 32, r - 1);
      RepeatedIs(I, V, r);
      forall i | 1 <= i <= r
        ensures Long(I, m, n)[32 * (i - 1)..32 * i] == V(i)[..32]
      {
        RepeatedIs(I, V, i);
        HalfAt(I, v, r, i);
        assert Long(I, m, n)[32 * (i - 1)..32 * i] == Halves(I, v, r)[32 * (i - 1)..32 * i];
      }
    }
  }

  lemma {:induction false} RepeatedIs(I: Instance, V: nat -> seq<byte>, i: nat)
    requires i >= 1 && (forall k :: |V(k)| == 64) && forall k :: k >= 1 ==> V(k + 1) == I.Hash(64, V(k))
    ensures Repeated(I, V(1), i) == V(i)
  {
    hide DigestBytes;
    if i > 1 {
      RepeatedIs(I, V, i - 1);
      assert V(i - 1 + 1) == I.Hash(64, V(i - 1));
    }
  }

  lemma {:induction false} HalfAt(I: Instance, v: seq<byte>, r: nat, i: nat)
    requires |v| == OUTBYTES && 1 <= i <= r
    ensures Halves(I, v, r)[32 * (i - 1)..32 * i] == Repeated(I, v, i)[..32]
  {
    hide Halves, Repeated, DigestBytes;
    HalvesStep(I, v, r - 1);
    if i < r {
      HalfAt(I, v, r - 1, i);
      assert Halves(I, v, r)[32 * (i - 1)..32 * i] == Halves(I, v, r - 1)[32 * (i - 1)..32 * i];
    } else {
      assert Halves(I, v, r)[32 * (r - 1)..32 * r] == Repeated(I, v, r)[..32];
    }
  }

  /** blake2b_init, two updates and blake2b_final; with an empty first part it is blake2b without a key. -1 exactly for
      a digest length that is not 1..64 and for a null pointer with a length. */
  method HashParts(I: Instance, n: nat, a: seq<byte>, b: Field) returns (r: int, d: seq<byte>)
    ensures r == if n == 0 || n > OUTBYTES || (b.Null? && b.length > 0) then -1 else 0
    ensures r == 0 ==> d == I.Hash(n, a + if b.Data? then b.bytes else [])
  {
    if n == 0 || n > OUTBYTES {
      return -1, [];
    }
    hide Digest, Chain, Last, DigestBytes;
    var s := new State(I.F, I.initial(n), n);
    assert [] + a == a && a + [] == a;
    r := s.Update(Data(a));
    r := s.Update(b);
    if r < 0 {
      return -1, [];
    }
    d := Extract(s);
  }

  /** blake2b_final into a place of just the length. */
  method Extract(s: State) returns (d: seq<byte>)
    requires s.Valid() && !s.finished
    modifies s, s.buf
    ensures d == DigestBytes(s.F, s.initial, s.outlen, old(s.data))
  {
    hide Digest, Chain, Last, DigestBytes;
    var out := new byte[s.outlen];
    var r := s.Final(out, s.outlen);
    d := out[..];
    assert out[..s.outlen] == d;
  }

  /** blake2b_long: -1 when no byte or more than 2^32 - 1 bytes are wanted, and for a null pointer with a length;
      otherwise it writes exactly outlen bytes, the variable-length hash. */
  method Blake2bLong(I: Instance, dst: array<byte>, outlen: nat, input: Field) returns (r: int)
    requires outlen <= dst.Length
    modifies dst
    ensures r == if outlen == 0 || outlen > 0xFFFF_FFFF || (input.Null? && input.length > 0) then -1 else 0
    ensures r == 0 ==>
              && dst[..outlen] == Long(I, if input.Data? then input.bytes else [], outlen)
              && dst[outlen..] == old(dst[outlen..])
    ensures r == -1 ==> dst[..] == old(dst[..])
  {
    if outlen > 0xFFFF_FFFF {
      return -1;
    }
    var lengthBytes := Bytes(outlen, 4);
    hide Bytes, Digest;
    var v;
    if outlen <= OUTBYTES {
      r, v := HashParts(I, outlen, lengthBytes, input);
      if r == 0 {
        assert dst[..0] == [];
        CopyAt(dst, 0, v);
      }
      return;
    }
    r, v := HashParts(I, OUTBYTES, lengthBytes, input);
    if r == 0 {
      assert dst[..0] == [];
      CopyAt(dst, 0, v[..32]);
      r := WriteTail(I, dst, outlen, v);
    }
  }

  /** The loop of blake2b_long and the last hash, behind the first 32 bytes. */
  method WriteTail(I: Instance, dst: array<byte>, outlen: nat, v0: seq<byte>) returns (r: int)
    requires OUTBYTES < outlen <= dst.Length && |v0| == OUTBYTES
    modifies dst
    ensures r == 0 && dst[..outlen] == old(dst[..32]) + LongTail(I, v0, outlen - 32)
    ensures dst[outlen..] == old(dst[outlen..])
  {
    hide Digest, Bytes;
    ghost var before := dst[..32];
    var v, at, toproduce := v0, 32, outlen - 32;
    while toproduce > OUTBYTES
      invariant 32 < toproduce && at + toproduce == outlen && |v| == OUTBYTES
      invariant dst[..at] + LongTail(I, v, toproduce) == before + LongTail(I, v0, outlen - 32)
      invariant dst[outlen..] == old(dst[outlen..])
      decreases toproduce
    {
      ghost var written, u := dst[..at], v;
      assert u + [] == u;
      r, v := HashParts(I, OUTBYTES, v, Data([]));
      ghost var after := dst[outlen..];
      CopyAt(dst, at, v[..32]);
      assert dst[outlen..] == after;
      assert written + (v[..32] + LongTail(I, v, toproduce - 32)) == written + v[..32] + LongTail(I, v, toproduce - 32);
      at := at + 32;
      toproduce := toproduce - 32;
    }
    assert v + [] == v;
    var last;
    r, last := HashParts(I, toproduce, v, Data([]));
    CopyAt(dst, at, last);
  }
}
