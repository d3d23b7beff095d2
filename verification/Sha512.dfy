/** sha512_update and sha512_final (sha512.c). Sections 5.1.2 and 6.4 of FIPS 180-4. */
module Sha512 {
  import opened Words
  import opened HashStreams

  const BLOCK: nat := 128
  const OUTBYTES: nat := 64

  type Compress = (Words8, seq<byte>) -> Words8

  /** STORE64H: eight bytes, most significant first. */
  function Store64H(x: nat): (s: seq<byte>)
    requires x < TWO64
    ensures |s| == 8
  {
    WordBytes(x as uint64, true)
  }

  /** The padding of a message whose last block holds k bytes: 0x80, zeros up to eight bytes before the end of a
      block, and the length in bits as 64 bits. */
  function Padding(k: nat, bits: nat): (s: seq<byte>)
    requires k < BLOCK && bits < TWO64
    ensures |s| + k == BLOCK || |s| + k == 2 * BLOCK
  {
    [0x80] + Zeros(if k + 1 <= 112 then 119 - k else 119 + BLOCK - k) + Store64H(bits)
  }

  /** What ends the message: the bytes after the last whole block, with their padding. */
  function Tail(rest: seq<byte>, bits: nat): (t: seq<byte>)
    requires |rest| < BLOCK && bits < TWO64
    ensures |t| == if |rest| + 1 <= 112 then BLOCK else 2 * BLOCK
  {
    rest + Padding(|rest|, bits)
  }

  lemma TailAt(rest: seq<byte>, bits: nat)
    requires |rest| < BLOCK && bits < TWO64
    ensures var t, k := Tail(rest, bits), |rest|;
            && (forall i :: 0 <= i < k ==> t[i] == rest[i]) && t[k] == 0x80
            && (forall i :: k < i < |t| - 8 ==> t[i] == 0)
            && (forall i :: |t| - 8 <= i < |t| ==> t[i] == Store64H(bits)[i - (|t| - 8)])
  {
    hide Store64H;
  }

  lemma TailFold(F: Compress, h: Words8, t: seq<byte>)
    requires |t| == BLOCK || |t| == 2 * BLOCK
    ensures |t| == BLOCK ==> Fold(F, h, t, BLOCK) == F(h, t)
    ensures |t| == 2 * BLOCK ==> Fold(F, h, t, BLOCK) == F(F(h, t[..BLOCK]), t[BLOCK..])
  {
    FoldBlock(F, h, t, BLOCK);
    if |t| == BLOCK {
      assert t[..BLOCK] == t;
      FoldBlock(F, F(h, t), t[BLOCK..], BLOCK);
    } else {
      FoldBlock(F, F(h, t[..BLOCK]), t[BLOCK..], BLOCK);
      assert t[BLOCK..][..BLOCK] == t[BLOCK..];
      FoldBlock(F, F(F(h, t[..BLOCK]), t[BLOCK..]), t[BLOCK..][BLOCK..], BLOCK);
    }
  }

  /** Addition of unsigned 64-bit numbers. */
  function Add64(a: uint64, b: nat): uint64
  {
    ((a as int + b) % TWO64) as uint64
  }

  /** The digest of m by the standard: fold the compression over the padded message. The standard's 128-bit length
      field holds 64 zero bits and the 64-bit length for every message below 2^64 bits. */
  ghost function Digest(F: Compress, initial: Words8, m: seq<byte>): Words8
  {
    Fold(F, initial, m + Padding(|m| % BLOCK, 8 * |m| % TWO64), BLOCK)
  }

  /** The 64 bytes of the digest. */
  ghost function Hash(F: Compress, initial: Words8, m: seq<byte>): (d: seq<byte>)
    ensures |d| == OUTBYTES
  {
    StoredWords(Digest(F, initial, m), true)
  }

  /** The padding of section 5.1.2 of FIPS 180-4 after k bytes of a block: a one bit, as few zero bits as possible, and
      the length in bits as a 128-bit number at the end of a block. */
  ghost predicate IsPadding(p: seq<byte>, k: nat, bits: nat)
  {
    && 17 <= |p| < 17 + BLOCK && (k + |p|) % BLOCK == 0
    && p[0] == 0x80 && (forall i :: 1 <= i < |p| - 16 ==> p[i] == 0)
    && BigEndian(p[|p| - 16..]) == bits
  }

  /** It is determined by this. */
  lemma PaddingUnique(p: seq<byte>, q: seq<byte>, k: nat, bits: nat)
    requires IsPadding(p, k, bits) && IsPadding(q, k, bits)
    ensures p == q
  {
    hide BigEndian;
    assert |p| == |q|;
    BigEndianInjective(p[|p| - 16..], q[|q| - 16..]);
    assert forall i :: |p| - 16 <= i < |p| ==> p[i] == p[|p| - 16..][i - (|p| - 16)];
    assert forall i :: |q| - 16 <= i < |q| ==> q[i] == q[|q| - 16..][i - (|q| - 16)];
  }

  /** The 64-bit length makes the padding the standard's exactly for messages below 2^64 bits. */
  lemma PaddingIsStandard(k: nat, bits: nat)
    requires k < BLOCK
    ensures IsPadding(Padding(k, bits % TWO64), k, bits) <==> bits < TWO64
  {
    hide BigEndian, Store64H;
    var p := Padding(k, bits % TWO64);
    LengthField(bits % TWO64);
    assert p[|p| - 16..] == Zeros(8) + Store64H(bits % TWO64);
  }

  lemma LengthField(bits: nat)
    requires bits < TWO64
    ensures BigEndian(Zeros(8) + Store64H(bits)) == bits
  {
    WordBytesValue(bits as uint64, true);
    ZerosValue(8);
    hide BigEndian, Pow2;
    BigEndianAppend(Zeros(8), Store64H(bits));
  }

  lemma {:induction false} ZerosValue(n: nat)
    ensures BigEndian(Zeros(n)) == 0
  {
    if n > 0 {
      ZerosValue(n - 1);
      assert Zeros(n)[..n - 1] == Zeros(n - 1);
    }
  }

  /** For every message below 2^64 bits the digest is the compression folded over the message with the padding of the
      standard. */
  lemma DigestMeaning(F: Compress, initial: Words8, m: seq<byte>, p: seq<byte>)
    requires 8 * |m| < TWO64 && IsPadding(p, |m| % 128, 8 * |m|)
    ensures Digest(F, initial, m) == Fold(F, initial, m + p, 128) && |m + p| % 128 == 0
  {
    hide Padding, IsPadding, Fold;
    PaddingIsStandard(|m| % BLOCK, 8 * |m|);
    PaddingUnique(p, Padding(|m| % BLOCK, 8 * |m|), |m| % BLOCK, 8 * |m|);
    WholeBlocks(|m|, |p|);
  }

  lemma WholeBlocks(m: nat, p: nat)
    requires p > 0
    ensures (m % BLOCK + p) % BLOCK == (m + p) % BLOCK
  {
  }

  lemma OutputWords(s: seq<byte>, h: Words8)
    requires |s| >= OUTBYTES && s[..OUTBYTES] == StoredWords(h, true)
    ensures forall i :: 0 <= i < 8 ==> BigEndian(s[8 * i..8 * i + 8]) == h[i] as int
  {
    hide BigEndian, StoredWords, WordBytes;
    forall i | 0 <= i < 8
      ensures BigEndian(s[8 * i..8 * i + 8]) == h[i] as int
    {
      StoredWordAt(h, true, i);
      WordBytesValue(h[i], true);
      assert s[..OUTBYTES][8 * i..8 * i + 8] == s[8 * i..8 * i + 8];
    }
  }

  class Context {
    /** sha512_compress and the initial state. */
    const F: Compress
    const initial: Words8
    var state: Words8
    var buf: array<byte>
    var curlen: nat
    var length: uint64
    /** Everything hashed so far. */
    ghost var data: seq<byte>

    /** The buffered state agrees with block-wise hashing of everything so far. */
    ghost predicate Valid()
      reads this, buf
    {
      && buf.Length == BLOCK && curlen < BLOCK
      && state == Fold(F, initial, data, BLOCK) && buf[..curlen] == Rest(data, BLOCK)
      && length as int == 8 * (|data| - curlen) % TWO64 && curlen <= |data|
    }

    /** sha512_init */
    constructor (F: Compress, initial: Words8)
      ensures Valid() && fresh(buf) && data == [] && this.F == F && this.initial == initial
    {
      this.F := F;
      this.initial := initial;
      state := initial;
      buf := new byte[BLOCK];
      curlen := 0;
      length := 0;
      data := [];
    }

    /** A block taken directly from the input. */
    method FeedBlock(x: seq<byte>)
      requires Valid() && curlen == 0 && |x| == BLOCK
      modifies this
      ensures Valid() && buf == old(buf) && data == old(data) + x
    {
      hide Fold, Rest;
      assert Rest(data, BLOCK) + x == x;
      FoldAppend(F, initial, data, x, BLOCK);
      LengthStep(|data|, length);
      state := F(state, x);
      length := Add64(length, 8 * BLOCK);
      data := data + x;
    }

    /** Bytes moved into the buffer, which is compressed when it is full. */
    method FeedPart(x: seq<byte>)
      requires Valid() && curlen + |x| <= BLOCK
      modifies this, buf
      ensures Valid() && buf == old(buf) && data == old(data) + x
    {
      hide Fold, Rest, Add64;
      FoldAppend(F, initial, data, x, BLOCK);
      LengthStep(|data| - curlen, length);
      CopyAt(buf, curlen, x);
      curlen := curlen + |x|;
      data := data + x;
      if curlen == BLOCK {
        assert buf[..] == buf[..BLOCK];
        state := F(state, buf[..]);
        length := Add64(length, 8 * BLOCK);
        curlen := 0;
      }
    }

    /** One turn of the loop of sha512_update. */
    method Feed(input: seq<byte>, pos: nat) returns (next: nat)
      requires Valid() && pos < |input|
      modifies this, buf
      ensures Valid() && buf == old(buf) && pos < next <= |input| && data == old(data) + input[pos..next]
    {
      hide Fold, Rest;
      if curlen == 0 && |input| - pos >= BLOCK {
        next := pos + BLOCK;
        FeedBlock(input[pos..next]);
      } else {
        next := pos + (if |input| - pos < BLOCK - curlen then |input| - pos else BLOCK - curlen);
        FeedPart(input[pos..next]);
      }
    }

    /** sha512_update: the state afterwards depends only on the concatenation of everything hashed. */
    method Update(input: seq<byte>)
      requires Valid()
      modifies this, buf
      ensures Valid() && buf == old(buf) && data == old(data) + input
    {
      var pos := 0;
      while pos < |input|
        invariant pos <= |input| && Valid() && buf == old(buf) && data == old(data) + input[..pos]
        decreases |input| - pos
      {
        ghost var done := input[..pos];
        var next := Feed(input, pos);
        assert input[..next] == done + input[pos..next];
        pos := next;
      }
      assert input[..pos] == input;
    }

    /** sha512_final: the digest of everything hashed, most significant byte of each word first. The buffer and the
        length are spent. */
    method Final(out: array<byte>)
      requires Valid() && out.Length >= OUTBYTES && out != buf
      modifies this, buf, out
      ensures out[..OUTBYTES] == Hash(F, initial, old(data)) && out[OUTBYTES..] == old(out[OUTBYTES..])
      ensures var h := Digest(F, initial, old(data));
              forall i :: 0 <= i < 8 ==> BigEndian(out[8 * i..8 * i + 8]) == h[i] as int
    {
      hide Fold, Rest, Digest, StoredWords, BigEndian;
      Finish();
      StoreWords(state, true, out);
      OutputWords(out[..], state);
      assert out[..][..OUTBYTES] == out[..OUTBYTES];
      assert forall i :: 0 <= i < 8 ==> out[..][8 * i..8 * i + 8] == out[8 * i..8 * i + 8];
    }

    /** Up to the last compression. */
    method Finish()
      requires Valid()
      modifies this, buf
      ensures state == Digest(F, initial, old(data))
    {
      ghost var rest, bits := buf[..curlen], 8 * |data| % TWO64;
      ghost var t := Tail(rest, bits);
      RestLength(data, BLOCK);
      FoldResume(F, initial, data, Padding(|rest|, bits), BLOCK);
      TailFold(F, state, t);
      TotalLength(|data|, curlen, length);
      hide Fold, Rest, Tail, Store64H, Padding, Add64;
      length := Add64(length, 8 * curlen);
      ghost var s0 := state;
      Pad(rest, bits);
      assert state == if |t| == BLOCK then s0 else F(s0, t[..BLOCK]);
      state := F(state, buf[..]);
    }

    /** The padding written into the buffer, with the extra block when the length does not fit. */
    method Pad(ghost rest: seq<byte>, ghost bits: nat)
      requires buf.Length == BLOCK && curlen < BLOCK && rest == buf[..curlen] && length as int == bits
      modifies this, buf
      ensures buf == old(buf) && var t := Tail(rest, bits);
              state == (if |t| == BLOCK then old(state) else F(old(state), t[..BLOCK])) && buf[..] == t[|t| - BLOCK..]
    {
      TailParts(rest, bits);
      hide Tail, Store64H;
      ghost var t := Tail(rest, bits);
      CopyAt(buf, curlen, [0x80]);
      curlen := curlen + 1;
      if curlen > 112 {
        ExtraBlock();
      }
      ZeroFill(buf, curlen, 120);
      CopyAt(buf, 120, Store64H(length as nat));
      assert buf[..] == buf[..120 + 8];
    }

    /** The block filled up with zeros and compressed. */
    method ExtraBlock()
      requires buf.Length == BLOCK && curlen <= BLOCK
      modifies this`state, this`curlen, buf
      ensures state == F(old(state), old(buf[..curlen]) + Zeros(BLOCK - old(curlen)))
      ensures curlen == 0 && buf[..curlen] == []
    {
      ZeroFill(buf, curlen, BLOCK);
      assert buf[..] == buf[..BLOCK];
      state := F(state, buf[..]);
      curlen := 0;
    }
  }

  /** The tail as the buffer receives it. */
  lemma TailParts(rest: seq<byte>, bits: nat)
    requires |rest| < BLOCK && bits < TWO64
    ensures var t, begun := Tail(rest, bits), rest + [0x80];
            if |begun| <= 112 then t == begun + Zeros(120 - |begun|) + Store64H(bits)
            else t[..BLOCK] == begun + Zeros(BLOCK - |begun|) && t[BLOCK..] == [] + Zeros(120) + Store64H(bits)
  {
    TailAt(rest, bits);
    hide Tail, Store64H;
  }

  lemma LengthStep(n: nat, length: uint64)
    requires length as int == 8 * n % TWO64
    ensures Add64(length, 8 * BLOCK) as int == 8 * (n + BLOCK) % TWO64
  {
  }

  lemma TotalLength(n: nat, k: nat, length: uint64)
    requires k <= n && length as int == 8 * (n - k) % TWO64
    ensures Add64(length, 8 * k) as int == 8 * n % TWO64
  {
  }

  /** Any two ways of splitting a message into updates end in the same digest. */
  method SplitIndependent(F: Compress, initial: Words8, parts: seq<seq<byte>>) returns (d: seq<byte>)
    ensures d == Hash(F, initial, Flatten(parts))
  {
    var ctx := new Context(F, initial);
    for i := 0 to |parts|
      invariant ctx.Valid() && ctx.F == F && ctx.initial == initial && fresh(ctx) && fresh(ctx.buf)
      invariant ctx.data == Flatten(parts[..i])
    {
      FlattenLast(parts, i);
      ctx.Update(parts[i]);
    }
    assert parts[..|parts|] == parts;
    var out := new byte[OUTBYTES];
    ctx.Final(out);
    d := out[..OUTBYTES];
  }
}
