/** From the inputs to the tag: initial_hash, fill_first_blocks, finalize (core.c) and argon2_ctx (argon2.c). Sections
    3.2 and 3.3 of RFC 9106. */
module Argon2Hash {
  import opened Words
  import opened HashStreams
  import opened Blamka
  import opened Argon2Block
  import opened Argon2Index
  import opened Argon2Segment
  import opened Argon2Sharing
  import opened Argon2Threads
  import opened Argon2Core
  import opened Argon2Fresh
  import B = Blake2b

  const BLOCK_BYTES: nat := 1024
  const PREHASH: nat := 64

  // ---- blocks as bytes ----

  function LowByte(w: bv64): byte { ((w & 0xFF) as bv8) as byte }

  function Bits(b: byte): bv64 { ByteBits(b as nat) as bv64 }

  /** store64 */
  function Store64(w: bv64): (s: seq<byte>)
    ensures |s| == 8
  {
    [LowByte(w), LowByte(w >> 8), LowByte(w >> 16), LowByte(w >> 24),
     LowByte(w >> 32), LowByte(w >> 40), LowByte(w >> 48), LowByte(w >> 56)]
  }

  /** load64 */
  function Load64(s: seq<byte>): bv64
    requires |s| == 8
  {
    Bits(s[0]) | (Bits(s[1]) << 8) | (Bits(s[2]) << 16) | (Bits(s[3]) << 24)
    | (Bits(s[4]) << 32) | (Bits(s[5]) << 40) | (Bits(s[6]) << 48) | (Bits(s[7]) << 56)
  }

  lemma SameBits(x: bv8, y: bv8)
    requires x as int == y as int
    ensures x == y
  {
  }

  lemma BitsBack(w: bv64)
    ensures Bits(LowByte(w)) == w & 0xFF
  {
    var x := (w & 0xFF) as bv8;
    SameBits(ByteBits(x as int), x);
  }

  lemma EightParts(w: bv64)
    ensures (w & 0xFF) | (((w >> 8) & 0xFF) << 8) | (((w >> 16) & 0xFF) << 16) | (((w >> 24) & 0xFF) << 24)
            | (((w >> 32) & 0xFF) << 32) | (((w >> 40) & 0xFF) << 40) | (((w >> 48) & 0xFF) << 48)
            | (((w >> 56) & 0xFF) << 56) == w
  {
  }

  lemma LoadStore64(w: bv64)
    ensures Load64(Store64(w)) == w
  {
    hide LowByte, Bits;
    BitsBack(w);
    BitsBack(w >> 8);
    BitsBack(w >> 16);
    BitsBack(w >> 24);
    BitsBack(w >> 32);
    BitsBack(w >> 40);
    BitsBack(w >> 48);
    BitsBack(w >> 56);
    EightParts(w);
  }

  /** Byte k of a stored word is made of the bits 8 k to 8 k + 7. */
  lemma StoredBits(w: bv64)
    ensures var s := Store64(w);
            && Bits(s[0]) == w & 0xFF && Bits(s[1]) == (w >> 8) & 0xFF && Bits(s[2]) == (w >> 16) & 0xFF
            && Bits(s[3]) == (w >> 24) & 0xFF && Bits(s[4]) == (w >> 32) & 0xFF && Bits(s[5]) == (w >> 40) & 0xFF
            && Bits(s[6]) == (w >> 48) & 0xFF && Bits(s[7]) == (w >> 56) & 0xFF
  {
    hide LowByte, Bits;
    BitsBack(w);
    BitsBack(w >> 8);
    BitsBack(w >> 16);
    BitsBack(w >> 24);
    BitsBack(w >> 32);
    BitsBack(w >> 40);
    BitsBack(w >> 48);
    BitsBack(w >> 56);
  }

  /** The words of a block one after the other, least significant byte first. */
  function StoredBlock(b: Block): (s: seq<byte>)
    ensures |s| == BLOCK_BYTES
  {
    seq(BLOCK_BYTES, i requires 0 <= i < BLOCK_BYTES => Store64(b[i / 8])[i % 8])
  }

  function LoadedBlock(s: seq<byte>): Block
    requires |s| == BLOCK_BYTES
  {
    seq(128, i requires 0 <= i < 128 => Load64(s[8 * i..8 * i + 8]))
  }

  lemma WordOfBlock(b: Block, i: nat)
    requires i < 128
    ensures StoredBlock(b)[8 * i..8 * i + 8] == Store64(b[i])
  {
    hide Store64;
    forall j | 0 <= j < 8
      ensures StoredBlock(b)[8 * i..8 * i + 8][j] == Store64(b[i])[j]
    {
      assert (8 * i + j) / 8 == i && (8 * i + j) % 8 == j;
    }
  }

  /** Storing loses nothing, so the tag depends on every bit of the final block. */
  lemma LoadStoreBlock(b: Block)
    ensures LoadedBlock(StoredBlock(b)) == b
  {
    hide Load64, Store64;
    forall i | 0 <= i < 128
      ensures LoadedBlock(StoredBlock(b))[i] == b[i]
    {
      WordOfBlock(b, i);
      hide StoredBlock;
      LoadStore64(b[i]);
    }
  }

  /** load_block */
  method LoadBlock(input: array<byte>) returns (b: Block)
    requires input.Length == BLOCK_BYTES
    ensures b == LoadedBlock(input[..])
  {
    hide Load64;
    var v: seq<bv64> := [];
    for i := 0 to 128
      invariant |v| == i && forall j :: 0 <= j < i ==> v[j] == Load64(input[..][8 * j..8 * j + 8])
    {
      assert input[8 * i..8 * i + 8] == input[..][8 * i..8 * i + 8];
      v := v + [Load64(input[8 * i..8 * i + 8])];
    }
    b := v;
  }

  /** store_block */
  method StoreBlock(output: array<byte>, b: Block)
    requires output.Length == BLOCK_BYTES
    modifies output
    ensures output[..] == StoredBlock(b)
  {
    hide Store64, StoredBlock;
    for i := 0 to 128
      invariant output[..8 * i] == StoredBlock(b)[..8 * i]
    {
      WordOfBlock(b, i);
      CopyAt(output, 8 * i, Store64(b[i]));
      assert StoredBlock(b)[..8 * i + 8] == StoredBlock(b)[..8 * i] + StoredBlock(b)[8 * i..8 * i + 8];
    }
    assert output[..] == output[..8 * 128];
  }

  // ---- initial_hash ----

  /** store32: little-endian. */
  function Store32(x: uint32): (s: seq<byte>)
    ensures |s| == 4
  {
    Bytes(x as nat, 4)
  }

  /** A length and, unless the pointer is null, the bytes. */
  function WithLength(f: Field): (s: seq<byte>)
    requires f.Sized()
  {
    Store32(f.Length()) + if f.Data? then f.bytes else []
  }

  /** Everything that enters H0, in order. */
  function Inputs(ctx: Context, kind: Kind): (s: seq<byte>)
    requires ctx.Sized()
  {
    Numbers(ctx, kind) + WithLength(ctx.pwd) + WithLength(ctx.salt) + WithLength(ctx.secret) + WithLength(ctx.ad)
  }

  function Numbers(ctx: Context, kind: Kind): (s: seq<byte>)
    requires ctx.Sized()
    ensures |s| == 24
  {
    Store32(ctx.lanes) + Store32(ctx.out.Length()) + Store32(ctx.mCost) + Store32(ctx.tCost) + Store32(ctx.version)
    + Store32(KindNumber(kind))
  }

  lemma Store32Value(x: uint32)
    ensures LittleEndian(Store32(x)) == x as int
  {
    hide Bytes, LittleEndian;
    Pow2At32();
    BytesLittleEndian(x as nat, 4);
  }

  lemma NumbersAt(x: seq<byte>, ctx: Context, kind: Kind)
    requires ctx.Sized() && |x| >= 24 && x[..24] == Numbers(ctx, kind)
    ensures LittleEndian(x[..4]) == ctx.lanes as int && LittleEndian(x[4..8]) == ctx.out.Size()
    ensures LittleEndian(x[8..12]) == ctx.mCost as int && LittleEndian(x[12..16]) == ctx.tCost as int
    ensures LittleEndian(x[16..20]) == ctx.version as int
    ensures LittleEndian(x[20..24]) == if kind == Argon2d then 0 else if kind == Argon2i then 1 else 2
  {
    hide Store32, LittleEndian;
    Store32Value(ctx.lanes);
    Store32Value(ctx.out.Length());
    Store32Value(ctx.mCost);
    Store32Value(ctx.tCost);
    Store32Value(ctx.version);
    Store32Value(KindNumber(kind));
    SixParts(x, Store32(ctx.lanes), Store32(ctx.out.Length()), Store32(ctx.mCost), Store32(ctx.tCost),
             Store32(ctx.version), Store32(KindNumber(kind)));
  }

  lemma SixParts(x: seq<byte>, a: seq<byte>, b: seq<byte>, c: seq<byte>, d: seq<byte>, e: seq<byte>, f: seq<byte>)
    requires |a| == |b| == |c| == |d| == |e| == |f| == 4 && |x| >= 24 && x[..24] == a + b + c + d + e + f
    ensures x[..4] == a && x[4..8] == b && x[8..12] == c && x[12..16] == d && x[16..20] == e && x[20..24] == f
  {
    var y := x[..24];
    assert x[..4] == y[..4] && x[4..8] == y[4..8] && x[8..12] == y[8..12];
    assert x[12..16] == y[12..16] && x[16..20] == y[16..20] && x[20..24] == y[20..24];
  }

  /** The layout of section 3.2 of RFC 9106, by positions: six numbers, then the four strings, each behind its
      length. */
  lemma InputsMeaning(ctx: Context, kind: Kind, pwd: seq<byte>, salt: seq<byte>, secret: seq<byte>, ad: seq<byte>)
    requires ctx.Sized()
    requires pwd == if ctx.pwd.Data? then ctx.pwd.bytes else []
    requires salt == if ctx.salt.Data? then ctx.salt.bytes else []
    requires secret == if ctx.secret.Data? then ctx.secret.bytes else []
    requires ad == if ctx.ad.Data? then ctx.ad.bytes else []
    ensures var x, i, j, k := Inputs(ctx, kind), 28 + |pwd|, 32 + |pwd| + |salt|, 36 + |pwd| + |salt| + |secret|;
            && |x| == k + 4 + |ad|
            && LittleEndian(x[..4]) == ctx.lanes as int && LittleEndian(x[4..8]) == ctx.out.Size()
            && LittleEndian(x[8..12]) == ctx.mCost as int && LittleEndian(x[12..16]) == ctx.tCost as int
            && LittleEndian(x[16..20]) == ctx.version as int
            && LittleEndian(x[20..24]) == (if kind == Argon2d then 0 else if kind == Argon2i then 1 else 2)
            && LittleEndian(x[24..28]) == ctx.pwd.Size() && x[28..i] == pwd
            && LittleEndian(x[i..i + 4]) == ctx.salt.Size() && x[i + 4..j] == salt
            && LittleEndian(x[j..j + 4]) == ctx.secret.Size() && x[j + 4..k] == secret
            && LittleEndian(x[k..k + 4]) == ctx.ad.Size() && x[k + 4..] == ad
  {
    hide Inputs, Numbers, WithLength, LittleEndian;
    var x := Inputs(ctx, kind);
    InputsParts(ctx, kind, pwd, salt, secret, ad);
    NumbersAt(x, ctx, kind);
    FieldAt(x, 24, ctx.pwd, pwd);
    FieldAt(x, 28 + |pwd|, ctx.salt, salt);
    FieldAt(x, 32 + |pwd| + |salt|, ctx.secret, secret);
    FieldAt(x, 36 + |pwd| + |salt| + |secret|, ctx.ad, ad);
  }

  lemma InputsParts(ctx: Context, kind: Kind, pwd: seq<byte>, salt: seq<byte>, secret: seq<byte>, ad: seq<byte>)
    requires ctx.Sized()
    requires pwd == if ctx.pwd.Data? then ctx.pwd.bytes else []
    requires salt == if ctx.salt.Data? then ctx.salt.bytes else []
    requires secret == if ctx.secret.Data? then ctx.secret.bytes else []
    requires ad == if ctx.ad.Data? then ctx.ad.bytes else []
    ensures var x, i, j, k := Inputs(ctx, kind), 28 + |pwd|, 32 + |pwd| + |salt|, 36 + |pwd| + |salt| + |secret|;
            && |x| == k + 4 + |ad|
            && x[..24] == Numbers(ctx, kind) && x[24..i] == WithLength(ctx.pwd) && x[i..j] == WithLength(ctx.salt)
            && x[j..k] == WithLength(ctx.secret) && x[k..] == WithLength(ctx.ad)
  {
    hide Numbers, WithLength;
    FieldLength(ctx.pwd, pwd);
    FieldLength(ctx.salt, salt);
    FieldLength(ctx.secret, secret);
    FieldLength(ctx.ad, ad);
    FiveParts(Numbers(ctx, kind), WithLength(ctx.pwd), WithLength(ctx.salt), WithLength(ctx.secret),
              WithLength(ctx.ad));
  }

  lemma FiveParts(n: seq<byte>, p: seq<byte>, s: seq<byte>, t: seq<byte>, a: seq<byte>)
    ensures var x := n + p + s + t + a;
            && x[..|n|] == n && x[|n|..|n| + |p|] == p && x[|n| + |p|..|n| + |p| + |s|] == s
            && x[|n| + |p| + |s|..|n| + |p| + |s| + |t|] == t && x[|n| + |p| + |s| + |t|..] == a
  {
  }

  lemma FieldLength(f: Field, x: seq<byte>)
    requires f.Sized() && x == if f.Data? then f.bytes else []
    ensures |WithLength(f)| == 4 + |x|
  {
    hide Store32;
  }

  lemma FieldAt(x: seq<byte>, i: nat, f: Field, b: seq<byte>)
    requires f.Sized() && b == if f.Data? then f.bytes else []
    requires i + 4 + |b| <= |x| && x[i..i + 4 + |b|] == WithLength(f)
    ensures LittleEndian(x[i..i + 4]) == f.Size() && x[i + 4..i + 4 + |b|] == b
  {
    hide Store32, LittleEndian;
    Store32Value(f.Length());
    var w := WithLength(f);
    assert w[..4] == Store32(f.Length()) && w[4..] == b;
    assert x[i..i + 4] == x[i..i + 4 + |b|][..4] && x[i + 4..i + 4 + |b|] == x[i..i + 4 + |b|][4..];
  }

  ghost function Prehash(I: B.Instance, ctx: Context, kind: Kind): (d: seq<byte>)
    requires ctx.Sized()
    ensures |d| == PREHASH
  {
    I.Hash(PREHASH, Inputs(ctx, kind))
  }

  ghost predicate Hashing(I: B.Instance, s: B.State)
    reads s, s.buf
  {
    s.Valid() && !s.finished && s.F == I.F && s.initial == I.initial(PREHASH) && s.outlen == PREHASH
  }

  /** store32(&value, x); blake2b_update(&BlakeHash, &value, sizeof(value)) */
  method UpdateNumber(I: B.Instance, s: B.State, x: uint32)
    requires Hashing(I, s)
    modifies s, s.buf
    ensures Hashing(I, s) && s.buf == old(s.buf) && s.data == old(s.data) + Store32(x)
  {
    hide Store32;
    hide B.Chain, B.Last;
    var r := s.Update(Data(Store32(x)));
  }

  method UpdateField(I: B.Instance, s: B.State, f: Field)
    requires Hashing(I, s) && f.Sized()
    modifies s, s.buf
    ensures Hashing(I, s) && s.buf == old(s.buf) && s.data == old(s.data) + WithLength(f)
  {
    hide Store32;
    hide B.Chain, B.Last;
    ghost var before := s.data;
    UpdateNumber(I, s, f.Length());
    if f.Data? {
      var r := s.Update(f);
      assert before + Store32(f.Length()) + f.bytes == before + (Store32(f.Length()) + f.bytes);
    } else {
      assert Store32(f.Length()) + [] == Store32(f.Length());
    }
  }

  method UpdateNumbers(I: B.Instance, s: B.State, ctx: Context, kind: Kind)
    requires Hashing(I, s) && ctx.Sized() && s.data == []
    modifies s, s.buf
    ensures Hashing(I, s) && s.buf == old(s.buf) && s.data == Numbers(ctx, kind)
  {
    hide Store32, Hashing;
    assert [] + Store32(ctx.lanes) == Store32(ctx.lanes);
    UpdateNumber(I, s, ctx.lanes);
    UpdateNumber(I, s, ctx.out.Length());
    UpdateNumber(I, s, ctx.mCost);
    UpdateNumber(I, s, ctx.tCost);
    UpdateNumber(I, s, ctx.version);
    UpdateNumber(I, s, KindNumber(kind));
  }

  /** initial_hash */
  method InitialHash(I: B.Instance, ctx: Context, kind: Kind) returns (digest: seq<byte>)
    requires ctx.Sized()
    ensures digest == Prehash(I, ctx, kind) == I.Hash(64, Inputs(ctx, kind))
  {
    hide Store32, WithLength, Numbers, Hashing;
    var s := NewHash(I);
    UpdateNumbers(I, s, ctx, kind);
    UpdateField(I, s, ctx.pwd);
    UpdateField(I, s, ctx.salt);
    UpdateField(I, s, ctx.secret);
    UpdateField(I, s, ctx.ad);
    digest := Extract(I, s);
  }

  method NewHash(I: B.Instance) returns (s: B.State)
    ensures fresh(s) && fresh(s.buf) && Hashing(I, s) && s.data == []
  {
    s := new B.State(I.F, I.initial(PREHASH), PREHASH);
  }

  method Extract(I: B.Instance, s: B.State) returns (digest: seq<byte>)
    requires Hashing(I, s)
    modifies s, s.buf
    ensures digest == I.Hash(PREHASH, old(s.data))
  {
    digest := B.Extract(s);
  }

  // ---- fill_first_blocks ----

  /** The two blocks that open a lane: the variable-length hash of H0, the block number and the lane. */
  ghost function FirstBlock(I: B.Instance, digest: seq<byte>, number: uint32, lane: uint32): Block
  {
    LoadedBlock(B.Long(I, digest + Store32(number) + Store32(lane), BLOCK_BYTES))
  }

  /** The hashed string by positions. */
  lemma FirstBlockMeaning(I: B.Instance, digest: seq<byte>, number: uint32, lane: uint32, x: seq<byte>)
    requires |x| == |digest| + 8 && x[..|digest|] == digest
    requires LittleEndian(x[|digest|..|digest| + 4]) == number as int && LittleEndian(x[|digest| + 4..]) == lane as int
    ensures FirstBlock(I, digest, number, lane) == LoadedBlock(B.Long(I, x, 1024))
  {
    hide Store32, LittleEndian, LoadedBlock, B.Long;
    Store32Value(number);
    Store32Value(lane);
    LittleEndianInjective(x[|digest|..|digest| + 4], Store32(number));
    LittleEndianInjective(x[|digest| + 4..], Store32(lane));
    assert x == digest + Store32(number) + Store32(lane);
  }

  method HashToBlock(I: B.Instance, digest: seq<byte>, number: uint32, lane: uint32) returns (b: Block)
    ensures b == FirstBlock(I, digest, number, lane)
  {
    hide Store32, B.Long, LoadedBlock;
    var bytes := new byte[BLOCK_BYTES];
    var r := B.Blake2bLong(I, bytes, BLOCK_BYTES, Data(digest + Store32(number) + Store32(lane)));
    assert bytes[..BLOCK_BYTES] == bytes[..];
    b := LoadBlock(bytes);
  }

  /** fill_first_blocks: blocks 0 and 1 of every lane, and nothing else. */
  method FillFirstBlocks(I: B.Instance, inst: Instance, memory: array<Block>, digest: seq<byte>)
    requires inst.Valid() && memory.Length == inst.memoryBlocks as int
    modifies memory
    ensures forall l: uint32, j: uint32 {:trigger FirstBlock(I, digest, j, l)} | l < inst.lanes && j < 2 ::
              memory[Offset(inst, l, j as int)] == FirstBlock(I, digest, j, l)
    ensures forall k | 0 <= k < memory.Length && k % inst.laneLength as int >= 2 :: memory[k] == old(memory[k])
  {
    hide Offset, FirstBlock;
    var l: uint32 := 0;
    while l < inst.lanes
      invariant l <= inst.lanes
      invariant forall m: uint32, j: uint32 {:trigger FirstBlock(I, digest, j, m)} | m < l && j < 2 ::
                  memory[Offset(inst, m, j as int)] == FirstBlock(I, digest, j, m)
      invariant forall k | 0 <= k < memory.Length && k % inst.laneLength as int >= 2 :: memory[k] == old(memory[k])
    {
      var zero := LaneOffset(inst, l, 0);
      var one := LaneOffset(inst, l, 1);
      Apart(inst, l);
      memory[zero] := HashToBlock(I, digest, 0, l);
      memory[one] := HashToBlock(I, digest, 1, l);
      l := l + 1;
    }
  }

  method LaneOffset(inst: Instance, l: uint32, j: uint32) returns (k: int)
    requires inst.Valid() && l < inst.lanes && j < 2
    ensures k == Offset(inst, l, j as int)
  {
    k := l as int * inst.laneLength as int + j as int;
  }

  /** The opening blocks of different lanes are different blocks. */
  lemma Apart(inst: Instance, l: uint32)
    requires inst.Valid() && l < inst.lanes
    ensures Offset(inst, l, 0) != Offset(inst, l, 1)
    ensures forall m: uint32, p: int | m < inst.lanes && m != l && 0 <= p < 2 ::
              Offset(inst, m, p) != Offset(inst, l, 0) && Offset(inst, m, p) != Offset(inst, l, 1)
  {
    hide Offset;
    if Offset(inst, l, 0) == Offset(inst, l, 1) {
      OffsetInjective(inst, l, 0, l, 1);
    }
    forall m: uint32, p: int | m < inst.lanes && m != l && 0 <= p < 2
      ensures Offset(inst, m, p) != Offset(inst, l, 0) && Offset(inst, m, p) != Offset(inst, l, 1)
    {
      if Offset(inst, m, p) == Offset(inst, l, 0) {
        OffsetInjective(inst, m, p, l, 0);
      } else if Offset(inst, m, p) == Offset(inst, l, 1) {
        OffsetInjective(inst, m, p, l, 1);
      }
    }
  }

  // ---- finalize ----

  /** Exclusive or of the last blocks of the first n lanes. */
  ghost function LastBlocks(inst: Instance, mem: Memory, n: uint32): Block
    requires inst.Valid() && 1 <= n <= inst.lanes && |mem| == inst.memoryBlocks as int
    decreases n as int
  {
    var last := mem[Offset(inst, n - 1, inst.laneLength as int - 1)];
    if n == 1 then last else BlockXor(LastBlocks(inst, mem, n - 1), last)
  }

  /** The loop of finalize; the tag is the variable-length hash of this block. */
  method FinalBlock(inst: Instance, memory: array<Block>) returns (blockhash: Block)
    requires inst.Valid() && memory.Length == inst.memoryBlocks as int
    ensures blockhash == LastBlocks(inst, memory[..], inst.lanes)
  {
    hide BlockXor;
    LaneBounds(inst, 0);
    blockhash := memory[inst.laneLength - 1];
    assert inst.laneLength as int - 1 == Offset(inst, 0, inst.laneLength as int - 1);
    var l: uint32 := 1;
    while l < inst.lanes
      invariant 1 <= l <= inst.lanes
      invariant blockhash == LastBlocks(inst, memory[..], l)
    {
      LaneBounds(inst, l);
      var lastBlockInLane := l * inst.laneLength + (inst.laneLength - 1);
      assert lastBlockInLane as int == Offset(inst, l, inst.laneLength as int - 1);
      blockhash := BlockXor(blockhash, memory[lastBlockInLane]);
      l := l + 1;
    }
  }

  lemma XorAssoc(a: Block, b: Block, c: Block)
    ensures BlockXor(BlockXor(a, b), c) == BlockXor(a, BlockXor(b, c))
    ensures BlockXor(BlockXor(a, b), c) == BlockXor(BlockXor(a, c), b)
  {
    forall k | 0 <= k < 128
      ensures BlockXor(BlockXor(a, b), c)[k] == BlockXor(a, BlockXor(b, c))[k] == BlockXor(BlockXor(a, c), b)[k]
    {
      WordXorAssoc(a[k], b[k], c[k]);
      WordXorSwap(a[k], b[k], c[k]);
    }
  }

  lemma WordXorAssoc(x: bv64, y: bv64, z: bv64)
    ensures Xor(Xor(x, y), z) == Xor(x, Xor(y, z))
  {
    calc {
      Xor(Xor(x, y), z);
      { XorIs(x, y); }
      Xor(x ^ y, z);
      { XorIs(x ^ y, z); }
      (x ^ y) ^ z;
      { BitsAssoc(x, y, z); }
      x ^ (y ^ z);
      { XorIs(x, y ^ z); }
      Xor(x, y ^ z);
      { XorIs(y, z); }
      Xor(x, Xor(y, z));
    }
  }

  lemma WordXorSwap(x: bv64, y: bv64, z: bv64)
    ensures Xor(Xor(x, y), z) == Xor(Xor(x, z), y)
  {
    calc {
      Xor(Xor(x, y), z);
      { XorIs(x, y); }
      Xor(x ^ y, z);
      { XorIs(x ^ y, z); }
      (x ^ y) ^ z;
      { BitsSwap(x, y, z); }
      (x ^ z) ^ y;
      { XorIs(x ^ z, y); }
      Xor(x ^ z, y);
      { XorIs(x, z); }
      Xor(Xor(x, z), y);
    }
  }

  lemma BitsAssoc(x: bv64, y: bv64, z: bv64)
    ensures (x ^ y) ^ z == x ^ (y ^ z)
  {
  }

  lemma BitsSwap(x: bv64, y: bv64, z: bv64)
    ensures (x ^ y) ^ z == (x ^ z) ^ y
  {
  }

  /** Every lane counts: a difference in the last block of one lane is the difference of the result. */
  lemma {:induction false} EveryLaneCounts(inst: Instance, mem: Memory, l: uint32, d: Block, n: uint32)
    requires inst.Valid() && 1 <= n <= inst.lanes && l < inst.lanes && |mem| == inst.memoryBlocks as int
    ensures var k := Offset(inst, l, inst.laneLength as int - 1);
            LastBlocks(inst, mem[k := BlockXor(mem[k], d)], n)
            == if l < n then BlockXor(LastBlocks(inst, mem, n), d) else LastBlocks(inst, mem, n)
    decreases n as int
  {
    hide BlockXor, Offset;
    var o := inst.laneLength as int - 1;
    var k, j := Offset(inst, l, o), Offset(inst, n - 1, o);
    if k == j {
      OffsetInjective(inst, l, o, n - 1, o);
    }
    if n > 1 {
      EveryLaneCounts(inst, mem, l, d, n - 1);
      XorAssoc(LastBlocks(inst, mem, n - 1), mem[j], d);
      XorAssoc(LastBlocks(inst, mem, n - 1), d, mem[j]);
    }
  }

  /** The last blocks of the lanes, from the first lane on, gathered one by one. */
  lemma {:induction false} LastBlocksMeaning(inst: Instance, mem: Memory, n: uint32, t: int -> Block)
    requires inst.Valid() && 1 <= n <= inst.lanes && |mem| == inst.memoryBlocks as int
    requires t(0) == ZeroBlock()
    requires forall l: nat :: l < inst.lanes as int ==>
               t(l + 1) == BlockXor(t(l), mem[Offset(inst, l as uint32, inst.laneLength as int - 1)])
    ensures LastBlocks(inst, mem, n) == t(n as int)
    decreases n as int
  {
    hide BlockXor, Offset;
    var o := inst.laneLength as int - 1;
    assert t((n - 1) as int + 1) == BlockXor(t((n - 1) as int), mem[Offset(inst, n - 1, o)]);
    if n == 1 {
      XorZero(mem[Offset(inst, 0, o)]);
    } else {
      LastBlocksMeaning(inst, mem, n - 1, t);
    }
  }

  lemma XorZero(b: Block)
    ensures BlockXor(ZeroBlock(), b) == b
  {
    forall k | 0 <= k < 128 ensures BlockXor(ZeroBlock(), b)[k] == b[k] {
      ZeroBits(b[k]);
    }
  }

  lemma ZeroBits(x: bv64)
    ensures Xor(0, x) == x
  {
  }

  /** The variable-length hash of the combined last blocks. */
  ghost function TagOf(I: B.Instance, inst: Instance, mem: Memory, n: nat): (tag: seq<byte>)
    requires inst.Valid() && |mem| == inst.memoryBlocks as int && 1 <= n < 0x1_0000_0000
    ensures |tag| == n
  {
    B.Long(I, StoredBlock(LastBlocks(inst, mem, inst.lanes)), n)
  }

  /** finalize */
  method Finalize(I: B.Instance, inst: Instance, memory: array<Block>, out: array<byte>)
    requires inst.Valid() && memory.Length == inst.memoryBlocks as int && 1 <= out.Length < 0x1_0000_0000
    modifies out
    ensures out[..] == TagOf(I, inst, memory[..], out.Length)
  {
    hide LastBlocks, StoredBlock, B.Long;
    var blockhash := FinalBlock(inst, memory);
    var bytes := new byte[BLOCK_BYTES];
    StoreBlock(bytes, blockhash);
    var r := B.Blake2bLong(I, out, out.Length, Data(bytes[..]));
    assert out[..out.Length] == out[..];
  }

  // ---- argon2_ctx ----

  /** Memory with the two opening blocks of each lane, and zeros elsewhere. */
  ghost function Opened(I: B.Instance, inst: Instance, digest: seq<byte>): (m: Memory)
    requires inst.Valid()
    ensures |m| == inst.memoryBlocks as int
  {
    seq(inst.memoryBlocks as int, k requires 0 <= k < inst.memoryBlocks as int =>
      var o := k % inst.laneLength as int;
      if o < 2 then FirstBlock(I, digest, o as uint32, LaneOf(inst, k)) else ZeroBlock())
  }

  ghost function InstanceOf(ctx: Context, kind: Kind): (inst: Instance)
    requires 1 <= ctx.lanes <= MAX_LANES && 1 <= ctx.threads && 1 <= ctx.tCost
    ensures inst.Valid()
  {
    Layout(ctx.version, ctx.tCost, ctx.mCost, ctx.lanes, ctx.threads, kind)
  }

  /** The tag as a function of the inputs alone. */
  ghost function Tag(I: B.Instance, ctx: Context, kind: Kind): (tag: seq<byte>)
    requires ctx.Sized() && 1 <= ctx.lanes <= MAX_LANES && 1 <= ctx.threads && 1 <= ctx.tCost && ctx.out.Size() >= 1
    ensures |tag| == ctx.out.Size()
  {
    var inst := InstanceOf(ctx, kind);
    TagOf(I, inst, SliceStart(inst, Opened(I, inst, Prehash(I, ctx, kind)), inst.passes, 0), ctx.out.Size())
  }

  /** Filling the opening blocks agrees with the specification whatever the memory held. */
  lemma OpeningIs(I: B.Instance, inst: Instance, digest: seq<byte>, mem: Memory)
    requires inst.Valid() && |mem| == inst.memoryBlocks as int
    requires forall l: uint32, j: uint32 {:trigger FirstBlock(I, digest, j, l)} | l < inst.lanes && j < 2 ::
               mem[Offset(inst, l, j as int)] == FirstBlock(I, digest, j, l)
    ensures SameOpening(inst, mem, Opened(I, inst, digest))
  {
    hide FirstBlock, Offset;
    forall k | 0 <= k < |mem| && k % inst.laneLength as int < 2
      ensures mem[k] == Opened(I, inst, digest)[k]
    {
      SameOffset(inst, k, LaneOf(inst, k), k % inst.laneLength as int);
      assert mem[k] == FirstBlock(I, digest, (k % inst.laneLength as int) as uint32, LaneOf(inst, k));
    }
  }

  /** The tag for a memory of max(m, 8 p) / (4 p) blocks in each of the four slices of p lanes, whose lanes open with
      the hashes of H0: fill it, combine the last blocks and hash. */
  lemma TagMeaning(I: B.Instance, ctx: Context, kind: Kind, inst: Instance, mem: Memory)
    requires ctx.Sized() && 1 <= ctx.lanes <= MAX_LANES && 1 <= ctx.threads && 1 <= ctx.tCost && ctx.out.Size() >= 1
    requires inst.Valid() && |mem| == inst.memoryBlocks as int
    requires inst.version == ctx.version && inst.passes == ctx.tCost && inst.lanes == ctx.lanes && inst.kind == kind
    requires inst.threads == if ctx.threads < ctx.lanes then ctx.threads else ctx.lanes
    requires inst.segmentLength as int == (if ctx.mCost as int < 8 * ctx.lanes as int then 8 * ctx.lanes as int
                                           else ctx.mCost as int) / (4 * ctx.lanes as int)
    requires forall l: uint32, j: uint32 {:trigger FirstBlock(I, I.Hash(64, Inputs(ctx, kind)), j, l)}
               | l < inst.lanes && j < 2 ::
               mem[Offset(inst, l, j as int)] == FirstBlock(I, I.Hash(64, Inputs(ctx, kind)), j, l)
    ensures Tag(I, ctx, kind)
            == B.Long(I, StoredBlock(LastBlocks(inst, SliceStart(inst, mem, inst.passes, 0), inst.lanes)),
                      ctx.out.Size())
  {
    SameInstance(ctx, kind, inst);
    hide Inputs, FirstBlock, Opened, SliceStart, Offset, SameOpening, InstanceOf, LastBlocks, StoredBlock, B.Long;
    var digest := Prehash(I, ctx, kind);
    OpeningIs(I, inst, digest, mem);
    MemoryFresh(inst, mem, Opened(I, inst, digest), inst.passes, 0);
  }

  lemma SameInstance(ctx: Context, kind: Kind, inst: Instance)
    requires 1 <= ctx.lanes <= MAX_LANES && 1 <= ctx.threads && 1 <= ctx.tCost && inst.Valid()
    requires inst.version == ctx.version && inst.passes == ctx.tCost && inst.lanes == ctx.lanes && inst.kind == kind
    requires inst.threads == if ctx.threads < ctx.lanes then ctx.threads else ctx.lanes
    requires inst.segmentLength as int == (if ctx.mCost as int < 8 * ctx.lanes as int then 8 * ctx.lanes as int
                                           else ctx.mCost as int) / (4 * ctx.lanes as int)
    ensures InstanceOf(ctx, kind) == inst
  {
  }

  /** argon2_ctx with single-threaded filling: the code of validate_inputs unless the inputs are valid, an error when no
      memory is to be had, and otherwise the tag, whatever the allocated memory held. */
  method Argon2Ctx(I: B.Instance, ctx: Context, kind: Kind, maxMemory: uint32, available: bool, held: nat -> Block,
                   opt: bool, ssse3: bool, out: array<byte>)
    returns (code: Code)
    requires ctx.Sized() && out.Length == ctx.out.Size()
    modifies out
    ensures code == if ValidateInputs(ctx, maxMemory) != Code.Ok then ValidateInputs(ctx, maxMemory)
                    else if !available then MemoryAllocationError else Code.Ok
    ensures code == Code.Ok ==> ValidContext(ctx, maxMemory) && out[..] == Tag(I, ctx, kind)
    ensures code != Code.Ok ==> out[..] == old(out[..])
  {
    ValidExactly(ctx, maxMemory);
    code := ValidateInputs(ctx, maxMemory);
    if code != Code.Ok {
      return;
    }
    if !available {
      return MemoryAllocationError;
    }
    hide ValidateInputs;
    Compute(I, ctx, kind, held, opt, ssse3, out);
  }

  /** Initialization, filling and finalization. */
  method Compute(I: B.Instance, ctx: Context, kind: Kind, held: nat -> Block, opt: bool, ssse3: bool, out: array<byte>)
    requires ctx.Sized() && out.Length == ctx.out.Size() >= 1
    requires 1 <= ctx.lanes <= MAX_LANES && 1 <= ctx.threads && 1 <= ctx.tCost
    modifies out
    ensures out[..] == Tag(I, ctx, kind)
  {
    var inst := Layout(ctx.version, ctx.tCost, ctx.mCost, ctx.lanes, ctx.threads, kind);
    hide Layout, Prehash, FirstBlock, Opened, SliceStart, TagOf, Offset, SameOpening;
    var memory := new Block[inst.memoryBlocks](i requires 0 <= i => held(i));
    var digest := InitialHash(I, ctx, kind);
    FillFirstBlocks(I, inst, memory, digest);
    OpeningIs(I, inst, digest, memory[..]);
    MemoryFresh(inst, memory[..], Opened(I, inst, digest), inst.passes, 0);
    FillMemoryBlocksSt(inst, memory, opt, ssse3);
    Finalize(I, inst, memory, out);
  }

  /** Whatever the interleaving of the lane threads and whatever the memory held, the tag is the same. */
  lemma AnyScheduleTag(I: B.Instance, ctx: Context, kind: Kind, mem: Memory, trace: seq<State>)
    requires ctx.Sized() && 1 <= ctx.lanes <= MAX_LANES && 1 <= ctx.threads && 1 <= ctx.tCost && ctx.out.Size() >= 1
    requires var inst, digest := InstanceOf(ctx, kind), Prehash(I, ctx, kind);
             && |mem| == inst.memoryBlocks as int && SameOpening(inst, mem, Opened(I, inst, digest))
             && IsRun(inst, mem, trace) && trace[|trace| - 1].pass == inst.passes
    ensures var last := trace[|trace| - 1].mem;
            |last| == |mem| && TagOf(I, InstanceOf(ctx, kind), last, ctx.out.Size()) == Tag(I, ctx, kind)
  {
    var inst, digest := InstanceOf(ctx, kind), Prehash(I, ctx, kind);
    hide Layout, Prehash, Opened, SliceStart, TagOf, SameOpening, IsRun;
    SameMemory(inst, mem, trace);
    MemoryFresh(inst, mem, Opened(I, inst, digest), inst.passes, 0);
  }
}
