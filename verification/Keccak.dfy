/** keccak_update and keccak_final (keccak.c). Section 5.1 of FIPS 202 with the original 0x01 padding. */
module Keccak {
  import opened Words
  import opened Nonlinear
  import opened HashStreams

  /** pad10*1 on bytes, after k bytes of a block of n. */
  function Padding(k: nat, n: nat): (s: seq<byte>)
    requires k < n
    ensures |s| + k == n
  {
    if k + 1 == n then [0x81] else [0x01] + Zeros(n - k - 2) + [0x80]
  }

  /** Read with the first bit of a byte as the least significant one, the padding is a one bit, zeros and a one bit: the
      pad10*1 of section 5.1 of FIPS 202 up to the end of the block. */
  lemma PaddingBitString(k: nat, n: nat)
    requires k < n
    ensures LittleEndian(Padding(k, n)) == 1 + Pow2(8 * (n - k) - 1)
  {
    var z := n - k - 2;
    if k + 1 == n {
      LittleEndianOne(0x81);
      assert Pow2(7) == 0x80;
    } else {
      ZerosValue(z);
      LittleEndianOne(0x01);
      LittleEndianOne(0x80);
      TopBit(z);
      hide LittleEndian, Pow2;
      LittleEndianAppend([0x01], Zeros(z));
      LittleEndianAppend([0x01] + Zeros(z), [0x80]);
    }
  }

  lemma LittleEndianOne(b: byte)
    ensures LittleEndian([b]) == b as int
  {
    assert [b][1..] == [];
  }

  lemma TopBit(z: nat)
    ensures Pow2(8 * (z + 1)) * 0x80 == Pow2(8 * (z + 2) - 1)
  {
    assert Pow2(7) == 0x80;
    hide Pow2;
    Pow2Adds(8 * (z + 1), 7);
  }

  lemma {:induction false} ZerosValue(n: nat)
    ensures LittleEndian(Zeros(n)) == 0
  {
    if n > 0 {
      ZerosValue(n - 1);
      assert Zeros(n)[1..] == Zeros(n - 1);
    }
  }

  /** The 1600-bit state. */
  type Words25 = s: seq<uint64> | |s| == 25 witness seq(25, _ => 0)

  /** The permutation with a message block added in. */
  type Permute = (Words25, seq<byte>) -> Words25

  function Blank(): (w: Words25)
    ensures forall k :: 0 <= k < 25 ==> w[k] == 0
  {
    seq(25, _ => 0)
  }

  /** The sponge state after the padded message. */
  ghost function Digest(F: Permute, m: seq<byte>, n: nat): Words25
    requires n > 0
  {
    Fold(F, Blank(), m + Padding(|Rest(m, n)|, n), n)
  }

  /** The digest is taken from the permutation folded over the message with that padding. */
  lemma DigestMeaning(F: Permute, m: seq<byte>, n: nat, p: seq<byte>)
    requires n > 0 && |p| == n - |m| % n && LittleEndian(p) == 1 + Pow2(8 * |p| - 1)
    ensures Digest(F, m, n) == Fold(F, Blank(), m + p, n) && |m + p| % n == 0
  {
    hide Padding, LittleEndian, Fold, Rest, Pow2;
    RestLength(m, n);
    PaddingBitString(|m| % n, n);
    LittleEndianInjective(p, Padding(|m| % n, n));
    DivUnique(|m + p|, n, |m| / n + 1, 0);
  }

  /** The digest of `100 - n / 2` bytes: half of the capacity, from the state, least significant byte of each word
      first. */
  ghost function Hash(F: Permute, m: seq<byte>, n: nat): (d: seq<byte>)
    requires 0 < n <= 192
    ensures |d| == DigestLength(n)
  {
    StoredWords(Digest(F, m, n), false)[..DigestLength(n)]
  }

  function DigestLength(n: nat): (d: nat)
    requires n <= 192
    ensures 4 <= d <= 100 && (n % 2 == 0 ==> n + 2 * d == 200)
  {
    100 - n / 2
  }

  /** `|=` on a byte. */
  function OrByte(x: byte, y: byte): byte
    requires BitOr(x as nat, y as nat) < 0x100
  {
    BitOr(x as nat, y as nat) as byte
  }

  lemma PaddingBits()
    ensures BitOr(0, 1) == 1 && BitOr(0, 0x80) == 0x80 && BitOr(1, 0x80) == 0x81
  {
    BitOrZero(1);
    BitOrZero(0x80);
    assert Pow2(7) == 0x80;
    BitOrDisjoint(1, 1, 7);
  }

  class Context {
    /** The block permutation with the message block added in. */
    const F: Permute
    const initial: Words25 := Blank()
    const blockSize: nat
    var hash: Words25
    var message: array<byte>
    var rest: nat
    ghost var data: seq<byte>

    ghost predicate Valid()
      reads this, message
    {
      && 0 < blockSize <= 192 && message.Length == blockSize && rest < blockSize
      && hash == Fold(F, initial, data, blockSize) && message[..rest] == Rest(data, blockSize)
    }

    /** keccak_init */
    constructor (F: Permute, bits: nat)
      requires 32 <= bits <= 796
      ensures Valid() && fresh(message) && data == [] && this.F == F && blockSize == (1600 - 2 * bits) / 8
    {
      this.F := F;
      blockSize := (1600 - 2 * bits) / 8;
      hash := Blank();
      message := new byte[(1600 - 2 * bits) / 8];
      rest := 0;
      data := [];
    }

    /** Completing a block begun: the whole message if it does not fill the block, else just what is left. */
    method FillPartial(msg: seq<byte>, idx: nat) returns (used: nat)
      requires blockSize > 0 && message.Length == blockSize
      requires 0 < idx < blockSize && message[..idx] == Rest(data, blockSize)
      requires hash == Fold(F, initial, data, blockSize)
      modifies this`hash, message
      ensures message == old(message)
      ensures used == if |msg| < blockSize - idx then |msg| else blockSize - idx
      ensures hash == Fold(F, initial, data + msg[..used], blockSize)
      ensures Rest(data + msg[..used], blockSize) == if |msg| < blockSize - idx then message[..idx + |msg|] else []
    {
      var left := blockSize - idx;
      used := if |msg| < left then |msg| else left;
      FoldAppend(F, initial, data, msg[..used], blockSize);
      hide Fold, Rest;
      CopyAt(message, idx, msg[..used]);
      if |msg| >= left {
        assert message[..] == message[..blockSize];
        hash := F(hash, message[..]);
      }
    }

    /** One whole block of the message, taken in place when its address is aligned and through the buffer otherwise. */
    method FeedBlock(block: seq<byte>, aligned: bool, ghost m: seq<byte>)
      requires blockSize > 0 && message.Length == blockSize && |block| == blockSize
      requires hash == Fold(F, initial, m, blockSize) && Rest(m, blockSize) == []
      modifies this`hash, message
      ensures message == old(message) && hash == Fold(F, initial, m + block, blockSize)
      ensures Rest(m + block, blockSize) == []
    {
      FoldAppend(F, initial, m, block, blockSize);
      hide Fold, Rest;
      assert [] + block == block;
      if aligned {
        hash := F(hash, block);
      } else {
        assert message[..0] == [];
        CopyAt(message, 0, block);
        assert message[..] == message[..blockSize];
        hash := F(hash, message[..]);
      }
    }

    /** The whole blocks of the message from position pos on. */
    method FeedBlocks(msg: seq<byte>, pos0: nat, address: nat) returns (pos: nat)
      requires blockSize > 0 && message.Length == blockSize && pos0 <= |msg|
      requires hash == Fold(F, initial, data + msg[..pos0], blockSize) && Rest(data + msg[..pos0], blockSize) == []
      modifies this`hash, message
      ensures message == old(message) && pos0 <= pos <= |msg| < pos + blockSize
      ensures hash == Fold(F, initial, data + msg[..pos], blockSize) && Rest(data + msg[..pos], blockSize) == []
    {
      hide Fold, Rest;
      pos := pos0;
      while |msg| - pos >= blockSize
        invariant pos0 <= pos <= |msg| && message == old(message)
        invariant hash == Fold(F, initial, data + msg[..pos], blockSize) && Rest(data + msg[..pos], blockSize) == []
        decreases |msg| - pos
      {
        var block := msg[pos..pos + blockSize];
        FeedBlock(block, (address + pos) % 8 == 0, data + msg[..pos]);
        assert data + msg[..pos] + block == data + msg[..pos + blockSize];
        pos := pos + blockSize;
      }
    }

    /** The bytes after the last whole block are kept in the buffer. */
    method SaveLeftovers(msg: seq<byte>, pos: nat)
      requires blockSize > 0 && message.Length == blockSize && pos <= |msg| < pos + blockSize
      requires hash == Fold(F, initial, data + msg[..pos], blockSize) && Rest(data + msg[..pos], blockSize) == []
      modifies message
      ensures hash == Fold(F, initial, data + msg, blockSize) && Rest(data + msg, blockSize) == msg[pos..]
      ensures message[..|msg| - pos] == msg[pos..]
    {
      Leftovers(F, initial, data, msg, pos, blockSize);
      hide Fold, Rest;
      if pos < |msg| {
        assert message[..0] == [];
        CopyAt(message, 0, msg[pos..]);
      }
    }

    /** The body of keccak_update after the position in the block has been moved on. */
    method AbsorbMessage(msg: seq<byte>, idx: nat, address: nat)
      requires blockSize > 0 && message.Length == blockSize
      requires idx < blockSize && message[..idx] == Rest(data, blockSize)
      requires hash == Fold(F, initial, data, blockSize)
      modifies this`hash, message
      ensures message == old(message) && hash == Fold(F, initial, data + msg, blockSize)
      ensures var r := Rest(data + msg, blockSize); |r| <= blockSize && message[..|r|] == r
    {
      hide Fold, Rest;
      assert msg[..0] == [] && data + msg[..0] == data && message[..0] == [];
      var pos := 0;
      if idx != 0 {
        pos := FillPartial(msg, idx);
        if |msg| < blockSize - idx {
          assert msg[..pos] == msg;
          return;
        }
      }
      pos := FeedBlocks(msg, pos, address);
      SaveLeftovers(msg, pos);
    }

    /** keccak_update: the state afterwards depends only on the concatenation of everything hashed, whatever the
        address of the message. */
    method Update(msg: seq<byte>, address: nat)
      requires Valid()
      modifies this, message
      ensures Valid() && message == old(message) && data == old(data) + msg
    {
      var idx := rest;
      NextRest(data, msg, blockSize);
      hide Fold, Rest;
      rest := (rest + |msg|) % blockSize;
      AbsorbMessage(msg, idx, address);
      data := data + msg;
    }

    /** keccak_final: the digest, when a place for it is given: the first bytes of the state, least significant byte of
        each word first. The context is wiped. */
    method Final(result: array?<byte>)
      requires Valid()
      requires result != null ==> result != message && DigestLength(blockSize) <= result.Length
      modifies this, message, result
      ensures result != null ==>
                && result[..DigestLength(blockSize)] == Hash(F, old(data), blockSize)
                && result[DigestLength(blockSize)..] == old(result[DigestLength(blockSize)..])
      ensures result != null ==> Delivered(result[..DigestLength(blockSize)], Digest(F, old(data), blockSize))
      ensures hash == Blank() && message == old(message) && message[..] == Zeros(blockSize) && rest == 0
    {
      hide Fold, Rest, Digest, StoredWords, Delivered;
      Finish();
      if result != null {
        Deliver(result, hash, DigestLength(blockSize));
      }
      Wipe();
    }

    method Wipe()
      requires message.Length == blockSize
      modifies this`hash, this`rest, message
      ensures hash == Blank() && message[..] == Zeros(blockSize) && rest == 0
    {
      hash := Blank();
      ZeroFill(message, 0, blockSize);
      assert message[..] == message[..blockSize];
      rest := 0;
    }

    /** The padding and the last block. */
    method Finish()
      requires Valid()
      modifies this`hash, message
      ensures hash == Digest(F, old(data), blockSize)
    {
      ghost var pad := Padding(rest, blockSize);
      FoldAppend(F, initial, data, pad, blockSize);
      hide Fold, Rest, Padding;
      PadBlock(message, rest);
      hash := F(hash, message[..]);
    }
  }

  /** me64_to_le_str(result, h, n) */
  method Deliver(result: array<byte>, h: Words25, n: nat)
    requires n <= 200 && n <= result.Length
    modifies result
    ensures result[..n] == StoredWords(h, false)[..n] && result[n..] == old(result[n..])
    ensures Delivered(result[..n], h)
  {
    hide StoredWords;
    var words := new byte[8 * 25];
    StoreWords(h, false, words);
    assert words[..8 * 25] == words[..] && result[..0] == [];
    CopyAt(result, 0, words[..n]);
    StoredDelivered(h, n);
  }

  /** memzero from rest on, then the two padding bits. */
  method PadBlock(message: array<byte>, rest: nat)
    requires rest < message.Length
    modifies message
    ensures message[..] == old(message[..rest]) + Padding(rest, message.Length)
  {
    PaddingBits();
    hide BitOr;
    ghost var before := message[..rest];
    ZeroFill(message, rest, message.Length);
    assert message[..] == message[..message.Length];
    ghost var zeroed := message[..];
    message[rest] := OrByte(message[rest], 0x01);
    message[message.Length - 1] := OrByte(message[message.Length - 1], 0x80);
    if rest + 1 == message.Length {
      assert message[..] == zeroed[rest := 0x81];
    } else {
      assert message[..] == zeroed[rest := 0x01][message.Length - 1 := 0x80];
    }
  }

  lemma Leftovers(F: Permute, initial: Words25, data: seq<byte>, msg: seq<byte>, pos: nat, n: nat)
    requires n > 0 && pos <= |msg| < pos + n && Rest(data + msg[..pos], n) == []
    ensures Fold(F, initial, data + msg, n) == Fold(F, initial, data + msg[..pos], n)
    ensures Rest(data + msg, n) == msg[pos..]
  {
    hide *;
    FoldAppend(F, initial, data + msg[..pos], msg[pos..], n);
    assert data + msg[..pos] + msg[pos..] == data + msg && [] + msg[pos..] == msg[pos..];
  }

  lemma NextRest(data: seq<byte>, msg: seq<byte>, n: nat)
    requires n > 0
    ensures (|Rest(data, n)| + |msg|) % n == |Rest(data + msg, n)|
  {
    RestLength(data, n);
    RestLength(data + msg, n);
    AddRest(|data|, |msg|, n);
  }

  lemma AddRest(a: nat, b: nat, n: nat)
    requires n > 0
    ensures (a % n + b) % n == (a + b) % n
  {
    ModShift(a % n + b, a / n, n);
    assert a % n + b + a / n * n == a + b;
  }

  lemma ModShift(x: nat, k: nat, n: nat)
    requires n > 0
    ensures (x + k * n) % n == x % n
  {
    MulDistr(n, x / n, k);
    DivUnique(x + k * n, n, x / n + k, x % n);
  }

  /** Any two ways of splitting a message into updates, at any addresses, end in the same digest of `bits` bits. */
  method SplitIndependent(F: Permute, bits: nat, parts: seq<seq<byte>>, addresses: seq<nat>)
    returns (d: seq<byte>)
    requires 32 <= bits <= 796 && |addresses| == |parts|
    ensures d == Hash(F, Flatten(parts), (1600 - 2 * bits) / 8)
    ensures bits % 8 == 0 ==> |d| == bits / 8
  {
    var ctx := new Context(F, bits);
    for i := 0 to |parts|
      invariant ctx.Valid() && ctx.F == F && ctx.blockSize == (1600 - 2 * bits) / 8
      invariant fresh(ctx) && fresh(ctx.message)
      invariant ctx.data == Flatten(parts[..i])
    {
      FlattenLast(parts, i);
      ctx.Update(parts[i], addresses[i]);
    }
    assert parts[..|parts|] == parts;
    var out := new byte[DigestLength(ctx.blockSize)];
    ctx.Final(out);
    d := out[..];
    assert out[..DigestLength(ctx.blockSize)] == d;
  }
}
