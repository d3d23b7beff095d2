/** Block-wise hashing of a byte string, the specification that the buffered implementations refine. The
    compression functions are arbitrary. */
module HashStreams {
  import opened Words
  import opened Nonlinear

  /** A chaining value after every whole block of m, for hashes that process a block as soon as it is full. */
  ghost function Fold<H>(F: (H, seq<byte>) -> H, h: H, m: seq<byte>, n: nat): H
    requires n > 0
    decreases |m|
  {
    if |m| < n then h else Fold(F, F(h, m[..n]), m[n..], n)
  }

  /** The bytes after the whole blocks. */
  ghost function Rest(m: seq<byte>, n: nat): (r: seq<byte>)
    requires n > 0
    ensures |r| < n
    decreases |m|
  {
    if |m| < n then m else Rest(m[n..], n)
  }

  /** Hashing may be resumed from the chaining value and the rest. */
  lemma {:induction false} FoldResume<H>(F: (H, seq<byte>) -> H, h: H, m: seq<byte>, x: seq<byte>, n: nat)
    requires n > 0
    ensures Fold(F, h, m + x, n) == Fold(F, Fold(F, h, m, n), Rest(m, n) + x, n)
    ensures Rest(m + x, n) == Rest(Rest(m, n) + x, n)
    decreases |m|
  {
    if |m| >= n {
      assert (m + x)[..n] == m[..n] && (m + x)[n..] == m[n..] + x;
      FoldResume(F, F(h, m[..n]), m[n..], x, n);
    }
  }

  lemma {:induction false} RestLength(m: seq<byte>, n: nat)
    requires n > 0
    ensures |Rest(m, n)| == |m| % n
    decreases |m|
  {
    if |m| < n {
      DivUnique(|m|, n, 0, |m|);
    } else {
      RestLength(m[n..], n);
      var k := |m| - n;
      DivUnique(|m|, n, k / n + 1, k % n);
    }
  }

  /** Whole blocks in front are folded one after the other. */
  lemma FoldBlock<H>(F: (H, seq<byte>) -> H, h: H, m: seq<byte>, n: nat)
    requires n > 0
    ensures |m| < n ==> Fold(F, h, m, n) == h && Rest(m, n) == m
    ensures |m| >= n ==> Fold(F, h, m, n) == Fold(F, F(h, m[..n]), m[n..], n) && Rest(m, n) == Rest(m[n..], n)
  {
  }

  /** Absorbing x after data when at most one block is completed. */
  lemma FoldAppend<H>(F: (H, seq<byte>) -> H, initial: H, data: seq<byte>, x: seq<byte>, n: nat)
    requires n > 0 && |Rest(data, n)| + |x| <= n
    ensures var r := Rest(data, n) + x;
            && Fold(F, initial, data + x, n) == (if |r| == n then F(Fold(F, initial, data, n), r)
                                                 else Fold(F, initial, data, n))
            && Rest(data + x, n) == (if |r| == n then [] else r)
  {
    var r, h := Rest(data, n) + x, Fold(F, initial, data, n);
    FoldResume(F, initial, data, x, n);
    FoldBlock(F, h, r, n);
    if |r| == n {
      assert r[..n] == r && r[n..] == [];
      FoldBlock(F, F(h, r), [], n);
    }
  }

  /** n zero bytes. */
  function Zeros(n: nat): (z: seq<byte>)
    ensures |z| == n && forall k :: 0 <= k < n ==> z[k] == 0
  {
    seq(n, _ => 0)
  }

  /** The concatenation of the parts of a message. */
  ghost function Flatten(parts: seq<seq<byte>>): seq<byte>
  {
    if parts == [] then [] else Flatten(parts[..|parts| - 1]) + parts[|parts| - 1]
  }

  lemma FlattenLast(parts: seq<seq<byte>>, i: nat)
    requires i < |parts|
    ensures Flatten(parts[..i + 1]) == Flatten(parts[..i]) + parts[i]
  {
    assert parts[..i + 1][..i] == parts[..i];
  }

  /** Folding block by block: t gives the chaining value before each block. */
  lemma {:induction false} FoldMeaning<H>(F: (H, seq<byte>) -> H, blocks: seq<seq<byte>>, n: nat, t: nat -> H)
    requires n > 0 && forall i :: 0 <= i < |blocks| ==> |blocks[i]| == n
    requires forall i :: 0 <= i < |blocks| ==> t(i + 1) == F(t(i), blocks[i])
    ensures Fold(F, t(0), Flatten(blocks), n) == t(|blocks|) && Rest(Flatten(blocks), n) == []
  {
    if blocks != [] {
      var k := |blocks| - 1;
      FoldMeaning(F, blocks[..k], n, t);
      assert t(k + 1) == F(t(k), blocks[k]);
      hide Fold, Rest;
      FoldAppend(F, t(0), Flatten(blocks[..k]), blocks[k], n);
      assert [] + blocks[k] == blocks[k];
    }
  }

  /** memcpy(buf + at, x, |x|) */
  method CopyAt(buf: array<byte>, at: nat, x: seq<byte>)
    requires at + |x| <= buf.Length
    modifies buf
    ensures buf[..at + |x|] == old(buf[..at]) + x && buf[at + |x|..] == old(buf[at + |x|..])
  {
    forall i | 0 <= i < |x| {
      buf[at + i] := x[i];
    }
  }

  /** memset(buf + from, 0, to - from) */
  method ZeroFill(buf: array<byte>, from: nat, to: nat)
    requires from <= to <= buf.Length
    modifies buf
    ensures buf[..to] == old(buf[..from]) + Zeros(to - from) && buf[to..] == old(buf[to..])
  {
    forall i | from <= i < to {
      buf[i] := 0;
    }
  }

  /** A pointer with its length; a null pointer may come with any length. */
  datatype Field = Null(length: nat) | Data(bytes: seq<byte>)
  {
    /** The length fits a 32-bit field. */
    predicate Sized() { Size() < 0x1_0000_0000 }

    function Size(): nat { if Null? then length else |bytes| }

    function Length(): uint32
      requires Sized()
    {
      Size() as uint32
    }
  }

  // ---- words as bytes ----

  /** The chaining value of SHA-512 and of BLAKE2b. */
  type Words8 = s: seq<uint64> | |s| == 8 witness seq(8, _ => 0)

  /** Eight bytes of a word, the most significant first if `big`. */
  function WordBytes(x: uint64, big: bool): (s: seq<byte>)
    ensures |s| == 8
  {
    var b := Bytes(x as nat, 8);
    if big then [b[7], b[6], b[5], b[4], b[3], b[2], b[1], b[0]] else b
  }

  lemma {:induction false} ByteOf(x: nat, n: nat, i: nat)
    requires i < n
    ensures Bytes(x, n)[i] as int == x / Pow2(8 * i) % 0x100
  {
    if i > 0 {
      ByteOf(x / 0x100, n - 1, i - 1);
      assert Pow2(8) == 0x100;
      hide *;
      Pow2Adds(8, 8 * i - 8);
      DivNest(x, 0x100, Pow2(8 * i - 8));
    }
  }

  /** Read in its byte order, a stored word is the word. */
  lemma WordBytesValue(x: uint64, big: bool)
    ensures x as int == if big then BigEndian(WordBytes(x, true)) else LittleEndian(WordBytes(x, false))
  {
    SixtyFour();
    hide Bytes, Pow2, LittleEndian, BigEndian;
    BytesLittleEndian(x as nat, 8);
    if big {
      var b := Bytes(x as nat, 8);
      Reversed8(b[0], b[1], b[2], b[3], b[4], b[5], b[6], b[7]);
      assert b == [b[0], b[1], b[2], b[3], b[4], b[5], b[6], b[7]];
    }
  }

  lemma Reversed8(a: byte, b: byte, c: byte, d: byte, e: byte, f: byte, g: byte, h: byte)
    ensures BigEndian([h, g, f, e, d, c, b, a]) == LittleEndian([a, b, c, d, e, f, g, h])
  {
    hide LittleEndian, BigEndian, Pow2;
    Reversed4(a, b, c, d);
    Reversed4(e, f, g, h);
    Pow2At32();
    HalvesReversed([a, b, c, d], [e, f, g, h], [h, g, f, e], [d, c, b, a]);
    assert [h, g, f, e] + [d, c, b, a] == [h, g, f, e, d, c, b, a];
    assert [a, b, c, d] + [e, f, g, h] == [a, b, c, d, e, f, g, h];
  }

  lemma HalvesReversed(s: seq<byte>, t: seq<byte>, u: seq<byte>, v: seq<byte>)
    requires |s| == |t| == |u| == |v| && BigEndian(u) == LittleEndian(t) && BigEndian(v) == LittleEndian(s)
    ensures BigEndian(u + v) == LittleEndian(s + t)
  {
    hide LittleEndian, BigEndian, Pow2;
    BigEndianAppend(u, v);
    LittleEndianAppend(s, t);
  }

  /** The words one after the other. */
  function StoredWords(h: seq<uint64>, big: bool): (s: seq<byte>)
    ensures |s| == 8 * |h|
  {
    if h == [] then [] else StoredWords(h[..|h| - 1], big) + WordBytes(h[|h| - 1], big)
  }

  lemma WordBytesInjective(x: uint64, y: uint64, big: bool)
    requires WordBytes(x, big) == WordBytes(y, big)
    ensures x == y
  {
    hide WordBytes, LittleEndian, BigEndian;
    WordBytesValue(x, big);
    WordBytesValue(y, big);
  }

  lemma SixtyFour()
    ensures Pow2(64) == TWO64
  {
    Pow2At32();
    hide Pow2;
    Pow2Adds(32, 32);
  }

  /** Eight bytes for each word, in the order of the words. */
  lemma {:induction false} StoredWordAt(h: seq<uint64>, big: bool, i: nat)
    requires i < |h|
    ensures StoredWords(h, big)[8 * i..8 * i + 8] == WordBytes(h[i], big)
  {
    hide WordBytes, StoredWords;
    StoredLast(h, big);
    var n := |h| - 1;
    if i < n {
      StoredWordAt(h[..n], big, i);
      assert StoredWords(h, big)[8 * i..8 * i + 8] == StoredWords(h, big)[..8 * n][8 * i..8 * i + 8];
    } else {
      assert StoredWords(h, big)[8 * n..8 * n + 8] == StoredWords(h, big)[8 * n..];
    }
  }

  /** Byte k of words stored with the least significant byte first. */
  lemma StoredByteAt(h: seq<uint64>, k: nat)
    requires k < 8 * |h|
    ensures StoredWords(h, false)[k] as int == h[k / 8] as int / Pow2(8 * (k % 8)) % 0x100
  {
    hide StoredWords, Bytes, Pow2;
    StoredWordAt(h, false, k / 8);
    assert StoredWords(h, false)[8 * (k / 8)..8 * (k / 8) + 8][k % 8] == StoredWords(h, false)[k];
    ByteOf(h[k / 8] as nat, 8, k % 8);
  }

  /** The bytes are those of the words, from the first word and its least significant byte on. */
  ghost predicate Delivered(s: seq<byte>, h: seq<uint64>)
  {
    && |s| <= 8 * |h|
    && forall k :: 0 <= k < |s| ==> s[k] as int == h[k / 8] as int / Pow2(8 * (k % 8)) % 0x100
  }

  lemma StoredDelivered(h: seq<uint64>, n: nat)
    requires n <= 8 * |h|
    ensures Delivered(StoredWords(h, false)[..n], h)
  {
    hide StoredWords, Pow2;
    forall k | 0 <= k < n
      ensures StoredWords(h, false)[..n][k] as int == h[k / 8] as int / Pow2(8 * (k % 8)) % 0x100
    {
      StoredByteAt(h, k);
    }
  }

  /** The stored bytes determine the words. */
  lemma {:induction false} StoredInjective(g: seq<uint64>, h: seq<uint64>, big: bool)
    requires |g| == |h| && StoredWords(g, big) == StoredWords(h, big)
    ensures g == h
  {
    hide StoredWords, WordBytes;
    if g != [] {
      var n := |g| - 1;
      StoredLast(g, big);
      StoredLast(h, big);
      StoredInjective(g[..n], h[..n], big);
      WordBytesInjective(g[n], h[n], big);
      assert g == g[..n] + [g[n]] && h == h[..n] + [h[n]];
    }
  }

  lemma StoredLast(h: seq<uint64>, big: bool)
    requires h != []
    ensures var n, s := |h| - 1, StoredWords(h, big);
            s[..8 * n] == StoredWords(h[..n], big) && s[8 * n..] == WordBytes(h[n], big)
  {
    hide WordBytes;
    assert StoredWords(h, big) == StoredWords(h[..|h| - 1], big) + WordBytes(h[|h| - 1], big);
  }

  /** The loop that copies a chaining value to the output. */
  method StoreWords(h: seq<uint64>, big: bool, out: array<byte>)
    requires 8 * |h| <= out.Length
    modifies out
    ensures out[..8 * |h|] == StoredWords(h, big) && out[8 * |h|..] == old(out[8 * |h|..])
  {
    hide WordBytes;
    for i := 0 to |h|
      invariant out[..8 * i] == StoredWords(h[..i], big) && out[8 * |h|..] == old(out[8 * |h|..])
    {
      assert h[..i + 1][..i] == h[..i];
      ghost var behind := out[8 * |h|..];
      CopyAt(out, 8 * i, WordBytes(h[i], big));
      assert out[8 * |h|..] == behind;
    }
    assert h[..|h|] == h;
  }
}
