/** Filling one 1 KiB block: fill_block and next_addresses of ref.c, and of opt.c on 128-bit registers.
    Section 3.5 of RFC 9106. */
module Argon2Block {
  import opened Blamka

  /** A memory block: 128 words of 64 bits. */
  type Block = s: seq<bv64> | |s| == 128 witness seq(128, i => 0)

  function ZeroBlock(): (z: Block)
    ensures forall k :: 0 <= k < 128 ==> z[k] == 0
  {
    seq(128, i => 0)
  }

  /** xor_block */
  function BlockXor(a: Block, b: Block): Block
  {
    seq(128, k requires 0 <= k < 128 => Xor(a[k], b[k]))
  }

  /** Position of the j-th word of round i: eight rows of sixteen words, then eight columns of word pairs. */
  function Index(i: nat, j: nat): (k: nat)
    requires i < 16 && j < 16
    ensures k < 128
  {
    if i < 8 then 16 * i + j else 2 * (i - 8) + 16 * (j / 2) + j % 2
  }

  function Gather(s: Block, i: nat): Sixteen
    requires i < 16
  {
    Sixteen(s[Index(i, 0)], s[Index(i, 1)], s[Index(i, 2)], s[Index(i, 3)],
            s[Index(i, 4)], s[Index(i, 5)], s[Index(i, 6)], s[Index(i, 7)],
            s[Index(i, 8)], s[Index(i, 9)], s[Index(i, 10)], s[Index(i, 11)],
            s[Index(i, 12)], s[Index(i, 13)], s[Index(i, 14)], s[Index(i, 15)])
  }

  /** The first n words of w put in their places. */
  function Scatter(s: Block, i: nat, w: Sixteen, n: nat): Block
    requires i < 16 && n <= 16
  {
    if n == 0 then s else Scatter(s, i, w, n - 1)[Index(i, n - 1) := At(w, n - 1)]
  }

  /** The block after the first n of the sixteen rounds. */
  function Rounds(s: Block, n: nat): Block
    requires n <= 16
  {
    if n == 0 then s else RoundAt(Rounds(s, n - 1), n - 1)
  }

  function RoundAt(s: Block, i: nat): Block
    requires i < 16
  {
    Scatter(s, i, Round(Gather(s, i)), 16)
  }

  /** The words of round i: those of row i, or the pair in column i - 8 of every row. */
  predicate InRound(i: nat, k: nat) { if i < 8 then k / 16 == i else k % 16 / 2 == i - 8 }

  /** Word j of row i, and in the later rounds word j % 2 of the pair in row j / 2. */
  lemma IndexMeaning(i: nat, j: nat)
    requires i < 16 && j < 16
    ensures InRound(i, Index(i, j))
    ensures i < 8 ==> Index(i, j) % 16 == j
    ensures i >= 8 ==> Index(i, j) / 16 == j / 2 && Index(i, j) % 2 == j % 2
  {
    if i < 8 {
      Digits(i, j);
    } else {
      Digits(j / 2, 2 * (i - 8) + j % 2);
    }
  }

  lemma Digits(h: nat, r: nat)
    requires r < 16
    ensures (16 * h + r) / 16 == h && (16 * h + r) % 16 == r && (16 * h + r) % 2 == r % 2
  {
  }

  lemma IndexFills(i: nat, k: nat)
    requires i < 16 && k < 128 && InRound(i, k)
    ensures Index(i, if i < 8 then k % 16 else k / 16 * 2 + k % 2) == k
  {
  }

  lemma IndexInjective(i: nat, j: nat, j': nat)
    requires i < 16 && j < 16 && j' < 16 && Index(i, j) == Index(i, j')
    ensures j == j'
  {
    hide Index;
    IndexMeaning(i, j);
    IndexMeaning(i, j');
  }

  lemma GatherAt(s: Block, i: nat, j: nat)
    requires i < 16 && j < 16
    ensures At(Gather(s, i), j) == s[Index(i, j)]
  {
    hide At, Index, Gather;
    if j < 4 {
      GatherA(s, i);
    } else if j < 8 {
      GatherB(s, i);
    } else if j < 12 {
      GatherC(s, i);
    } else {
      GatherD(s, i);
    }
  }

  lemma GatherA(s: Block, i: nat)
    requires i < 16
    ensures At(Gather(s, i), 0) == s[Index(i, 0)] && At(Gather(s, i), 1) == s[Index(i, 1)]
    ensures At(Gather(s, i), 2) == s[Index(i, 2)] && At(Gather(s, i), 3) == s[Index(i, 3)]
  {
    hide At, Index;
    RowA(Gather(s, i));
  }

  lemma GatherB(s: Block, i: nat)
    requires i < 16
    ensures At(Gather(s, i), 4) == s[Index(i, 4)] && At(Gather(s, i), 5) == s[Index(i, 5)]
    ensures At(Gather(s, i), 6) == s[Index(i, 6)] && At(Gather(s, i), 7) == s[Index(i, 7)]
  {
    hide At, Index;
    RowB(Gather(s, i));
  }

  lemma GatherC(s: Block, i: nat)
    requires i < 16
    ensures At(Gather(s, i), 8) == s[Index(i, 8)] && At(Gather(s, i), 9) == s[Index(i, 9)]
    ensures At(Gather(s, i), 10) == s[Index(i, 10)] && At(Gather(s, i), 11) == s[Index(i, 11)]
  {
    hide At, Index;
    RowC(Gather(s, i));
  }

  lemma GatherD(s: Block, i: nat)
    requires i < 16
    ensures At(Gather(s, i), 12) == s[Index(i, 12)] && At(Gather(s, i), 13) == s[Index(i, 13)]
    ensures At(Gather(s, i), 14) == s[Index(i, 14)] && At(Gather(s, i), 15) == s[Index(i, 15)]
  {
    hide At, Index;
    RowD(Gather(s, i));
  }

  lemma {:induction false} ScatterAt(s: Block, i: nat, w: Sixteen, n: nat, k: nat)
    requires i < 16 && n <= 16 && k < 128
    ensures forall j :: 0 <= j < n && Index(i, j) == k ==> Scatter(s, i, w, n)[k] == At(w, j)
    ensures !InRound(i, k) ==> Scatter(s, i, w, n)[k] == s[k]
  {
    hide At, Index;
    if n != 0 {
      ScatterAt(s, i, w, n - 1, k);
      IndexMeaning(i, n - 1);
      forall j | 0 <= j < n && Index(i, j) == k ensures Scatter(s, i, w, n)[k] == At(w, j) {
        if Index(i, n - 1) == k {
          IndexInjective(i, j, n - 1);
        }
      }
    }
  }

  lemma SameWords(v: Sixteen, w: Sixteen)
    requires forall j :: 0 <= j < 16 ==> At(v, j) == At(w, j)
    ensures v == w
  {
    hide At;
    AtWords(v);
    AtWords(w);
  }

  /** Round i replaces its sixteen words by the round of these words and changes no others. */
  lemma RoundAtMeaning(s: Block, i: nat)
    requires i < 16
    ensures Gather(RoundAt(s, i), i) == Round(Gather(s, i))
    ensures forall k :: 0 <= k < 128 && !InRound(i, k) ==> RoundAt(s, i)[k] == s[k]
  {
    hide At, Index, Scatter, Gather, Round, InRound;
    var t, w := RoundAt(s, i), Round(Gather(s, i));
    forall j | 0 <= j < 16 ensures At(Gather(t, i), j) == At(w, j) {
      GatherAt(t, i, j);
      ScatterAt(s, i, w, 16, Index(i, j));
    }
    SameWords(Gather(t, i), w);
    forall k | 0 <= k < 128 && !InRound(i, k) ensures t[k] == s[k] {
      ScatterAt(s, i, w, 16, k);
    }
  }

  /** A block before and after each of the sixteen rounds. */
  ghost predicate InRounds(t: seq<Block>)
  {
    && |t| == 17
    && forall i :: 0 <= i < 16 ==> t[i + 1] == RoundAt(t[i], i)
  }

  lemma {:induction false} RoundsChain(t: seq<Block>, n: nat)
    requires n <= 16 && InRounds(t)
    ensures Rounds(t[0], n) == t[n]
  {
    hide RoundAt;
    if n != 0 {
      RoundsChain(t, n - 1);
      assert t[n - 1 + 1] == RoundAt(t[n - 1], n - 1);
    }
  }

  /** G(prev, ref), exclusive-ored over the previous contents in later passes. The detour through Delayed changes
      nothing in the value: it keeps the solver, which unfolds a recursion only a few times, from expanding a block
      wherever one is mentioned. FillIs expands it on demand. */
  function Fill(prev: Block, ref: Block, contents: Block, withXor: bool): Block
  {
    Delayed(prev, ref, contents, withXor, |[withXor, withXor, withXor, withXor]|)
  }

  function Delayed(prev: Block, ref: Block, contents: Block, withXor: bool, n: nat): Block
  {
    if n > 0 then Delayed(prev, ref, contents, withXor, n - 1)
    else
      var R := BlockXor(ref, prev);
      BlockXor(if withXor then BlockXor(R, contents) else R, Rounds(R, 16))
  }

  lemma {:induction false} DelayedIs(prev: Block, ref: Block, contents: Block, withXor: bool, n: nat)
    ensures Delayed(prev, ref, contents, withXor, n) ==
            BlockXor(if withXor then BlockXor(BlockXor(ref, prev), contents) else BlockXor(ref, prev),
                     Rounds(BlockXor(ref, prev), 16))
  {
    hide Rounds, BlockXor;
    if n > 0 {
      DelayedIs(prev, ref, contents, withXor, n - 1);
    }
  }

  lemma FillIs(prev: Block, ref: Block, contents: Block, withXor: bool)
    ensures Fill(prev, ref, contents, withXor) ==
            BlockXor(if withXor then BlockXor(BlockXor(ref, prev), contents) else BlockXor(ref, prev),
                     Rounds(BlockXor(ref, prev), 16))
  {
    hide Rounds, BlockXor;
    DelayedIs(prev, ref, contents, withXor, |[withXor, withXor, withXor, withXor]|);
  }

  lemma XorComm(a: Block, b: Block)
    ensures BlockXor(a, b) == BlockXor(b, a)
  {
    forall k | 0 <= k < 128 ensures BlockXor(a, b)[k] == BlockXor(b, a)[k] {
      WordXorComm(a[k], b[k]);
    }
  }

  lemma WordXorComm(x: bv64, y: bv64)
    ensures Xor(x, y) == Xor(y, x)
  {
  }

  lemma BlockXorAt(a: Block, b: Block, k: nat)
    requires k < 128
    ensures BlockXor(a, b)[k] == Xor(a[k], b[k])
  {
    hide Xor;
  }

  /** Word by word: the two blocks, what their exclusive or has become after the rounds 0 to 15, and in later passes
      the previous contents. */
  lemma FillMeaning(prev: Block, ref: Block, contents: Block, withXor: bool, t: seq<Block>, k: nat)
    requires InRounds(t) && t[0] == BlockXor(prev, ref) && k < 128
    ensures !withXor ==> Fill(prev, ref, contents, withXor)[k] == Xor(Xor(prev[k], ref[k]), t[16][k])
    ensures withXor ==> Fill(prev, ref, contents, withXor)[k] == Xor(Xor(Xor(prev[k], ref[k]), contents[k]), t[16][k])
  {
    hide RoundAt, Rounds, BlockXor, Fill, Xor;
    XorComm(prev, ref);
    RoundsChain(t, 16);
    FillIs(prev, ref, contents, withXor);
    BlockXorAt(prev, ref, k);
    BlockXorAt(t[0], contents, k);
    BlockXorAt(t[0], t[16], k);
    BlockXorAt(BlockXor(t[0], contents), t[16], k);
  }

  // ---- ref.c ----

  /** BLAKE2_ROUND_NOMSG on the words of round i, in place. */
  method RoundInPlace(v: array<bv64>, i: nat)
    requires v.Length == 128 && i < 16
    modifies v
    ensures v[..] == RoundAt(old(v[..]), i)
  {
    hide Round, Index, At, Gather;
    ghost var s: Block := v[..];
    var r := RoundNomsg(Gather(v[..], i));
    for j := 0 to 16
      invariant v[..] == Scatter(s, i, r, j)
    {
      v[Index(i, j)] := At(r, j);
    }
  }

  /** fill_block of ref.c */
  method FillBlock(prev: Block, ref: Block, contents: Block, withXor: bool) returns (next: Block)
    ensures next == Fill(prev, ref, contents, withXor)
  {
    FillIs(prev, ref, contents, withXor);
    hide RoundAt, Xor;
    var R := BlockXor(ref, prev);
    var tmp := R;
    if withXor {
      tmp := BlockXor(tmp, contents);
    }
    var v := new bv64[128];
    forall k | 0 <= k < 128 {
      v[k] := R[k];
    }
    assert v[..] == R;
    for i := 0 to 16
      invariant v[..] == Rounds(R, i)
    {
      RoundInPlace(v, i);
    }
    next := BlockXor(tmp, v[..]);
  }

  /** The next block of addresses for a given counter block. */
  function Addresses(input: Block): Block
  {
    var once := Fill(ZeroBlock(), input, ZeroBlock(), false);
    Fill(ZeroBlock(), once, ZeroBlock(), false)
  }

  /** input_block.v[6]++ */
  function Counted(input: Block): Block { input[6 := input[6] + 1] }

  lemma FillIgnoresContents(prev: Block, ref: Block, c: Block, d: Block)
    ensures Fill(prev, ref, c, false) == Fill(prev, ref, d, false)
  {
    FillIs(prev, ref, c, false);
    FillIs(prev, ref, d, false);
  }

  /** next_addresses of ref.c */
  method NextAddresses(input: Block, address: Block) returns (counted: Block, next: Block)
    ensures counted == Counted(input) && next == Addresses(counted)
    ensures counted[6] == input[6] + 1 && forall k :: 0 <= k < 128 && k != 6 ==> counted[k] == input[k]
    ensures next == Fill(ZeroBlock(), Fill(ZeroBlock(), counted, ZeroBlock(), false), ZeroBlock(), false)
  {
    hide Fill;
    counted := input[6 := input[6] + 1];
    next := FillBlock(ZeroBlock(), counted, address, false);
    FillIgnoresContents(ZeroBlock(), counted, address, ZeroBlock());
    ghost var once := next;
    next := FillBlock(ZeroBlock(), next, next, false);
    FillIgnoresContents(ZeroBlock(), once, once, ZeroBlock());
  }

  // ---- opt.c ----

  /** The words held by 64 registers. */
  function Flatten(p: seq<Pair>): Block
    requires |p| == 64
  {
    seq(128, k requires 0 <= k < 128 => if k % 2 == 0 then p[k / 2].lo else p[k / 2].hi)
  }

  /** The register that holds words 2 j and 2 j + 1 of round i. */
  function Place(i: nat, j: nat): (k: nat)
    requires i < 16 && j < 8
    ensures k < 64 && 2 * k == Index(i, 2 * j) && 2 * k + 1 == Index(i, 2 * j + 1)
  {
    if i < 8 then 8 * i + j else 8 * j + (i - 8)
  }

  function RegisterAt(e: Eight, j: nat): Pair
  {
    match j
    case 0 => e.A0
    case 1 => e.A1
    case 2 => e.B0
    case 3 => e.B1
    case 4 => e.C0
    case 5 => e.C1
    case 6 => e.D0
    case _ => e.D1
  }

  function GatherPairs(p: seq<Pair>, i: nat): Eight
    requires |p| == 64 && i < 16
  {
    Eight(p[Place(i, 0)], p[Place(i, 1)], p[Place(i, 2)], p[Place(i, 3)],
          p[Place(i, 4)], p[Place(i, 5)], p[Place(i, 6)], p[Place(i, 7)])
  }

  lemma PlaceWords(p: seq<Pair>, i: nat, j: nat)
    requires |p| == 64 && i < 16 && j < 8
    ensures p[Place(i, j)] == Pair(Flatten(p)[Index(i, 2 * j)], Flatten(p)[Index(i, 2 * j + 1)])
  {
    hide Place, Index;
    assert Flatten(p)[2 * Place(i, j)] == p[Place(i, j)].lo && Flatten(p)[2 * Place(i, j) + 1] == p[Place(i, j)].hi;
  }

  lemma GatherFlatten(p: seq<Pair>, i: nat)
    requires |p| == 64 && i < 16
    ensures Words(GatherPairs(p, i)) == Gather(Flatten(p), i)
  {
    hide Flatten, Place, Index;
    PlaceWords(p, i, 0);
    PlaceWords(p, i, 1);
    PlaceWords(p, i, 2);
    PlaceWords(p, i, 3);
    PlaceWords(p, i, 4);
    PlaceWords(p, i, 5);
    PlaceWords(p, i, 6);
    PlaceWords(p, i, 7);
  }

  /** Storing a register stores its two words. */
  lemma FlattenUpdate(p: seq<Pair>, k: nat, x: Pair)
    requires |p| == 64 && k < 64
    ensures Flatten(p[k := x]) == Flatten(p)[2 * k := x.lo][2 * k + 1 := x.hi]
  {
  }

  lemma RegisterWords(e: Eight, j: nat)
    requires j < 8
    ensures RegisterAt(e, j) == Pair(At(Words(e), 2 * j), At(Words(e), 2 * j + 1))
  {
    assert j == 0 || j == 1 || j == 2 || j == 3 || j == 4 || j == 5 || j == 6 || j == 7;
  }

  /** Two more words in place. */
  lemma ScatterPair(s: Block, i: nat, w: Sixteen, j: nat)
    requires i < 16 && j < 8
    ensures Scatter(s, i, w, 2 * j + 2) ==
            Scatter(s, i, w, 2 * j)[Index(i, 2 * j) := At(w, 2 * j)][Index(i, 2 * j + 1) := At(w, 2 * j + 1)]
  {
  }

  /** One register stored back. */
  method StoreRegister(state: array<Pair>, i: nat, j: nat, e: Eight, ghost s: Block)
    requires state.Length == 64 && i < 16 && j < 8 && Flatten(state[..]) == Scatter(s, i, Words(e), 2 * j)
    modifies state
    ensures Flatten(state[..]) == Scatter(s, i, Words(e), 2 * j + 2)
  {
    hide Index, At, Place, Flatten, RegisterAt, Words, Scatter;
    ghost var before := state[..];
    FlattenUpdate(before, Place(i, j), RegisterAt(e, j));
    RegisterWords(e, j);
    ScatterPair(s, i, Words(e), j);
    state[Place(i, j)] := RegisterAt(e, j);
    assert state[..] == before[Place(i, j) := RegisterAt(e, j)];
  }

  /** BLAKE2_ROUND on eight registers, in place. */
  method RoundRegisters(state: array<Pair>, i: nat, ssse3: bool)
    requires state.Length == 64 && i < 16
    modifies state
    ensures Flatten(state[..]) == RoundAt(Flatten(old(state[..])), i)
  {
    hide Round, Index, At, Place, Flatten, RegisterAt, Words, Scatter, Gather;
    ghost var p := state[..];
    ghost var s := Flatten(p);
    var r := Blake2Round(GatherPairs(state[..], i), ssse3);
    GatherFlatten(p, i);
    ScatterNothing(s, i, Words(r));
    for j := 0 to 8
      invariant Flatten(state[..]) == Scatter(s, i, Words(r), 2 * j)
    {
      StoreRegister(state, i, j, r, s);
    }
  }

  lemma ScatterNothing(s: Block, i: nat, w: Sixteen)
    requires i < 16
    ensures Scatter(s, i, w, 0) == s
  {
  }

  function PairsXor(p: seq<Pair>, q: seq<Pair>): (r: seq<Pair>)
    requires |p| == 64 && |q| == 64
    ensures |r| == 64
  {
    seq(64, k requires 0 <= k < 64 => PairXor(p[k], q[k]))
  }

  /** The 16-byte loads of a block. */
  function Registers(b: Block): (p: seq<Pair>)
    ensures |p| == 64 && Flatten(p) == b
  {
    seq(64, k requires 0 <= k < 64 => Pair(b[2 * k], b[2 * k + 1]))
  }

  lemma FlattenXor(p: seq<Pair>, q: seq<Pair>)
    requires |p| == 64 && |q| == 64
    ensures Flatten(PairsXor(p, q)) == BlockXor(Flatten(p), Flatten(q))
  {
    hide Xor;
  }

  /** One of the three register loops: state[k] ^= q[k]. */
  method XorRegisters(state: array<Pair>, q: seq<Pair>)
    requires state.Length == 64 && |q| == 64
    modifies state
    ensures Flatten(state[..]) == BlockXor(Flatten(old(state[..])), Flatten(q))
  {
    hide PairXor;
    ghost var p := state[..];
    for k := 0 to 64
      invariant forall j :: 0 <= j < k ==> state[j] == PairXor(p[j], q[j])
      invariant forall j :: k <= j < 64 ==> state[j] == p[j]
    {
      state[k] := PairXor(state[k], q[k]);
    }
    assert state[..] == PairsXor(p, q);
    FlattenXor(p, q);
  }

  /** fill_block of opt.c: the registers enter holding the previous block and leave holding the new one. */
  method FillBlockOpt(state: array<Pair>, ref: Block, contents: Block, withXor: bool, ssse3: bool) returns (next: Block)
    requires state.Length == 64
    modifies state
    ensures next == Flatten(state[..]) && next == Fill(Flatten(old(state[..])), ref, contents, withXor)
  {
    hide RoundAt, Flatten, BlockXor;
    ghost var prev := Flatten(state[..]);
    FillIs(prev, ref, contents, withXor);
    XorRegisters(state, Registers(ref));
    XorComm(prev, ref);
    ghost var R := BlockXor(ref, prev);
    var blockXY := state[..];
    if withXor {
      blockXY := PairsXor(state[..], Registers(contents));
      FlattenXor(state[..], Registers(contents));
    }
    for i := 0 to 16
      invariant Flatten(state[..]) == Rounds(R, i)
    {
      RoundRegisters(state, i, ssse3);
    }
    XorRegisters(state, blockXY);
    XorComm(Rounds(R, 16), Flatten(blockXY));
    next := Stored(state);
  }

  /** The 16-byte stores into memory. */
  method Stored(state: array<Pair>) returns (b: Block)
    requires state.Length == 64
    ensures b == Flatten(state[..])
  {
    b := Flatten(state[..]);
  }

  /** next_addresses of opt.c */
  method NextAddressesOpt(input: Block, address: Block, ssse3: bool) returns (counted: Block, next: Block)
    ensures counted == Counted(input) && next == Addresses(counted)
  {
    hide Fill, Flatten;
    var zero := new Pair[64](_ => Pair(0, 0));
    var zero2 := new Pair[64](_ => Pair(0, 0));
    FlattenZero(zero[..]);
    FlattenZero(zero2[..]);
    counted := input[6 := input[6] + 1];
    next := FillBlockOpt(zero, counted, address, false, ssse3);
    FillIgnoresContents(ZeroBlock(), counted, address, ZeroBlock());
    ghost var once := next;
    next := FillBlockOpt(zero2, next, next, false, ssse3);
    FillIgnoresContents(ZeroBlock(), once, once, ZeroBlock());
  }

  lemma FlattenZero(p: seq<Pair>)
    requires |p| == 64 && forall k :: 0 <= k < 64 ==> p[k] == Pair(0, 0)
    ensures Flatten(p) == ZeroBlock()
  {
  }
}
