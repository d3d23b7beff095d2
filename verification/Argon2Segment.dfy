/** fill_segment: the specification, the reference form (ref.c) and the form that carries the previous block in
    registers (opt.c). Section 3.4 of RFC 9106. */
module Argon2Segment {
  import opened Words
  import opened Nonlinear
  import opened Blamka
  import opened Argon2Block
  import opened Argon2Index

  type Memory = seq<Block>

  const ADDRESSES_IN_BLOCK: uint32 := 128
  const VERSION_10: uint32 := 0x10

  /** The thread-local blocks of data-independent addressing. */
  datatype Local = Local(input: Block, address: Block)

  /** A segment in progress: the memory and the local blocks. */
  datatype Progress = Progress(mem: Memory, local: Local)

  predicate DataIndependent(inst: Instance, pos: Position)
  {
    inst.kind == Argon2i || (inst.kind == Argon2id && pos.pass == 0 && pos.slice < SYNC_POINTS / 2)
  }

  function Word(x: uint32): bv64 { x as bv64 }

  /** pseudo_rand >> 32 and pseudo_rand & 0xFFFFFFFF */
  function HighHalf(w: bv64): uint32 { ((w >> 32) as bv32) as uint32 }
  function LowHalf(w: bv64): uint32 { ((w & 0xFFFF_FFFF) as bv32) as uint32 }

  /** A 64-bit word is its two halves. */
  lemma HalvesMeaning(w: bv64, high: bv32, low: bv32)
    requires w == ((high as bv64) << 32) | (low as bv64)
    ensures HighHalf(w) == high as uint32 && LowHalf(w) == low as uint32
  {
    HalfBits(w, high, low);
  }

  lemma HalfBits(w: bv64, high: bv32, low: bv32)
    requires w == ((high as bv64) << 32) | (low as bv64)
    ensures (w >> 32) as bv32 == high && (w & 0xFFFF_FFFF) as bv32 == low
  {
  }

  function KindNumber(k: Kind): uint32
  {
    match k
    case Argon2d => 0
    case Argon2i => 1
    case Argon2id => 2
  }

  function InitialInput(inst: Instance, pos: Position): Block
  {
    ZeroBlock()[0 := Word(pos.pass)][1 := Word(pos.lane)][2 := Word(pos.slice)]
               [3 := Word(inst.memoryBlocks)][4 := Word(inst.passes)][5 := Word(KindNumber(inst.kind))]
  }

  function StartIndex(pos: Position): uint32 { if pos.pass == 0 && pos.slice == 0 then 2 else 0 }

  function NextLocal(l: Local): Local
  {
    var counted := Counted(l.input);
    Local(counted, Addresses(counted))
  }

  /** In the very first segment two blocks exist already, so the first addresses are generated beforehand. */
  function InitialLocal(inst: Instance, pos: Position): Local
  {
    if !DataIndependent(inst, pos) then Local(ZeroBlock(), ZeroBlock())
    else
      var l := Local(InitialInput(inst, pos), ZeroBlock());
      if StartIndex(pos) == 2 then NextLocal(l) else l
  }

  function Advance(inst: Instance, pos: Position, l: Local): Local
  {
    if DataIndependent(inst, pos) && pos.index % ADDRESSES_IN_BLOCK == 0 then NextLocal(l) else l
  }

  /** Absolute offset of block o of a lane. */
  function Offset(inst: Instance, lane: uint32, o: int): (k: int)
    requires inst.Valid() && lane < inst.lanes && 0 <= o < inst.laneLength as int
    ensures 0 <= k < inst.memoryBlocks as int && k % inst.laneLength as int == o
  {
    LaneBounds(inst, lane);
    DivUnique(lane as int * inst.laneLength as int + o, inst.laneLength as int, lane as int, o);
    lane as int * inst.laneLength as int + o
  }

  lemma LaneBounds(inst: Instance, lane: uint32)
    requires inst.Valid() && lane < inst.lanes
    ensures 0 <= lane as int * inst.laneLength as int <= inst.memoryBlocks as int - inst.laneLength as int
  {
    var n := inst.laneLength as int;
    MulLe(n, lane as int, inst.lanes as int - 1);
    MulDistr(n, inst.lanes as int, -1);
    MulLe(n, 0, lane as int);
  }

  /** Different lanes do not overlap. */
  lemma OffsetInjective(inst: Instance, l: uint32, o: int, m: uint32, p: int)
    requires inst.Valid() && l < inst.lanes && m < inst.lanes
    requires 0 <= o < inst.laneLength as int && 0 <= p < inst.laneLength as int
    requires Offset(inst, l, o) == Offset(inst, m, p)
    ensures l == m && o == p
  {
    var n := inst.laneLength as int;
    DivUnique(Offset(inst, l, o), n, l as int, o);
    DivUnique(Offset(inst, m, p), n, m as int, p);
  }

  function CurrentOffset(inst: Instance, pos: Position): (k: int)
    requires Fillable(inst, pos)
    ensures 0 <= k < inst.memoryBlocks as int
  {
    SliceBounds(inst, pos);
    Offset(inst, pos.lane, pos.slice as int * inst.segmentLength as int + pos.index as int)
  }

  function PreviousOffset(inst: Instance, pos: Position): (k: int)
    requires Fillable(inst, pos)
    ensures 0 <= k < inst.memoryBlocks as int
  {
    SliceBounds(inst, pos);
    var o := pos.slice as int * inst.segmentLength as int + pos.index as int;
    Offset(inst, pos.lane, if o == 0 then inst.laneLength as int - 1 else o - 1)
  }

  /** The lane a pseudo-random word names; the very first segment stays in its own lane. */
  function ReferenceLane(inst: Instance, pos: Position, w: bv64): (l: uint32)
    requires Fillable(inst, pos)
    ensures l < inst.lanes
    ensures pos.pass == 0 && pos.slice == 0 ==> l == pos.lane
  {
    if pos.pass == 0 && pos.slice == 0 then pos.lane else HighHalf(w) % inst.lanes
  }

  function ReferenceIndex(inst: Instance, pos: Position, w: bv64): (o: uint32)
    requires Fillable(inst, pos)
    ensures o < inst.laneLength
  {
    IndexAlpha(inst, pos, LowHalf(w), ReferenceLane(inst, pos, w) == pos.lane)
  }

  function ReferenceOffset(inst: Instance, pos: Position, w: bv64): (k: int)
    requires Fillable(inst, pos)
    ensures 0 <= k < inst.memoryBlocks as int
  {
    Offset(inst, ReferenceLane(inst, pos, w), ReferenceIndex(inst, pos, w) as int)
  }

  /** The word that selects the reference block: from the address block or from the previous block. */
  function Selector(inst: Instance, pos: Position, mem: Memory, l: Local): bv64
    requires Fillable(inst, pos) && |mem| == inst.memoryBlocks as int
  {
    if DataIndependent(inst, pos) then l.address[pos.index % ADDRESSES_IN_BLOCK] else mem[PreviousOffset(inst, pos)][0]
  }

  predicate WithXor(inst: Instance, pos: Position) { inst.version != VERSION_10 && pos.pass != 0 }

  /** The block constructed at pos from the memory and the advanced local blocks. */
  function NewBlock(inst: Instance, pos: Position, mem: Memory, l: Local): Block
    requires Fillable(inst, pos) && |mem| == inst.memoryBlocks as int
  {
    Fill(mem[PreviousOffset(inst, pos)], mem[ReferenceOffset(inst, pos, Selector(inst, pos, mem, l))],
         mem[CurrentOffset(inst, pos)], WithXor(inst, pos))
  }

  /** One turn of the loop of fill_segment. */
  function Step(inst: Instance, pos: Position, p: Progress): (q: Progress)
    requires Fillable(inst, pos) && |p.mem| == inst.memoryBlocks as int
    ensures |q.mem| == |p.mem|
  {
    var l := Advance(inst, pos, p.local);
    Progress(p.mem[CurrentOffset(inst, pos) := NewBlock(inst, pos, p.mem, l)], l)
  }

  /** A position of a segment, with any index for now. */
  ghost predicate Segment(inst: Instance, pos: Position)
  {
    inst.Valid() && pos.pass < inst.passes && pos.lane < inst.lanes && pos.slice < SYNC_POINTS
  }

  /** The segment just before block i is constructed. */
  ghost function Run(inst: Instance, pos: Position, mem: Memory, i: uint32): (p: Progress)
    requires Segment(inst, pos) && |mem| == inst.memoryBlocks as int && StartIndex(pos) <= i <= inst.segmentLength
    ensures |p.mem| == |mem|
    decreases i as int
  {
    if i == StartIndex(pos) then Progress(mem, InitialLocal(inst, pos))
    else Step(inst, pos.(index := i - 1), Run(inst, pos, mem, i - 1))
  }

  /** The memory after fill_segment. */
  ghost function FillSegment(inst: Instance, pos: Position, mem: Memory): (r: Memory)
    requires Segment(inst, pos) && |mem| == inst.memoryBlocks as int
    ensures |r| == |mem|
  {
    Run(inst, pos, mem, inst.segmentLength).mem
  }

  // ---- what one turn does, spelled out ----

  /** One turn writes the block after prev in its lane, from prev and a reference block chosen by the word w: by the
      upper half the lane, by the lower half the block. From the second pass on the old contents are exclusive-ored
      in, except in version 0x10. */
  lemma TurnMeaning(inst: Instance, pos: Position, p: Progress, cur: int, prev: int, w: bv64, lane: uint32, ref: int)
    requires Fillable(inst, pos) && |p.mem| == inst.memoryBlocks as int
    requires var o, n := pos.slice as int * inst.segmentLength as int + pos.index as int, inst.laneLength as int;
             && cur == pos.lane as int * n + o
             && prev == (if o == 0 then pos.lane as int * n + n - 1 else cur - 1)
    requires 0 <= prev < |p.mem| && 0 <= cur < |p.mem|
    requires w == if inst.kind == Argon2i || (inst.kind == Argon2id && pos.pass == 0 && pos.slice < 2)
                  then Advance(inst, pos, p.local).address[pos.index % 128] else p.mem[prev][0]
    requires lane == if pos.pass == 0 && pos.slice == 0 then pos.lane else HighHalf(w) % inst.lanes
    requires ref == lane as int * inst.laneLength as int + IndexAlpha(inst, pos, LowHalf(w), lane == pos.lane) as int
    requires 0 <= ref < |p.mem|
    ensures Step(inst, pos, p).mem ==
            p.mem[cur := Fill(p.mem[prev], p.mem[ref], p.mem[cur], inst.version != 0x10 && pos.pass > 0)]
  {
    hide Advance, HighHalf, LowHalf, IndexAlpha, Fill;
  }

  /** Addressing does not depend on the password for the type i, and for the type id in the first half of the first
      pass. The words that select the reference blocks then come from address blocks: the number of the address block
      is in word 6 of the input, and the other words say where the segment lies. */
  lemma AddressesMeaning(inst: Instance, pos: Position, mem: Memory)
    requires Fillable(inst, pos) && |mem| == inst.memoryBlocks as int
    requires inst.kind == Argon2i || (inst.kind == Argon2id && pos.pass == 0 && pos.slice < 2)
    ensures var l := Advance(inst, pos, Run(inst, pos, mem, pos.index).local);
            && l.address == Addresses(l.input)
            && l.input[0] == Word(pos.pass) && l.input[1] == Word(pos.lane) && l.input[2] == Word(pos.slice)
            && l.input[3] == Word(inst.memoryBlocks) && l.input[4] == Word(inst.passes)
            && l.input[5] == Word(if inst.kind == Argon2i then 1 else 2)
            && l.input[6] == Count(pos.index as int / 128 + 1)
            && forall k :: 7 <= k < 128 ==> l.input[k] == 0
  {
    hide Addresses, Advance, Run, InitialInput, Word;
    CounterIs(inst, pos, mem, pos.index as int);
    assert pos.(index := pos.index) == pos;
    InputWords(inst, pos);
  }

  /** n as a 64-bit word, counted up from zero. */
  function Count(n: nat): bv64 { if n == 0 then 0 else Count(n - 1) + 1 }

  /** The local blocks at index i, advanced. */
  ghost function Advanced(inst: Instance, pos: Position, mem: Memory, i: nat): Local
    requires Segment(inst, pos) && |mem| == inst.memoryBlocks as int
    requires StartIndex(pos) as int <= i < inst.segmentLength as int
  {
    Advance(inst, pos.(index := i as uint32), Run(inst, pos, mem, i as uint32).local)
  }

  /** The n-th address block and the input that gave it. */
  ghost predicate AddressBlock(l: Local, input: Block, n: nat)
  {
    l.address == Addresses(l.input) && l.input == input[6 := Count(n)]
  }

  lemma {:induction false} CounterIs(inst: Instance, pos: Position, mem: Memory, i: nat)
    requires Segment(inst, pos) && |mem| == inst.memoryBlocks as int && DataIndependent(inst, pos)
    requires StartIndex(pos) as int <= i < inst.segmentLength as int
    ensures AddressBlock(Advanced(inst, pos, mem, i), InitialInput(inst, pos), i / 128 + 1)
  {
    hide Advanced, AddressBlock, Run, NextLocal, InitialInput, DataIndependent, Word;
    if i == StartIndex(pos) as int {
      AdvancedFirst(inst, pos, mem, i);
      FirstBlock(inst, pos);
    } else {
      CounterIs(inst, pos, mem, i - 1);
      AdvancedNext(inst, pos, mem, i);
      NextBlock(InitialInput(inst, pos), (i - 1) / 128 + 1, Advanced(inst, pos, mem, i - 1));
      Hundred(i);
    }
  }

  lemma FirstBlock(inst: Instance, pos: Position)
    ensures AddressBlock(NextLocal(Local(InitialInput(inst, pos), ZeroBlock())), InitialInput(inst, pos), 1)
  {
    hide Addresses, InitialInput, Word;
    CounterFree(inst, pos);
    NextCount(InitialInput(inst, pos), 0, Local(InitialInput(inst, pos), ZeroBlock()));
  }

  lemma NextBlock(input: Block, n: nat, l: Local)
    requires AddressBlock(l, input, n)
    ensures AddressBlock(NextLocal(l), input, n + 1)
  {
    hide Addresses, NextLocal;
    NextCount(input, n, l);
  }

  lemma AdvancedFirst(inst: Instance, pos: Position, mem: Memory, i: nat)
    requires Segment(inst, pos) && |mem| == inst.memoryBlocks as int && DataIndependent(inst, pos)
    requires i == StartIndex(pos) as int < inst.segmentLength as int
    ensures Advanced(inst, pos, mem, i) == NextLocal(Local(InitialInput(inst, pos), ZeroBlock()))
    ensures i / 128 == 0
  {
    hide NextLocal, InitialInput;
  }

  lemma AdvancedNext(inst: Instance, pos: Position, mem: Memory, i: nat)
    requires Segment(inst, pos) && |mem| == inst.memoryBlocks as int && DataIndependent(inst, pos)
    requires StartIndex(pos) as int < i < inst.segmentLength as int
    ensures var l := Advanced(inst, pos, mem, i - 1);
            Advanced(inst, pos, mem, i) == if i % 128 == 0 then NextLocal(l) else l
  {
    hide NextLocal, InitialInput, NewBlock, CurrentOffset, InitialLocal;
    var q := Run(inst, pos, mem, (i - 1) as uint32);
    assert Run(inst, pos, mem, i as uint32) == Step(inst, pos.(index := (i - 1) as uint32), q);
  }

  lemma Hundred(i: nat)
    requires i > 0
    ensures i / 128 == if i % 128 == 0 then (i - 1) / 128 + 1 else (i - 1) / 128
  {
  }

  lemma CounterFree(inst: Instance, pos: Position)
    ensures InitialInput(inst, pos) == InitialInput(inst, pos)[6 := Count(0)]
  {
    hide Word, InitialInput;
    InputWords(inst, pos);
  }

  lemma NextCount(input: Block, n: nat, l: Local)
    requires l.input == input[6 := Count(n)]
    ensures var m := NextLocal(l);
            m.input == input[6 := Count(n + 1)] && m.address == Addresses(m.input)
  {
    hide Addresses;
    assert l.input[6] == Count(n);
  }

  lemma InputWords(inst: Instance, pos: Position)
    ensures var v := InitialInput(inst, pos);
            && v[0] == Word(pos.pass) && v[1] == Word(pos.lane) && v[2] == Word(pos.slice)
            && v[3] == Word(inst.memoryBlocks) && v[4] == Word(inst.passes)
            && v[5] == Word(if inst.kind == Argon2d then 0 else if inst.kind == Argon2i then 1 else 2)
            && forall k :: 6 <= k < 128 ==> v[k] == 0
  {
    hide Word;
  }

  /** The segment is built block by block: t gives the memory and the local blocks before each index. */
  lemma {:induction false} SegmentMeaning(inst: Instance, pos: Position, mem: Memory, t: int -> Progress, i: int)
    requires Segment(inst, pos) && |mem| == inst.memoryBlocks as int
    requires (if pos.pass == 0 && pos.slice == 0 then 2 else 0) <= i <= inst.segmentLength as int
    requires t(if pos.pass == 0 && pos.slice == 0 then 2 else 0) == Progress(mem, InitialLocal(inst, pos))
    requires forall j :: |t(j).mem| == |mem|
    requires forall j :: (if pos.pass == 0 && pos.slice == 0 then 2 else 0) <= j < inst.segmentLength as int ==>
               t(j + 1) == Step(inst, pos.(index := j as uint32), t(j))
    ensures t(i) == Run(inst, pos, mem, i as uint32)
    ensures i == inst.segmentLength as int ==> FillSegment(inst, pos, mem) == t(i).mem
  {
    hide Step, InitialLocal;
    if i != StartIndex(pos) as int {
      SegmentMeaning(inst, pos, mem, t, i - 1);
      assert t(i - 1 + 1) == Step(inst, pos.(index := (i - 1) as uint32), t(i - 1));
    }
  }

  // ---- the loops ----

  lemma StartBounds(inst: Instance, pos: Position)
    requires Segment(inst, pos) && pos.index == StartIndex(pos)
    ensures 0 <= pos.slice as int * inst.segmentLength as int <= 3 * inst.segmentLength as int
    ensures pos.slice as int * inst.segmentLength as int + pos.index as int < inst.laneLength as int
  {
    var s := pos.slice as int;
    assert s == 0 || s == 1 || s == 2 || s == 3;
  }

  /** curr_offset and prev_offset before the loop. */
  method Offsets(inst: Instance, pos: Position) returns (curr: uint32, prev: uint32)
    requires Segment(inst, pos) && pos.index == StartIndex(pos)
    ensures prev < inst.memoryBlocks
    ensures pos.index < inst.segmentLength ==>
              curr as int == CurrentOffset(inst, pos) && prev as int == PreviousOffset(inst, pos)
  {
    StartBounds(inst, pos);
    LaneBounds(inst, pos.lane);
    ghost var o := pos.slice as int * inst.segmentLength as int + pos.index as int;
    ghost var k := Offset(inst, pos.lane, o);
    curr := pos.lane * inst.laneLength + pos.slice * inst.segmentLength + pos.index;
    if curr % inst.laneLength == 0 {
      prev := curr + inst.laneLength - 1;
    } else {
      prev := curr - 1;
    }
  }

  /** The state of prev_offset at the top of the loop: right, or about to be corrected. */
  ghost predicate Tracked(inst: Instance, pos: Position, curr: uint32, prev: uint32)
    requires Fillable(inst, pos)
  {
    && curr as int == CurrentOffset(inst, pos)
    && (curr % inst.laneLength == 1 || prev as int == PreviousOffset(inst, pos))
  }

  /** Step 1.1: rotating prev_offset. */
  method Rotate(inst: Instance, pos: Position, curr: uint32, prev: uint32) returns (p: uint32)
    requires Fillable(inst, pos) && Tracked(inst, pos, curr, prev)
    ensures p as int == PreviousOffset(inst, pos)
  {
    p := prev;
    if curr % inst.laneLength == 1 {
      PreviousBefore(inst, pos);
      p := curr - 1;
    }
  }

  /** Away from the start of the lane the previous block is the one before. */
  lemma PreviousBefore(inst: Instance, pos: Position)
    requires Fillable(inst, pos) && CurrentOffset(inst, pos) % inst.laneLength as int != 0
    ensures PreviousOffset(inst, pos) == CurrentOffset(inst, pos) - 1
  {
    SliceBounds(inst, pos);
  }

  /** ++curr_offset, ++prev_offset: neither wraps, and the next turn is tracked again. */
  lemma Incremented(inst: Instance, pos: Position, curr: uint32, prev: uint32)
    requires Fillable(inst, pos) && curr as int == CurrentOffset(inst, pos) && prev as int == PreviousOffset(inst, pos)
    ensures curr < 0xFFFF_FFFF && prev < 0xFFFF_FFFF
    ensures pos.index + 1 < inst.segmentLength ==> Tracked(inst, pos.(index := pos.index + 1), curr + 1, prev + 1)
  {
    SliceBounds(inst, pos);
    LaneBounds(inst, pos.lane);
  }

  /** Steps 1.2 and 2: the block for one position, without storing it. */
  method Reference(inst: Instance, pos: Position, w: bv64) returns (k: uint32)
    requires Fillable(inst, pos)
    ensures k as int == ReferenceOffset(inst, pos, w)
  {
    hide HighHalf, LowHalf, IndexAlpha;
    var lane := HighHalf(w) % inst.lanes;
    if pos.pass == 0 && pos.slice == 0 {
      lane := pos.lane;
    }
    var index := IndexAlpha(inst, pos, LowHalf(w), lane == pos.lane);
    LaneBounds(inst, lane);
    k := inst.laneLength * lane + index;
  }

  /** The local blocks before the loop. */
  method Setup(inst: Instance, pos: Position) returns (input: Block, address: Block)
    ensures Local(input, address) == InitialLocal(inst, pos)
  {
    hide InitialInput, Addresses, Counted;
    input, address := ZeroBlock(), ZeroBlock();
    if DataIndependent(inst, pos) {
      input := InitialInput(inst, pos);
      if pos.pass == 0 && pos.slice == 0 {
        input, address := NextAddresses(input, address);
      }
    }
  }

  /** One turn of the loop of ref.c at the block pos. */
  method Turn(inst: Instance, pos: Position, memory: array<Block>, curr: uint32, prev: uint32, input0: Block,
              address0: Block)
    returns (input: Block, address: Block)
    requires Fillable(inst, pos) && memory.Length == inst.memoryBlocks as int
    requires curr as int == CurrentOffset(inst, pos) && prev as int == PreviousOffset(inst, pos)
    modifies memory
    ensures Progress(memory[..], Local(input, address))
            == Step(inst, pos, Progress(old(memory[..]), Local(input0, address0)))
  {
    hide Addresses, Counted, Fill, CurrentOffset, PreviousOffset, ReferenceOffset;
    input, address := input0, address0;
    if DataIndependent(inst, pos) && pos.index % ADDRESSES_IN_BLOCK == 0 {
      input, address := NextAddresses(input, address);
    }
    var w := if DataIndependent(inst, pos) then address[pos.index % ADDRESSES_IN_BLOCK] else memory[prev][0];
    var ref := Reference(inst, pos, w);
    var next;
    if inst.version == VERSION_10 {
      next := FillBlock(memory[prev], memory[ref], memory[curr], false);
    } else {
      if pos.pass == 0 {
        next := FillBlock(memory[prev], memory[ref], memory[curr], false);
      } else {
        next := FillBlock(memory[prev], memory[ref], memory[curr], true);
      }
    }
    memory[curr] := next;
  }

  /** fill_segment of ref.c */
  method FillSegmentRef(inst: Instance, pos: Position, memory: array<Block>)
    requires Segment(inst, pos) && memory.Length == inst.memoryBlocks as int
    modifies memory
    ensures memory[..] == FillSegment(inst, pos, old(memory[..]))
  {
    hide InitialLocal, Step, CurrentOffset, PreviousOffset, Tracked;
    ghost var before := memory[..];
    var input, address := Setup(inst, pos);
    var i := StartIndex(pos);
    var curr, prev := Offsets(inst, pos.(index := i));
    StartTracked(inst, pos.(index := i), curr, prev);
    while i < inst.segmentLength
      invariant StartIndex(pos) <= i <= inst.segmentLength
      invariant Progress(memory[..], Local(input, address)) == Run(inst, pos, before, i)
      invariant i < inst.segmentLength ==> Tracked(inst, pos.(index := i), curr, prev)
    {
      prev := Rotate(inst, pos.(index := i), curr, prev);
      TrackedCurrent(inst, pos.(index := i), curr);
      input, address := Turn(inst, pos.(index := i), memory, curr, prev, input, address);
      Incremented(inst, pos.(index := i), curr, prev);
      i, curr, prev := i + 1, curr + 1, prev + 1;
    }
  }

  lemma StartTracked(inst: Instance, pos: Position, curr: uint32, prev: uint32)
    requires Segment(inst, pos) && pos.index == StartIndex(pos)
    requires pos.index < inst.segmentLength
             ==> curr as int == CurrentOffset(inst, pos) && prev as int == PreviousOffset(inst, pos)
    ensures pos.index < inst.segmentLength ==> Tracked(inst, pos, curr, prev)
  {
  }

  lemma TrackedCurrent(inst: Instance, pos: Position, curr: uint32)
    requires Fillable(inst, pos) && exists prev :: Tracked(inst, pos, curr, prev)
    ensures curr as int == CurrentOffset(inst, pos)
  {
  }

  /** One turn of the loop of opt.c. The registers enter holding the previous block and leave holding the new one. */
  method TurnOpt(inst: Instance, pos: Position, memory: array<Block>, state: array<Pair>, curr: uint32, prev: uint32,
                 input0: Block, address0: Block, ssse3: bool)
    returns (input: Block, address: Block)
    requires Fillable(inst, pos) && memory.Length == inst.memoryBlocks as int && state.Length == 64
    requires curr as int == CurrentOffset(inst, pos) && prev as int == PreviousOffset(inst, pos)
    requires Flatten(state[..]) == memory[prev]
    modifies memory, state
    ensures Progress(memory[..], Local(input, address))
            == Step(inst, pos, Progress(old(memory[..]), Local(input0, address0)))
    ensures Flatten(state[..]) == memory[curr]
  {
    hide Addresses, Counted, Fill, CurrentOffset, PreviousOffset, ReferenceOffset, Flatten;
    input, address := input0, address0;
    if DataIndependent(inst, pos) && pos.index % ADDRESSES_IN_BLOCK == 0 {
      input, address := NextAddressesOpt(input, address, ssse3);
    }
    var w := if DataIndependent(inst, pos) then address[pos.index % ADDRESSES_IN_BLOCK] else memory[prev][0];
    var ref := Reference(inst, pos, w);
    var next;
    if inst.version == VERSION_10 {
      next := FillBlockOpt(state, memory[ref], memory[curr], false, ssse3);
    } else {
      if pos.pass == 0 {
        next := FillBlockOpt(state, memory[ref], memory[curr], false, ssse3);
      } else {
        next := FillBlockOpt(state, memory[ref], memory[curr], true, ssse3);
      }
    }
    memory[curr] := next;
  }

  /** The local blocks before the loop of opt.c. */
  method SetupOpt(inst: Instance, pos: Position, ssse3: bool) returns (input: Block, address: Block)
    ensures Local(input, address) == InitialLocal(inst, pos)
  {
    hide InitialInput, Addresses, Counted;
    input, address := ZeroBlock(), ZeroBlock();
    if DataIndependent(inst, pos) {
      input := InitialInput(inst, pos);
      if pos.pass == 0 && pos.slice == 0 {
        input, address := NextAddressesOpt(input, address, ssse3);
      }
    }
  }

  /** What the next turn reads as its previous block is the block just written. */
  lemma PreviousIsCurrent(inst: Instance, pos: Position)
    requires Fillable(inst, pos) && pos.index + 1 < inst.segmentLength
    ensures PreviousOffset(inst, pos.(index := pos.index + 1)) == CurrentOffset(inst, pos)
  {
    SliceBounds(inst, pos);
  }

  /** fill_segment of opt.c leaves the same memory as fill_segment of ref.c. */
  method FillSegmentOpt(inst: Instance, pos: Position, memory: array<Block>, ssse3: bool)
    requires Segment(inst, pos) && memory.Length == inst.memoryBlocks as int
    modifies memory
    ensures memory[..] == FillSegment(inst, pos, old(memory[..]))
  {
    hide InitialLocal, Step, CurrentOffset, PreviousOffset, Tracked, Flatten;
    ghost var before := memory[..];
    var input, address := SetupOpt(inst, pos, ssse3);
    var i := StartIndex(pos);
    var curr, prev := Offsets(inst, pos.(index := i));
    StartTracked(inst, pos.(index := i), curr, prev);
    var state := Loaded(memory[prev]);
    while i < inst.segmentLength
      invariant StartIndex(pos) <= i <= inst.segmentLength
      invariant Progress(memory[..], Local(input, address)) == Run(inst, pos, before, i)
      invariant i < inst.segmentLength ==>
                  Tracked(inst, pos.(index := i), curr, prev)
                  && Flatten(state[..]) == memory[PreviousOffset(inst, pos.(index := i))]
    {
      prev := Rotate(inst, pos.(index := i), curr, prev);
      TrackedCurrent(inst, pos.(index := i), curr);
      input, address := TurnOpt(inst, pos.(index := i), memory, state, curr, prev, input, address, ssse3);
      Incremented(inst, pos.(index := i), curr, prev);
      if i + 1 < inst.segmentLength {
        PreviousIsCurrent(inst, pos.(index := i));
      }
      i, curr, prev := i + 1, curr + 1, prev + 1;
    }
  }

  /** memcpy of a block into the registers. */
  method Loaded(b: Block) returns (state: array<Pair>)
    ensures fresh(state) && state.Length == 64 && Flatten(state[..]) == b
  {
    hide Flatten;
    state := new Pair[64](_ => Pair(0, 0));
    forall k | 0 <= k < 64 {
      state[k] := Registers(b)[k];
    }
    assert state[..] == Registers(b);
  }
}
