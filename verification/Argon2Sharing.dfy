/** Why the lane threads of one slice do not disturb each other: what fill_segment reads and writes. */
module Argon2Sharing {
  import opened Words
  import opened Nonlinear
  import opened Argon2Block
  import opened Argon2Index
  import opened Argon2Segment

  ghost predicate InMemory(inst: Instance, k: int) { 0 <= k < inst.memoryBlocks as int }

  function LaneOf(inst: Instance, k: int): (l: uint32)
    requires inst.Valid() && InMemory(inst, k)
    ensures l < inst.lanes
  {
    LaneRange(k, inst.laneLength as int, inst.lanes as int);
    (k / inst.laneLength as int) as uint32
  }

  lemma LaneRange(k: int, n: int, lanes: int)
    requires n > 0 && 0 <= k < lanes * n
    ensures 0 <= k / n < lanes
  {
    var q := k / n;
    if q >= lanes {
      MulLe(n, lanes, q);
    }
  }

  /** Block k belongs to the slice, in whatever lane. */
  ghost predicate InSlice(inst: Instance, slice: uint32, k: int)
    requires inst.Valid()
  {
    var first := slice as int * inst.segmentLength as int;
    first <= k % inst.laneLength as int < first + inst.segmentLength as int
  }

  /** Block k is in the segment that pos fills. */
  ghost predicate Owned(inst: Instance, pos: Position, k: int)
    requires inst.Valid() && InMemory(inst, k)
  {
    InSlice(inst, pos.slice, k) && LaneOf(inst, k) == pos.lane
  }

  /** Everything except the same slice of the other lanes. */
  ghost predicate Visible(inst: Instance, pos: Position, k: int)
    requires inst.Valid() && InMemory(inst, k)
  {
    InSlice(inst, pos.slice, k) ==> LaneOf(inst, k) == pos.lane
  }

  lemma OffsetLane(inst: Instance, lane: uint32, o: int)
    requires inst.Valid() && lane < inst.lanes && 0 <= o < inst.laneLength as int
    ensures LaneOf(inst, Offset(inst, lane, o)) == lane && Offset(inst, lane, o) % inst.laneLength as int == o
  {
    DivUnique(Offset(inst, lane, o), inst.laneLength as int, lane as int, o);
  }

  /** The block written is owned; the previous block and the reference block are visible. */
  lemma Footprint(inst: Instance, pos: Position, w: bv64)
    requires Fillable(inst, pos)
    ensures Owned(inst, pos, CurrentOffset(inst, pos))
    ensures Visible(inst, pos, PreviousOffset(inst, pos)) && Visible(inst, pos, ReferenceOffset(inst, pos, w))
    ensures ReferenceOffset(inst, pos, w) != CurrentOffset(inst, pos)
  {
    hide HighHalf, LowHalf, IndexAlpha, Offset;
    SliceBounds(inst, pos);
    var o := pos.slice as int * inst.segmentLength as int + pos.index as int;
    OffsetLane(inst, pos.lane, o);
    OffsetLane(inst, pos.lane, if o == 0 then inst.laneLength as int - 1 else o - 1);
    var lane, r := ReferenceLane(inst, pos, w), ReferenceIndex(inst, pos, w) as int;
    OffsetLane(inst, lane, r);
    ReferenceIsSafe(inst, pos, LowHalf(w), lane == pos.lane);
  }

  ghost predicate Agree(inst: Instance, pos: Position, m: Memory, n: Memory)
    requires inst.Valid() && |m| == |n| == inst.memoryBlocks as int
  {
    forall k :: 0 <= k < |m| && Visible(inst, pos, k) ==> m[k] == n[k]
  }

  /** A turn depends on visible blocks only. */
  lemma StepAgrees(inst: Instance, pos: Position, p: Progress, q: Progress)
    requires Fillable(inst, pos) && |p.mem| == |q.mem| == inst.memoryBlocks as int
    requires Agree(inst, pos, p.mem, q.mem) && p.local == q.local
    ensures Agree(inst, pos, Step(inst, pos, p).mem, Step(inst, pos, q).mem)
    ensures Step(inst, pos, p).local == Step(inst, pos, q).local
    ensures NewBlock(inst, pos, p.mem, Advance(inst, pos, p.local))
            == NewBlock(inst, pos, q.mem, Advance(inst, pos, q.local))
  {
    hide CurrentOffset, PreviousOffset, ReferenceOffset, Fill, NextLocal, Visible, Owned;
    var l := Advance(inst, pos, p.local);
    Footprint(inst, pos, Selector(inst, pos, p.mem, l));
    OwnedVisible(inst, pos, CurrentOffset(inst, pos));
    assert Selector(inst, pos, p.mem, l) == Selector(inst, pos, q.mem, l);
  }

  lemma OwnedVisible(inst: Instance, pos: Position, k: int)
    requires inst.Valid() && InMemory(inst, k) && Owned(inst, pos, k)
    ensures Visible(inst, pos, k)
  {
  }

  /** A turn writes one owned block. */
  lemma StepWrites(inst: Instance, pos: Position, p: Progress)
    requires Fillable(inst, pos) && |p.mem| == inst.memoryBlocks as int
    ensures forall k :: 0 <= k < |p.mem| && !Owned(inst, pos, k) ==> Step(inst, pos, p).mem[k] == p.mem[k]
  {
    hide CurrentOffset, NewBlock, Advance;
    Footprint(inst, pos, 0);
  }

  /** Changing the index changes neither ownership nor visibility. */
  lemma SameSegment(inst: Instance, pos: Position, i: uint32, m: Memory, n: Memory)
    requires inst.Valid() && |m| == |n| == inst.memoryBlocks as int
    ensures forall k | InMemory(inst, k) :: Owned(inst, pos.(index := i), k) <==> Owned(inst, pos, k)
    ensures Agree(inst, pos.(index := i), m, n) <==> Agree(inst, pos, m, n)
  {
    assert forall k | InMemory(inst, k) :: Visible(inst, pos.(index := i), k) <==> Visible(inst, pos, k);
  }

  /** A segment changes owned blocks only. */
  lemma {:induction false} RunWrites(inst: Instance, pos: Position, mem: Memory, i: uint32)
    requires Segment(inst, pos) && |mem| == inst.memoryBlocks as int && StartIndex(pos) <= i <= inst.segmentLength
    ensures forall k :: 0 <= k < |mem| && !Owned(inst, pos, k) ==> Run(inst, pos, mem, i).mem[k] == mem[k]
    decreases i as int
  {
    hide Step, Owned, InitialLocal;
    if i > StartIndex(pos) {
      RunWrites(inst, pos, mem, i - 1);
      StepWrites(inst, pos.(index := i - 1), Run(inst, pos, mem, i - 1));
      SameSegment(inst, pos, i - 1, mem, mem);
    }
  }

  /** A segment depends on visible blocks only. */
  lemma {:induction false} RunAgrees(inst: Instance, pos: Position, m: Memory, n: Memory, i: uint32)
    requires Segment(inst, pos) && |m| == |n| == inst.memoryBlocks as int && StartIndex(pos) <= i <= inst.segmentLength
    requires Agree(inst, pos, m, n)
    ensures Agree(inst, pos, Run(inst, pos, m, i).mem, Run(inst, pos, n, i).mem)
    ensures Run(inst, pos, m, i).local == Run(inst, pos, n, i).local
    decreases i as int
  {
    hide Step, Agree, InitialLocal;
    if i > StartIndex(pos) {
      RunAgrees(inst, pos, m, n, i - 1);
      var p, q := Run(inst, pos, m, i - 1), Run(inst, pos, n, i - 1);
      SameSegment(inst, pos, i - 1, p.mem, q.mem);
      StepAgrees(inst, pos.(index := i - 1), p, q);
      SameSegment(inst, pos, i - 1, Run(inst, pos, m, i).mem, Run(inst, pos, n, i).mem);
    }
  }

  /** Position of the segment of a lane in a slice. */
  function SegmentOf(pass: uint32, slice: uint32, lane: uint32): Position { Position(pass, lane, slice, 0) }

  // ---- the single-threaded schedule ----

  /** The first `lane` segments of a slice filled one after the other. */
  ghost function FillLanes(inst: Instance, pass: uint32, slice: uint32, mem: Memory, lane: uint32): (r: Memory)
    requires inst.Valid() && pass < inst.passes && slice < SYNC_POINTS
    requires lane <= inst.lanes && |mem| == inst.memoryBlocks as int
    ensures |r| == |mem|
    decreases lane as int
  {
    if lane == 0 then mem
    else FillSegment(inst, SegmentOf(pass, slice, lane - 1), FillLanes(inst, pass, slice, mem, lane - 1))
  }

  /** Block k after its own lane's segment has been filled from mem. */
  ghost function FilledBlock(inst: Instance, pass: uint32, slice: uint32, mem: Memory, k: int): Block
    requires inst.Valid() && pass < inst.passes && slice < SYNC_POINTS
    requires |mem| == inst.memoryBlocks as int && InMemory(inst, k)
  {
    FillSegment(inst, SegmentOf(pass, slice, LaneOf(inst, k)), mem)[k]
  }

  /** Filling the lanes in turn gives each lane the segment it would get from the memory at the start of the
      slice. */
  lemma {:induction false} LanesIndependent(inst: Instance, pass: uint32, slice: uint32, mem: Memory, lane: uint32,
                                            k: int)
    requires inst.Valid() && pass < inst.passes && slice < SYNC_POINTS
    requires lane <= inst.lanes && |mem| == inst.memoryBlocks as int
    requires InMemory(inst, k)
    ensures FillLanes(inst, pass, slice, mem, lane)[k] ==
            if InSlice(inst, slice, k) && LaneOf(inst, k) < lane
            then FilledBlock(inst, pass, slice, mem, k) else mem[k]
    decreases lane as int
  {
    hide FillSegment;
    if lane > 0 {
      var m := FillLanes(inst, pass, slice, mem, lane - 1);
      var pos := SegmentOf(pass, slice, lane - 1);
      LanesIndependent(inst, pass, slice, mem, lane - 1, k);
      SegmentWrites(inst, pos, m);
      forall j | 0 <= j < |mem| && Visible(inst, pos, j) ensures m[j] == mem[j] {
        LanesIndependent(inst, pass, slice, mem, lane - 1, j);
      }
      SegmentAgrees(inst, pos, m, mem);
    }
  }

  lemma SegmentWrites(inst: Instance, pos: Position, mem: Memory)
    requires Segment(inst, pos) && |mem| == inst.memoryBlocks as int
    ensures forall k :: 0 <= k < |mem| && !Owned(inst, pos, k) ==> FillSegment(inst, pos, mem)[k] == mem[k]
  {
    RunWrites(inst, pos, mem, inst.segmentLength);
  }

  lemma SegmentAgrees(inst: Instance, pos: Position, m: Memory, n: Memory)
    requires Segment(inst, pos) && |m| == |n| == inst.memoryBlocks as int && Agree(inst, pos, m, n)
    ensures forall k ::
              0 <= k < |m| && Owned(inst, pos, k) ==> FillSegment(inst, pos, m)[k] == FillSegment(inst, pos, n)[k]
  {
    RunAgrees(inst, pos, m, n, inst.segmentLength);
  }
}
