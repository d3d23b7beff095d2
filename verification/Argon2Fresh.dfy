/** The filled memory does not depend on what the memory held before, except for the two blocks that open each lane:
    the first pass reads only blocks already written. */
module Argon2Fresh {
  import opened Words
  import opened Argon2Block
  import opened Argon2Index
  import opened Argon2Segment
  import opened Argon2Sharing
  import opened Argon2Threads

  /** In the first pass block k has been written before the block at pos: an opening block, a block of an earlier slice,
      or an earlier block of the same segment. */
  ghost predicate Settled(inst: Instance, pos: Position, k: int)
    requires inst.Valid() && InMemory(inst, k)
  {
    var o := k % inst.laneLength as int;
    o < 2 || o < pos.slice as int * inst.segmentLength as int
    || (LaneOf(inst, k) == pos.lane && o < Current(inst, pos))
  }

  ghost predicate SettledAgree(inst: Instance, pos: Position, m: Memory, n: Memory)
    requires inst.Valid() && |m| == |n| == inst.memoryBlocks as int
  {
    forall k :: 0 <= k < |m| && Settled(inst, pos, k) ==> m[k] == n[k]
  }

  /** The previous block and the reference block are settled, and writing the block settles just it. */
  lemma ReadsSettled(inst: Instance, pos: Position, w: bv64)
    requires Fillable(inst, pos) && pos.pass == 0
    ensures Settled(inst, pos, PreviousOffset(inst, pos)) && Settled(inst, pos, ReferenceOffset(inst, pos, w))
  {
    hide HighHalf, LowHalf, IndexAlpha, Offset;
    SliceBounds(inst, pos);
    var o := Current(inst, pos);
    OffsetLane(inst, pos.lane, o - 1);
    var lane, r := ReferenceLane(inst, pos, w), ReferenceIndex(inst, pos, w) as int;
    OffsetLane(inst, lane, r);
    ReferenceIsSafe(inst, pos, LowHalf(w), lane == pos.lane);
  }

  lemma NewlySettled(inst: Instance, pos: Position, k: int)
    requires Fillable(inst, pos) && pos.pass == 0 && InMemory(inst, k)
    requires Settled(inst, pos.(index := pos.index + 1), k)
    ensures Settled(inst, pos, k) || k == CurrentOffset(inst, pos)
  {
    SliceBounds(inst, pos);
    var o := Current(inst, pos);
    hide Offset;
    SameOffset(inst, k, pos.lane, o);
  }

  /** The lane and the offset in it determine the block. */
  lemma SameOffset(inst: Instance, k: int, lane: uint32, o: int)
    requires inst.Valid() && InMemory(inst, k) && lane < inst.lanes && 0 <= o < inst.laneLength as int
    ensures LaneOf(inst, k) == lane && k % inst.laneLength as int == o ==> k == Offset(inst, lane, o)
  {
  }

  lemma StepSettled(inst: Instance, pos: Position, p: Progress, q: Progress)
    requires Fillable(inst, pos) && pos.pass == 0 && |p.mem| == |q.mem| == inst.memoryBlocks as int
    requires SettledAgree(inst, pos, p.mem, q.mem) && p.local == q.local
    ensures SettledAgree(inst, pos.(index := pos.index + 1), Step(inst, pos, p).mem, Step(inst, pos, q).mem)
    ensures Step(inst, pos, p).local == Step(inst, pos, q).local
  {
    hide CurrentOffset, PreviousOffset, ReferenceOffset, Fill, NextLocal, Settled;
    var l := Advance(inst, pos, p.local);
    ReadsSettled(inst, pos, Selector(inst, pos, p.mem, l));
    assert Selector(inst, pos, p.mem, l) == Selector(inst, pos, q.mem, l);
    var k := CurrentOffset(inst, pos);
    FillIgnoresContents(p.mem[PreviousOffset(inst, pos)],
                        p.mem[ReferenceOffset(inst, pos, Selector(inst, pos, p.mem, l))], p.mem[k], q.mem[k]);
    forall j | 0 <= j < |p.mem| && Settled(inst, pos.(index := pos.index + 1), j)
      ensures Step(inst, pos, p).mem[j] == Step(inst, pos, q).mem[j]
    {
      NewlySettled(inst, pos, j);
    }
  }

  lemma {:induction false} RunSettled(inst: Instance, pos: Position, m: Memory, n: Memory, i: uint32)
    requires Segment(inst, pos) && pos.pass == 0 && |m| == |n| == inst.memoryBlocks as int
    requires StartIndex(pos) <= i <= inst.segmentLength
    requires SettledAgree(inst, pos.(index := StartIndex(pos)), m, n)
    ensures SettledAgree(inst, pos.(index := i), Run(inst, pos, m, i).mem, Run(inst, pos, n, i).mem)
    ensures Run(inst, pos, m, i).local == Run(inst, pos, n, i).local
    decreases i as int
  {
    hide Step, SettledAgree, InitialLocal;
    if i > StartIndex(pos) {
      RunSettled(inst, pos, m, n, i - 1);
      StepSettled(inst, pos.(index := i - 1), Run(inst, pos, m, i - 1), Run(inst, pos, n, i - 1));
    }
  }

  /** In the first pass, with the segments of the first `lane` lanes of the slice filled. */
  ghost predicate LanesSettled(inst: Instance, slice: uint32, lane: uint32, k: int)
    requires inst.Valid() && InMemory(inst, k)
  {
    var o, first := k % inst.laneLength as int, slice as int * inst.segmentLength as int;
    o < 2 || o < first || (LaneOf(inst, k) < lane && o < first + inst.segmentLength as int)
  }

  ghost predicate LanesAgree(inst: Instance, slice: uint32, lane: uint32, m: Memory, n: Memory)
    requires inst.Valid() && |m| == |n| == inst.memoryBlocks as int
  {
    forall k :: 0 <= k < |m| && LanesSettled(inst, slice, lane, k) ==> m[k] == n[k]
  }

  lemma SegmentSettled(inst: Instance, slice: uint32, lane: uint32, m: Memory, n: Memory)
    requires inst.Valid() && slice < SYNC_POINTS && lane < inst.lanes && |m| == |n| == inst.memoryBlocks as int
    requires LanesAgree(inst, slice, lane, m, n)
    ensures LanesAgree(inst, slice, lane + 1, FillSegment(inst, SegmentOf(0, slice, lane), m),
                       FillSegment(inst, SegmentOf(0, slice, lane), n))
  {
    var pos := SegmentOf(0, slice, lane);
    var last := inst.segmentLength;
    BeforeSegment(inst, slice, lane);
    assert SettledAgree(inst, pos.(index := StartIndex(pos)), m, n);
    RunSettled(inst, pos, m, n, last);
    SegmentWrites(inst, pos, m);
    SegmentWrites(inst, pos, n);
    var u, v := FillSegment(inst, pos, m), FillSegment(inst, pos, n);
    hide Run, Settled, LanesSettled, Owned;
    forall k | 0 <= k < |m| && LanesSettled(inst, slice, lane + 1, k)
      ensures u[k] == v[k]
    {
      AfterSegment(inst, slice, lane, k);
    }
  }

  /** What the first turn of a segment needs is settled. */
  lemma BeforeSegment(inst: Instance, slice: uint32, lane: uint32)
    requires inst.Valid() && slice < SYNC_POINTS && lane < inst.lanes
    ensures var pos := SegmentOf(0, slice, lane);
            forall k | InMemory(inst, k) && Settled(inst, pos.(index := StartIndex(pos)), k) ::
              LanesSettled(inst, slice, lane, k)
  {
  }

  /** A block settled by the segment was settled before and not written by it, or is settled at its end. */
  lemma AfterSegment(inst: Instance, slice: uint32, lane: uint32, k: int)
    requires inst.Valid() && slice < SYNC_POINTS && lane < inst.lanes && InMemory(inst, k)
    requires LanesSettled(inst, slice, lane + 1, k)
    ensures var pos := SegmentOf(0, slice, lane);
            Settled(inst, pos.(index := inst.segmentLength), k)
            || (LanesSettled(inst, slice, lane, k) && !Owned(inst, pos, k))
  {
  }

  lemma {:induction false} LanesFresh(inst: Instance, slice: uint32, m: Memory, n: Memory, lane: uint32)
    requires inst.Valid() && slice < SYNC_POINTS && lane <= inst.lanes && |m| == |n| == inst.memoryBlocks as int
    requires LanesAgree(inst, slice, 0, m, n)
    ensures LanesAgree(inst, slice, lane, FillLanes(inst, 0, slice, m, lane), FillLanes(inst, 0, slice, n, lane))
    decreases lane as int
  {
    hide FillSegment, LanesAgree;
    if lane > 0 {
      LanesFresh(inst, slice, m, n, lane - 1);
      SegmentSettled(inst, slice, lane - 1, FillLanes(inst, 0, slice, m, lane - 1),
                     FillLanes(inst, 0, slice, n, lane - 1));
    }
  }

  /** The blocks that open the lanes. */
  ghost predicate SameOpening(inst: Instance, m: Memory, n: Memory)
    requires inst.Valid() && |m| == |n| == inst.memoryBlocks as int
  {
    forall k :: 0 <= k < |m| && k % inst.laneLength as int < 2 ==> m[k] == n[k]
  }

  lemma NextSlice(inst: Instance, slice: uint32, m: Memory, n: Memory)
    requires inst.Valid() && slice < SYNC_POINTS && |m| == |n| == inst.memoryBlocks as int
    requires LanesAgree(inst, slice, inst.lanes, m, n)
    ensures slice + 1 < SYNC_POINTS ==> LanesAgree(inst, slice + 1, 0, m, n)
    ensures slice + 1 == SYNC_POINTS ==> m == n
  {
    forall k | 0 <= k < |m| && k % inst.laneLength as int < (slice as int + 1) * inst.segmentLength as int
      ensures LanesSettled(inst, slice, inst.lanes, k)
    {
    }
    if slice + 1 == SYNC_POINTS {
      forall k | 0 <= k < |m|
        ensures m[k] == n[k]
      {
        assert LanesSettled(inst, slice, inst.lanes, k);
      }
    }
  }

  lemma {:induction false} SlicesFresh(inst: Instance, m: Memory, n: Memory, slice: uint32)
    requires inst.Valid() && slice < SYNC_POINTS && |m| == |n| == inst.memoryBlocks as int && SameOpening(inst, m, n)
    ensures LanesAgree(inst, slice, 0, SliceStart(inst, m, 0, slice), SliceStart(inst, n, 0, slice))
    decreases slice as int
  {
    hide FillLanes;
    if slice > 0 {
      hide LanesAgree;
      SlicesFresh(inst, m, n, slice - 1);
      LanesFresh(inst, slice - 1, SliceStart(inst, m, 0, slice - 1), SliceStart(inst, n, 0, slice - 1), inst.lanes);
      NextSlice(inst, slice - 1, SliceStart(inst, m, 0, slice), SliceStart(inst, n, 0, slice));
    }
  }

  /** From the end of the first pass on, the memory depends only on the blocks that open the lanes. */
  lemma {:induction false} MemoryFresh(inst: Instance, m: Memory, n: Memory, pass: uint32, slice: uint32)
    requires inst.Valid() && |m| == |n| == inst.memoryBlocks as int && SameOpening(inst, m, n)
    requires 1 <= pass <= inst.passes && slice < SYNC_POINTS && (pass == inst.passes ==> slice == 0)
    ensures SliceStart(inst, m, pass, slice) == SliceStart(inst, n, pass, slice)
    decreases pass as int, slice as int
  {
    hide FillLanes, LanesAgree, SameOpening;
    if slice > 0 {
      MemoryFresh(inst, m, n, pass, slice - 1);
    } else if pass > 1 {
      MemoryFresh(inst, m, n, pass - 1, SYNC_POINTS - 1);
    } else {
      SlicesFresh(inst, m, n, 3);
      LanesFresh(inst, 3, SliceStart(inst, m, 0, 3), SliceStart(inst, n, 0, 3), inst.lanes);
      NextSlice(inst, 3, SliceStart(inst, m, 1, 0), SliceStart(inst, n, 1, 0));
    }
  }
}
