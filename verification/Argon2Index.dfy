/** The layout of the Argon2 memory and the choice of reference blocks (argon2_ctx in argon2.c, index_alpha in
    core.c). Sections 3.2 and 3.4.2 of RFC 9106. */
module Argon2Index {
  import opened Words
  import opened Nonlinear

  const SYNC_POINTS: uint32 := 4

  datatype Kind = Argon2d | Argon2i | Argon2id

  /** The fields of argon2_instance_t that describe the layout. */
  datatype Instance = Instance(version: uint32, passes: uint32, memoryBlocks: uint32, segmentLength: uint32,
                               laneLength: uint32,
                               lanes: uint32, threads: uint32, kind: Kind)
  {
    /** What argon2_ctx establishes: whole segments of at least two blocks, and memory that 32 bits can count. */
    ghost predicate Valid()
    {
      && 1 <= lanes && 1 <= threads <= lanes && 2 <= segmentLength && 1 <= passes
      && laneLength as int == 4 * segmentLength as int
      && memoryBlocks as int == lanes as int * laneLength as int
    }
  }

  datatype Position = Position(pass: uint32, lane: uint32, slice: uint32, index: uint32)

  /** A position where fill_segment constructs a block. */
  ghost predicate Fillable(inst: Instance, pos: Position)
  {
    && inst.Valid() && pos.pass < inst.passes && pos.lane < inst.lanes && pos.slice < SYNC_POINTS
    && (if pos.pass == 0 && pos.slice == 0 then 2 else 0) <= pos.index < inst.segmentLength
  }

  /** Offset in the lane of the block being constructed. */
  ghost function Current(inst: Instance, pos: Position): int
  {
    pos.slice as int * inst.segmentLength as int + pos.index as int
  }

  /** Offset in the lane of the block before it, cyclically. */
  ghost function Previous(inst: Instance, pos: Position): int
  {
    if Current(inst, pos) == 0 then inst.laneLength as int - 1 else Current(inst, pos) - 1
  }

  /** reference_area_size: the number of blocks to choose from. In the very first segment only the same lane
      may be named. */
  function AreaSize(inst: Instance, pos: Position, sameLane: bool): (n: uint32)
    requires Fillable(inst, pos) && (pos.pass == 0 && pos.slice == 0 ==> sameLane)
    ensures 1 <= n < inst.laneLength
  {
    SliceBounds(inst, pos);
    if pos.pass == 0 then
      if pos.slice == 0 then pos.index - 1
      else if sameLane then pos.slice * inst.segmentLength + pos.index - 1
      else pos.slice * inst.segmentLength - (if pos.index == 0 then 1 else 0)
    else if sameLane then inst.laneLength - inst.segmentLength + pos.index - 1
    else inst.laneLength - inst.segmentLength - (if pos.index == 0 then 1 else 0)
  }

  lemma SliceBounds(inst: Instance, pos: Position)
    requires Fillable(inst, pos)
    ensures 4 * inst.segmentLength as int == inst.laneLength as int < 0x1_0000_0000
    ensures 0 <= pos.slice as int * inst.segmentLength as int <= 3 * inst.segmentLength as int
    ensures pos.slice > 0 ==> pos.slice as int * inst.segmentLength as int >= inst.segmentLength as int
    ensures (pos.slice as int + 1) * inst.segmentLength as int
            == pos.slice as int * inst.segmentLength as int + inst.segmentLength as int
  {
    var s := pos.slice as int;
    assert s == 0 || s == 1 || s == 2 || s == 3;
  }

  /** relative_position: the squared 32-bit value scaled to the area, counted back from its end. */
  function RelativePosition(area: uint32, pseudoRand: uint32): (r: uint32)
    requires area >= 1
    ensures r < area
  {
    Scaled(pseudoRand as int, pseudoRand as int);
    var x := (pseudoRand as uint64 * pseudoRand as uint64) / 0x1_0000_0000;
    Scaled(area as int, x as int);
    area - 1 - ((area as uint64 * x) / 0x1_0000_0000) as uint32
  }

  /** The mapping of section 3.4.2 of RFC 9106: with x the upper half of the square of J1, and k the upper half of
      area * x, the k-th block from the end of the area. */
  lemma RelativeMeaning(area: uint32, pseudoRand: uint32, x: int, k: int)
    requires area >= 1
    requires x * 0x1_0000_0000 <= pseudoRand as int * pseudoRand as int < (x + 1) * 0x1_0000_0000
    requires k * 0x1_0000_0000 <= area as int * x < (k + 1) * 0x1_0000_0000
    ensures 0 <= k < area as int && RelativePosition(area, pseudoRand) as int == area as int - 1 - k
  {
    var J1 := pseudoRand as int;
    DivUnique(J1 * J1, 0x1_0000_0000, x, J1 * J1 - x * 0x1_0000_0000);
    DivUnique(area as int * x, 0x1_0000_0000, k, area as int * x - k * 0x1_0000_0000);
    Scaled(J1, J1);
    Scaled(area as int, x);
  }

  /** The smaller the pseudo-random value, the closer to the end of the area. */
  lemma RelativeMonotone(area: uint32, j: uint32, j': uint32)
    requires area >= 1 && j <= j'
    ensures RelativePosition(area, j') <= RelativePosition(area, j)
  {
    var x, x' := j as int * j as int / 0x1_0000_0000, j' as int * j' as int / 0x1_0000_0000;
    MulLe(j as int, j as int, j' as int);
    MulLe(j' as int, j as int, j' as int);
    DivMono(j as int * j as int, j' as int * j' as int);
    MulLe(area as int, x, x');
    DivMono(area as int * x, area as int * x');
    RelativeOf(area, j);
    RelativeOf(area, j');
  }

  lemma DivMono(a: int, b: int)
    requires a <= b
    ensures a / 0x1_0000_0000 <= b / 0x1_0000_0000
  {
  }

  lemma RelativeOf(area: uint32, j: uint32)
    requires area >= 1
    ensures RelativePosition(area, j) as int
            == area as int - 1 - area as int * (j as int * j as int / 0x1_0000_0000) / 0x1_0000_0000
  {
    var x := j as int * j as int / 0x1_0000_0000;
    assert j as int * j as int == x * 0x1_0000_0000 + j as int * j as int % 0x1_0000_0000;
    var k := area as int * x / 0x1_0000_0000;
    assert area as int * x == k * 0x1_0000_0000 + area as int * x % 0x1_0000_0000;
    RelativeMeaning(area, j, x, k);
  }

  /** A 32-bit fraction of a 32-bit number. */
  lemma Scaled(a: int, x: int)
    requires 0 <= a < 0x1_0000_0000 && 0 <= x < 0x1_0000_0000
    ensures 0 <= a * x < 0x1_0000_0000_0000_0000 && 0 <= a * x / 0x1_0000_0000
    ensures a > 0 ==> a * x / 0x1_0000_0000 < a
    ensures a * x / 0x1_0000_0000 < 0x1_0000_0000
  {
    MulLe(a, 0, x);
    MulLe(a, x, 0xFFFF_FFFF);
  }

  /** start_position */
  function StartPosition(inst: Instance, pos: Position): (r: uint32)
    requires Fillable(inst, pos)
    ensures r < inst.laneLength
  {
    SliceBounds(inst, pos);
    SliceLimit(pos.slice as int, inst.segmentLength as int);
    if pos.pass == 0 || pos.slice == SYNC_POINTS - 1 then 0 else (pos.slice + 1) * inst.segmentLength
  }

  lemma SliceLimit(s: int, n: int)
    requires 0 <= s <= 3 && n >= 2
    ensures s < 3 ==> (s + 1) * n < 4 * n
  {
  }

  /** index_alpha */
  function IndexAlpha(inst: Instance, pos: Position, pseudoRand: uint32, sameLane: bool): (r: uint32)
    requires Fillable(inst, pos) && (pos.pass == 0 && pos.slice == 0 ==> sameLane)
    ensures r < inst.laneLength
  {
    SliceBounds(inst, pos);
    var relative := RelativePosition(AreaSize(inst, pos, sameLane), pseudoRand);
    ((StartPosition(inst, pos) as uint64 + relative as uint64) % inst.laneLength as uint64) as uint32
  }

  /** The block that index_alpha names: the number x is the upper half of the square of the pseudo-random value, k
      that of area * x, and the block lies k + 1 before the end of the window. */
  lemma IndexAlphaMeaning(inst: Instance, pos: Position, pseudoRand: uint32, sameLane: bool) returns (x: int, k: int)
    requires Fillable(inst, pos) && (pos.pass == 0 && pos.slice == 0 ==> sameLane)
    ensures x * 0x1_0000_0000 <= pseudoRand as int * pseudoRand as int < (x + 1) * 0x1_0000_0000
    ensures var area, start := AreaSize(inst, pos, sameLane) as int, StartPosition(inst, pos) as int;
            && k * 0x1_0000_0000 <= area * x < (k + 1) * 0x1_0000_0000
            && IndexAlpha(inst, pos, pseudoRand, sameLane) as int == (start + area - 1 - k) % inst.laneLength as int
  {
    var J1, area := pseudoRand as int, AreaSize(inst, pos, sameLane);
    x := J1 * J1 / 0x1_0000_0000;
    assert J1 * J1 == x * 0x1_0000_0000 + J1 * J1 % 0x1_0000_0000;
    k := area as int * x / 0x1_0000_0000;
    assert area as int * x == k * 0x1_0000_0000 + area as int * x % 0x1_0000_0000;
    RelativeMeaning(area, pseudoRand, x, k);
    SliceBounds(inst, pos);
    hide AreaSize, StartPosition, RelativePosition;
  }

  /** The blocks of a lane that are complete and stay unchanged while the segment is filled: other slices, and in
      the same lane the blocks of this segment already constructed; in the first pass only slices before. */
  ghost predicate Finished(inst: Instance, pos: Position, sameLane: bool, o: int)
  {
    var first := pos.slice as int * inst.segmentLength as int;
    && 0 <= o < inst.laneLength as int
    && (first <= o < first + inst.segmentLength as int ==> sameLane && o < Current(inst, pos))
    && (pos.pass == 0 ==> o < first + inst.segmentLength as int)
  }

  lemma ModOnce(x: int, n: int)
    requires 0 <= x < 2 * n
    ensures x % n == if x < n then x else x - n
  {
    if x < n {
      DivUnique(x, n, 0, x);
    } else {
      DivUnique(x, n, 1, x - n);
    }
  }

  /** The block named is finished, and is neither the block being constructed nor the one before it in the same
      lane; at index 0 the other lanes' last block before the slice is left out as well. */
  lemma ReferenceIsSafe(inst: Instance, pos: Position, pseudoRand: uint32, sameLane: bool)
    requires Fillable(inst, pos) && (pos.pass == 0 && pos.slice == 0 ==> sameLane)
    ensures var o := IndexAlpha(inst, pos, pseudoRand, sameLane) as int;
            && Finished(inst, pos, sameLane, o)
            && (sameLane ==> o != Current(inst, pos))
            && (sameLane || pos.index == 0 ==> o != Previous(inst, pos))
  {
    SliceBounds(inst, pos);
    var area := AreaSize(inst, pos, sameLane);
    var relative := RelativePosition(area, pseudoRand);
    ModOnce(StartPosition(inst, pos) as int + relative as int, inst.laneLength as int);
  }

  /** The window is no smaller than it must be: every finished block outside the exceptions of ReferenceIsSafe is
      one of the AreaSize blocks counted from StartPosition. */
  lemma WindowComplete(inst: Instance, pos: Position, sameLane: bool, o: int) returns (k: int)
    requires Fillable(inst, pos) && (pos.pass == 0 && pos.slice == 0 ==> sameLane)
    requires Finished(inst, pos, sameLane, o) && (sameLane || pos.index == 0 ==> o != Previous(inst, pos))
    ensures 0 <= k < AreaSize(inst, pos, sameLane) as int
    ensures (StartPosition(inst, pos) as int + k) % inst.laneLength as int == o
  {
    SliceBounds(inst, pos);
    var start, n := StartPosition(inst, pos) as int, inst.laneLength as int;
    k := if start <= o then o - start else o - start + n;
    ModOnce(start + k, n);
  }

  // ---- sizes (argon2_ctx) ----

  /** The sizing of argon2_ctx, in 32-bit arithmetic. validate_inputs has checked the lanes and the thread count. */
  function Layout(version: uint32, tCost: uint32, mCost: uint32, lanes: uint32, threads: uint32, kind: Kind)
    : (inst: Instance)
    requires 1 <= lanes <= 0xFF_FFFF && 1 <= threads && 1 <= tCost
    ensures inst.Valid()
    ensures inst.lanes == lanes && inst.passes == tCost && inst.version == version && inst.kind == kind
    ensures inst.threads == if threads > lanes then lanes else threads
    ensures mCost as int >= 8 * lanes as int
            ==> inst.memoryBlocks <= mCost && mCost as int - inst.memoryBlocks as int < 4 * lanes as int
    ensures mCost as int <= 8 * lanes as int ==> inst.memoryBlocks as int == 8 * lanes as int
  {
    var raised := if mCost < 2 * SYNC_POINTS * lanes then 2 * SYNC_POINTS * lanes else mCost;
    var segment := raised / (lanes * SYNC_POINTS);
    Segments(raised as int, lanes as int);
    var blocks := segment * (lanes * SYNC_POINTS);
    Instance(version, tCost, blocks, segment, segment * SYNC_POINTS, lanes,
             if threads > lanes then lanes else threads, kind)
  }

  lemma Segments(m: int, lanes: int)
    requires lanes >= 1 && 8 * lanes <= m < 0x1_0000_0000
    ensures var s := m / (lanes * 4);
            && 2 <= s && 0 <= s * (lanes * 4) <= m < s * (lanes * 4) + lanes * 4
            && 4 * s < 0x1_0000_0000 && lanes * (s * 4) == s * (lanes * 4)
            && (m == 8 * lanes ==> s == 2)
  {
    var d := lanes * 4;
    var s := m / d;
    assert m == d * s + m % d;
    if s <= 1 {
      MulLe(d, s, 1);
    } else if s >= 3 {
      MulLe(d, 3, s);
    }
    MulAway(s, lanes);
    assert s * d == 4 * (s * lanes);
  }
}
