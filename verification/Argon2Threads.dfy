/** fill_memory_blocks_mt (core.c) as a state machine: a main thread that creates and joins one thread per lane,
    and lane threads that read word by word, overwrite piecemeal and complete one block at a time, interleaved in any
    order. */
module Argon2Threads {
  import opened Words
  import opened Argon2Block
  import opened Argon2Index
  import opened Argon2Segment
  import opened Argon2Sharing

  /** A lane thread: about to construct block i; reading for it, with the words read so far of the previous block and
      of the reference block at offset ref; in the middle of writing it (its memory then holds anything); returned; or
      joined. */
  datatype Thread =
    | Absent
    | Ready(i: uint32, local: Local)
    | Reading(i: uint32, next: Local, ref: int, prev: seq<bv64>, other: seq<bv64>)
    | Writing(i: uint32, value: Block, next: Local)
    | Returned
    | Joined

  /** The main thread: at the top of the creating loop, about to create, or in the closing join loop. */
  datatype Pc = Top(l: nat) | Create(l: nat) | Join(l: nat)

  datatype State = State(pass: uint32, slice: uint32, pc: Pc, lanes: seq<Thread>, mem: Memory, joins: seq<nat>)

  function PositionOf(s: State, l: uint32): Position { SegmentOf(s.pass, s.slice, l) }

  ghost predicate ThreadShape(inst: Instance, s: State, t: Thread)
  {
    match t
    case Ready(i, _) => StartIndex(PositionOf(s, 0)) <= i <= inst.segmentLength
    case Reading(i, _, ref, prev, other) =>
      StartIndex(PositionOf(s, 0)) <= i < inst.segmentLength && 0 <= ref < inst.memoryBlocks as int && |prev| <= 128
        && |other| <= 128
    case Writing(i, _, _) => StartIndex(PositionOf(s, 0)) <= i < inst.segmentLength
    case _ => true
  }

  ghost predicate Shape(inst: Instance, s: State)
  {
    && inst.Valid() && s.pass <= inst.passes && s.slice < SYNC_POINTS
    && |s.lanes| == |s.joins| == inst.lanes as int && |s.mem| == inst.memoryBlocks as int
    && (match s.pc
        case Create(l) => l < inst.lanes as int
        case Top(l) => l <= inst.lanes as int
        case Join(l) => l <= inst.lanes as int)
    && forall l :: 0 <= l < |s.lanes| ==> ThreadShape(inst, s, s.lanes[l])
  }

  // ---- the steps ----

  ghost predicate CanJoin(s: State, l: int) { 0 <= l < |s.lanes| == |s.joins| && s.lanes[l] == Returned }

  /** argon2_thread_join(thread[l]), which blocks until the thread has returned. */
  ghost function Joining(s: State, l: int, pc: Pc): State
    requires 0 <= l < |s.lanes| == |s.joins|
  {
    s.(pc := pc, lanes := s.lanes[l := Joined], joins := s.joins[l := s.joins[l] + 1])
  }

  /** argon2_thread_create(&thread[l], ..). */
  ghost function Creating(inst: Instance, s: State, l: nat): State
    requires Shape(inst, s) && l < |s.lanes|
  {
    var pos := PositionOf(s, l as uint32);
    s.(pc := Top(l + 1), lanes := s.lanes[l := Ready(StartIndex(pos), InitialLocal(inst, pos))])
  }

  ghost function NextSlice(inst: Instance, s: State): State
    requires Shape(inst, s) && s.pass < inst.passes
  {
    var n := inst.lanes as int;
    State(if s.slice == SYNC_POINTS - 1 then s.pass + 1 else s.pass,
          if s.slice == SYNC_POINTS - 1 then 0 else s.slice + 1,
          Top(0), seq(n, _ => Absent), s.mem, seq(n, _ => 0))
  }

  ghost predicate MainStep(inst: Instance, s: State, t: State)
    requires Shape(inst, s) && s.pass < inst.passes
  {
    var n, limit := inst.lanes as int, inst.threads as int;
    match s.pc
    case Top(l) =>
      if l == n then t == s.(pc := Join(n - limit))
      else if l < limit then t == s.(pc := Create(l))
      else CanJoin(s, l - limit) && t == Joining(s, l - limit, Create(l))
    case Create(l) => t == Creating(inst, s, l)
    case Join(l) =>
      if l == n then t == NextSlice(inst, s)
      else CanJoin(s, l) && t == Joining(s, l, Join(l + 1))
  }

  /** The position of a thread at index i. */
  function At(s: State, l: uint32, i: uint32): Position { PositionOf(s, l).(index := i) }

  /** The local blocks advanced and the reference block found. */
  ghost predicate Begin(inst: Instance, s: State, t: State, l: uint32)
    requires Shape(inst, s) && s.pass < inst.passes && l < inst.lanes
  {
    && s.lanes[l].Ready? && s.lanes[l].i < inst.segmentLength
    && var pos := At(s, l, s.lanes[l].i);
       var next := Advance(inst, pos, s.lanes[l].local);
       t == s.(lanes := s.lanes[l := Reading(pos.index, next,
                                             ReferenceOffset(inst, pos, Selector(inst, pos, s.mem, next)), [], [])])
  }

  /** One more word of the previous block, or of the reference block. */
  ghost predicate ReadPrevious(inst: Instance, s: State, t: State, l: uint32)
    requires Shape(inst, s) && s.pass < inst.passes && l < inst.lanes
  {
    && s.lanes[l].Reading? && |s.lanes[l].prev| < 128
    && var r := s.lanes[l];
       t == s.(lanes := s.lanes[l := r.(prev := r.prev + [s.mem[PreviousOffset(inst, At(s, l, r.i))][|r.prev|]])])
  }

  ghost predicate ReadReference(inst: Instance, s: State, t: State, l: uint32)
    requires Shape(inst, s) && s.pass < inst.passes && l < inst.lanes
  {
    && s.lanes[l].Reading? && |s.lanes[l].other| < 128
    && var r := s.lanes[l];
       t == s.(lanes := s.lanes[l := r.(other := r.other + [s.mem[r.ref][|r.other|]])])
  }

  /** The new block computed from what has been read and from the contents it replaces. */
  ghost predicate Compute(inst: Instance, s: State, t: State, l: uint32)
    requires Shape(inst, s) && s.pass < inst.passes && l < inst.lanes
  {
    && s.lanes[l].Reading? && |s.lanes[l].prev| == |s.lanes[l].other| == 128
    && var r := s.lanes[l];
       var pos := At(s, l, r.i);
       t == s.(lanes := s.lanes[l := Writing(r.i,
                                             Fill(r.prev, r.other, s.mem[CurrentOffset(inst, pos)],
                                                  WithXor(inst, pos)),
                                             r.next)])
  }

  /** Any intermediate contents of the block being written. */
  ghost predicate Scribble(inst: Instance, s: State, t: State, l: uint32)
    requires Shape(inst, s) && s.pass < inst.passes && l < inst.lanes
  {
    && s.lanes[l].Writing? && |t.mem| == |s.mem|
    && var k := CurrentOffset(inst, At(s, l, s.lanes[l].i));
       t == s.(mem := s.mem[k := t.mem[k]])
  }

  /** The block complete. */
  ghost predicate Commit(inst: Instance, s: State, t: State, l: uint32)
    requires Shape(inst, s) && s.pass < inst.passes && l < inst.lanes
  {
    && s.lanes[l].Writing?
    && t == s.(mem := s.mem[CurrentOffset(inst, At(s, l, s.lanes[l].i)) := s.lanes[l].value],
               lanes := s.lanes[l := Ready(s.lanes[l].i + 1, s.lanes[l].next)])
  }

  /** The thread returns after its last block. */
  ghost predicate Return(inst: Instance, s: State, t: State, l: uint32)
    requires Shape(inst, s) && s.pass < inst.passes && l < inst.lanes
  {
    s.lanes[l].Ready? && s.lanes[l].i == inst.segmentLength && t == s.(lanes := s.lanes[l := Returned])
  }

  ghost predicate ThreadStep(inst: Instance, s: State, t: State, l: uint32)
    requires Shape(inst, s) && s.pass < inst.passes && l < inst.lanes
  {
    || Begin(inst, s, t, l) || ReadPrevious(inst, s, t, l) || ReadReference(inst, s, t, l) || Compute(inst, s, t, l)
    || Scribble(inst, s, t, l) || Commit(inst, s, t, l) || Return(inst, s, t, l)
  }

  ghost predicate Next(inst: Instance, s: State, t: State)
    requires Shape(inst, s)
  {
    s.pass < inst.passes && (MainStep(inst, s, t) || exists l: uint32 :: l < inst.lanes && ThreadStep(inst, s, t, l))
  }

  // ---- the single-threaded memory ----

  /** The memory at the start of a slice when the lanes are filled one after the other. */
  ghost function SliceStart(inst: Instance, mem: Memory, pass: uint32, slice: uint32): (r: Memory)
    requires inst.Valid() && pass <= inst.passes && slice < SYNC_POINTS
    requires (pass == inst.passes ==> slice == 0) && |mem| == inst.memoryBlocks as int
    ensures |r| == |mem|
    decreases pass as int, slice as int
  {
    if slice > 0 then FillLanes(inst, pass, slice - 1, SliceStart(inst, mem, pass, slice - 1), inst.lanes)
    else if pass > 0 then FillLanes(inst, pass - 1, SYNC_POINTS - 1, SliceStart(inst, mem, pass - 1, SYNC_POINTS - 1),
                                    inst.lanes)
    else mem
  }

  // ---- the invariant ----

  /** Which threads exist: those before the join point are joined, those before the creation point live. */
  ghost predicate Schedule(inst: Instance, s: State, joined: int, created: int)
    requires |s.lanes| == |s.joins| == inst.lanes as int
  {
    forall l :: 0 <= l < |s.lanes| ==>
      && (s.lanes[l].Joined? <==> l < joined)
      && (s.lanes[l].Absent? <==> l >= created)
      && s.joins[l] == (if l < joined then 1 else 0)
  }

  ghost function JoinPoint(inst: Instance, s: State): int
    requires inst.Valid()
  {
    var limit := inst.threads as int;
    match s.pc
    case Top(l) => if l <= limit then 0 else l - limit
    case Create(l) => if l < limit then 0 else l - limit + 1
    case Join(l) => l
  }

  ghost function CreatePoint(inst: Instance, s: State): int
  {
    match s.pc
    case Top(l) => l
    case Create(l) => l
    case Join(_) => inst.lanes as int
  }

  ghost predicate Scheduled(inst: Instance, s: State)
    requires Shape(inst, s)
  {
    && Schedule(inst, s, JoinPoint(inst, s), CreatePoint(inst, s))
    && (s.pc.Join? ==> s.pc.l >= inst.lanes as int - inst.threads as int)
    && (s.pass == inst.passes ==> s.slice == 0 && s.pc == Top(0))
  }

  /** Progress of a lane's segment as the single-threaded fill from the start of the slice sees it. */
  ghost function Expected(inst: Instance, start: Memory, s: State, l: uint32, i: uint32): Progress
    requires Shape(inst, s) && s.pass < inst.passes && l < inst.lanes && |start| == inst.memoryBlocks as int
    requires StartIndex(PositionOf(s, l)) <= i <= inst.segmentLength
  {
    Run(inst, PositionOf(s, l), start, i)
  }

  /** The memory block k as thread states say. */
  ghost predicate BlockAsExpected(inst: Instance, start: Memory, s: State, k: int)
    requires Shape(inst, s) && s.pass < inst.passes && |start| == inst.memoryBlocks as int && InMemory(inst, k)
  {
    if !InSlice(inst, s.slice, k) then s.mem[k] == start[k]
    else
      var l := LaneOf(inst, k);
      match s.lanes[l]
      case Absent => s.mem[k] == start[k]
      case Ready(i, _) => s.mem[k] == Expected(inst, start, s, l, i).mem[k]
      case Reading(i, _, _, _, _) => s.mem[k] == Expected(inst, start, s, l, i).mem[k]
      case Writing(i, _, _) => k == CurrentOffset(inst, At(s, l, i))
        || s.mem[k] == Expected(inst, start, s, l, i).mem[k]
      case _ => s.mem[k] == FilledBlock(inst, s.pass, s.slice, start, k)
  }

  /** The words read at pos are those of the two blocks in the expected memory. */
  ghost predicate ReadSoFar(inst: Instance, pos: Position, p: Progress, x: Thread)
    requires Fillable(inst, pos) && |p.mem| == inst.memoryBlocks as int && x.Reading?
  {
    && x.next == Advance(inst, pos, p.local) && x.ref == ReferenceOffset(inst, pos, Selector(inst, pos, p.mem, x.next))
    && |x.prev| <= 128 && |x.other| <= 128
    && x.prev == p.mem[PreviousOffset(inst, pos)][..|x.prev|] && x.other == p.mem[x.ref][..|x.other|]
  }

  ghost predicate Computed(inst: Instance, pos: Position, p: Progress, value: Block, next: Local)
    requires Fillable(inst, pos) && |p.mem| == inst.memoryBlocks as int
  {
    next == Advance(inst, pos, p.local) && value == NewBlock(inst, pos, p.mem, next)
  }

  ghost predicate Right(inst: Instance, pos: Position, p: Progress, x: Thread)
  {
    && Fillable(inst, pos) && |p.mem| == inst.memoryBlocks as int
    && match x
       case Reading(_, _, _, _, _) => ReadSoFar(inst, pos, p, x)
       case Writing(_, value, next) => Computed(inst, pos, p, value, next)
       case _ => true
  }

  /** The private values of thread l. */
  ghost predicate LocalAsExpected(inst: Instance, start: Memory, s: State, l: uint32)
    requires Shape(inst, s) && s.pass < inst.passes && |start| == inst.memoryBlocks as int && l < inst.lanes
  {
    match s.lanes[l]
    case Ready(i, local) => local == Expected(inst, start, s, l, i).local
    case Reading(i, _, _, _, _) => ReadSoFar(inst, At(s, l, i), Expected(inst, start, s, l, i), s.lanes[l])
    case Writing(i, value, next) => Computed(inst, At(s, l, i), Expected(inst, start, s, l, i), value, next)
    case _ => true
  }

  ghost predicate Inv(inst: Instance, mem: Memory, s: State)
    requires |mem| == inst.memoryBlocks as int
  {
    && Shape(inst, s) && Scheduled(inst, s)
    && var start := SliceStart(inst, mem, s.pass, s.slice);
       if s.pass == inst.passes then s.mem == start
       else
         && (forall k | InMemory(inst, k) :: BlockAsExpected(inst, start, s, k))
         && (forall l: uint32 | l < inst.lanes :: LocalAsExpected(inst, start, s, l))
  }

  function Initial(inst: Instance, mem: Memory): State
  {
    State(0, 0, Top(0), seq(inst.lanes as int, _ => Absent), mem, seq(inst.lanes as int, _ => 0))
  }

  lemma InitialInv(inst: Instance, mem: Memory)
    requires inst.Valid() && |mem| == inst.memoryBlocks as int
    ensures Inv(inst, mem, Initial(inst, mem))
  {
    hide Run;
  }

  /** The invariant from its parts, in the middle of a slice. */
  lemma InvFrom(inst: Instance, mem: Memory, s: State, start: Memory)
    requires |mem| == inst.memoryBlocks as int && Shape(inst, s) && Scheduled(inst, s) && s.pass < inst.passes
    requires start == SliceStart(inst, mem, s.pass, s.slice)
    requires forall k | InMemory(inst, k) :: BlockAsExpected(inst, start, s, k)
    requires forall l: uint32 | l < inst.lanes :: LocalAsExpected(inst, start, s, l)
    ensures Inv(inst, mem, s)
  {
  }

  /** Other lanes do not notice a change of lane l. */
  lemma OtherLane(inst: Instance, start: Memory, s: State, t: State, l: uint32, k: int)
    requires Shape(inst, s) && Shape(inst, t) && s.pass == t.pass < inst.passes && s.slice == t.slice
    requires |start| == inst.memoryBlocks as int && InMemory(inst, k) && BlockAsExpected(inst, start, s, k)
    requires s.mem[k] == t.mem[k]
    requires InSlice(inst, s.slice, k) ==> s.lanes[LaneOf(inst, k)] == t.lanes[LaneOf(inst, k)]
    ensures BlockAsExpected(inst, start, t, k)
  {
    hide Run, CurrentOffset, Shape, InSlice;
  }

  lemma OtherLocal(inst: Instance, start: Memory, s: State, t: State, l: uint32)
    requires Shape(inst, s) && Shape(inst, t) && s.pass == t.pass < inst.passes && s.slice == t.slice
    requires |start| == inst.memoryBlocks as int && l < inst.lanes && LocalAsExpected(inst, start, s, l)
    requires s.lanes[l] == t.lanes[l]
    ensures LocalAsExpected(inst, start, t, l)
  {
    hide Run, NewBlock, Advance, Shape;
  }

  /** Joining and creating. */
  lemma MainKeeps(inst: Instance, mem: Memory, s: State, t: State)
    requires |mem| == inst.memoryBlocks as int && Inv(inst, mem, s) && s.pass < inst.passes && MainStep(inst, s, t)
    requires s.pc != Join(inst.lanes as int)
    ensures Inv(inst, mem, t)
  {
    hide Run, SliceStart, InSlice, FillSegment, InitialLocal, NewBlock, Advance, CurrentOffset;
    var start := SliceStart(inst, mem, s.pass, s.slice);
    MainSchedule(inst, s, t);
    forall k | InMemory(inst, k) ensures BlockAsExpected(inst, start, t, k) {
      assert BlockAsExpected(inst, start, s, k);
      if InSlice(inst, s.slice, k) && s.lanes[LaneOf(inst, k)] != t.lanes[LaneOf(inst, k)] {
        assert LaneChange(inst, s, t, LaneOf(inst, k) as int);
        if s.pc.Create? {
          RunBegins(inst, PositionOf(s, LaneOf(inst, k)), start);
        }
      } else {
        OtherLane(inst, start, s, t, 0, k);
      }
    }
    forall l: uint32 | l < inst.lanes ensures LocalAsExpected(inst, start, t, l) {
      assert LocalAsExpected(inst, start, s, l);
      if s.lanes[l] != t.lanes[l] {
        assert LaneChange(inst, s, t, l as int);
        RunBegins(inst, PositionOf(s, l), start);
      } else {
        OtherLocal(inst, start, s, t, l);
      }
    }
    InvFrom(inst, mem, t, start);
  }

  lemma RunBegins(inst: Instance, pos: Position, mem: Memory)
    requires Segment(inst, pos) && |mem| == inst.memoryBlocks as int
    ensures Run(inst, pos, mem, StartIndex(pos)) == Progress(mem, InitialLocal(inst, pos))
  {
  }

  /** What a step of the main thread may do to a lane. */
  ghost predicate LaneChange(inst: Instance, s: State, t: State, l: int)
    requires Shape(inst, s) && 0 <= l < |s.lanes| == |t.lanes|
  {
    || s.lanes[l] == t.lanes[l]
    || (s.lanes[l].Returned? && t.lanes[l].Joined?)
    || (s.pc.Create? && s.lanes[l].Absent?
        && t.lanes[l] == Ready(StartIndex(PositionOf(s, l as uint32)), InitialLocal(inst, PositionOf(s, l as uint32))))
  }

  lemma JoinSchedule(inst: Instance, s: State, t: State, l: nat, pc: Pc)
    requires Shape(inst, s) && s.pass < inst.passes && CanJoin(s, l) && t == Joining(s, l, pc) && Shape(inst, t)
    requires Schedule(inst, s, l, CreatePoint(inst, s)) && JoinPoint(inst, t) == l + 1
    requires CreatePoint(inst, t) == CreatePoint(inst, s)
    ensures Schedule(inst, t, l + 1, CreatePoint(inst, t))
    ensures forall m :: 0 <= m < |s.lanes| ==> LaneChange(inst, s, t, m)
  {
    hide InitialLocal;
  }

  lemma CreateSchedule(inst: Instance, s: State, t: State)
    requires Shape(inst, s) && Scheduled(inst, s) && s.pass < inst.passes && s.pc.Create? && MainStep(inst, s, t)
    ensures Shape(inst, t) && Scheduled(inst, t)
    ensures forall m :: 0 <= m < |s.lanes| ==> LaneChange(inst, s, t, m)
  {
    hide InitialLocal;
  }

  /** The bookkeeping of the main thread. */
  lemma MainSchedule(inst: Instance, s: State, t: State)
    requires Shape(inst, s) && Scheduled(inst, s) && s.pass < inst.passes && MainStep(inst, s, t)
    requires s.pc != Join(inst.lanes as int)
    ensures Shape(inst, t) && Scheduled(inst, t) && t.pass == s.pass && t.slice == s.slice && t.mem == s.mem
    ensures forall l :: 0 <= l < |s.lanes| ==> LaneChange(inst, s, t, l)
  {
    hide InitialLocal, LaneChange, Schedule;
    if s.pc.Create? {
      CreateSchedule(inst, s, t);
    } else if s.pc.Join? {
      JoinSchedule(inst, s, t, s.pc.l, t.pc);
    } else if inst.threads as int <= s.pc.l < inst.lanes as int {
      JoinSchedule(inst, s, t, s.pc.l - inst.threads as int, t.pc);
    } else {
      SamePoints(inst, s, t);
    }
  }

  lemma SamePoints(inst: Instance, s: State, t: State)
    requires Shape(inst, s) && t == s.(pc := t.pc)
    requires Schedule(inst, s, JoinPoint(inst, s), CreatePoint(inst, s))
    requires JoinPoint(inst, t) == JoinPoint(inst, s) && CreatePoint(inst, t) == CreatePoint(inst, s)
    ensures Schedule(inst, t, JoinPoint(inst, t), CreatePoint(inst, t))
    ensures forall l :: 0 <= l < |s.lanes| ==> LaneChange(inst, s, t, l)
  {
    hide InitialLocal;
  }

  /** A step of thread l that keeps it created and unjoined leaves the schedule alone. */
  lemma ThreadSchedule(inst: Instance, s: State, t: State, l: uint32, x: Thread)
    requires Shape(inst, s) && Scheduled(inst, s) && s.pass < inst.passes && l < inst.lanes
    requires s.lanes[l].Ready? || s.lanes[l].Reading? || s.lanes[l].Writing?
    requires !x.Absent? && !x.Joined? && ThreadShape(inst, s, x)
    requires t == s.(lanes := s.lanes[l := x], mem := t.mem) && |t.mem| == |s.mem|
    ensures Shape(inst, t) && Scheduled(inst, t)
  {
  }

  lemma ReadyRange(inst: Instance, s: State, l: uint32)
    requires Shape(inst, s) && l < inst.lanes
    ensures inst.Valid() && s.slice < SYNC_POINTS && |s.lanes| == inst.lanes as int
    ensures |s.mem| == inst.memoryBlocks as int
    ensures ThreadShape(inst, s, s.lanes[l])
    ensures s.lanes[l].Ready? || s.lanes[l].Reading?
            ==> StartIndex(PositionOf(s, l)) <= s.lanes[l].i <= inst.segmentLength
  {
  }

  /** What thread l may read is as the single-threaded fill of its segment would find it. */
  lemma ReadsAsExpected(inst: Instance, start: Memory, s: State, l: uint32)
    requires Shape(inst, s) && s.pass < inst.passes && |start| == inst.memoryBlocks as int && l < inst.lanes
    requires forall k | InMemory(inst, k) :: BlockAsExpected(inst, start, s, k)
    requires s.lanes[l].Ready? || s.lanes[l].Reading?
    ensures Agree(inst, PositionOf(s, l), s.mem, Expected(inst, start, s, l, s.lanes[l].i).mem)
  {
    hide Run, FillSegment, CurrentOffset, InSlice, Shape;
    ReadyRange(inst, s, l);
    var pos, i := PositionOf(s, l), s.lanes[l].i;
    RunWrites(inst, pos, start, i);
    var m := Expected(inst, start, s, l, i).mem;
    forall k | InMemory(inst, k) && Visible(inst, pos, k) ensures s.mem[k] == m[k] {
      assert BlockAsExpected(inst, start, s, k);
    }
  }

  /** A step of thread l towards its block that leaves the memory alone and the private values right: p is the expected
      progress at pos. */
  ghost predicate StepIsRight(inst: Instance, s: State, t: State, l: uint32, pos: Position, p: Progress)
  {
    && l as int < |s.lanes| == |t.lanes| && (t.lanes[l].Reading? || t.lanes[l].Writing?)
    && (s.lanes[l].Ready? || s.lanes[l].Reading?) && t.lanes[l].i == s.lanes[l].i == pos.index
    && ThreadShape(inst, s, t.lanes[l])
    && t == s.(lanes := s.lanes[l := t.lanes[l]]) && Right(inst, pos, p, t.lanes[l])
  }

  lemma PrivateStep(inst: Instance, mem: Memory, s: State, t: State, l: uint32, start: Memory, p: Progress)
    requires Shape(inst, s) && s.pass < inst.passes && l < inst.lanes && |start| == |mem| == inst.memoryBlocks as int
    requires s.lanes[l].Ready? || s.lanes[l].Reading?
    requires p == Expected(inst, start, s, l, s.lanes[l].i) && StepIsRight(inst, s, t, l, At(s, l, s.lanes[l].i), p)
    requires Inv(inst, mem, s) && start == SliceStart(inst, mem, s.pass, s.slice)
    ensures Inv(inst, mem, t)
  {
    hide Run, SliceStart, InSlice, FillSegment, NewBlock, Advance, CurrentOffset, LocalAsExpected;
    ThreadSchedule(inst, s, t, l, t.lanes[l]);
    forall k | InMemory(inst, k) ensures BlockAsExpected(inst, start, t, k) {
      assert BlockAsExpected(inst, start, s, k);
      if !(InSlice(inst, s.slice, k) && LaneOf(inst, k) == l) {
        OtherLane(inst, start, s, t, l, k);
      }
    }
    OtherLocals(inst, start, s, t, l);
    RightIsExpected(inst, start, s, t, l, p);
    InvFrom(inst, mem, t, start);
  }

  lemma RightIsExpected(inst: Instance, start: Memory, s: State, t: State, l: uint32, p: Progress)
    requires Shape(inst, s) && Shape(inst, t) && s.pass == t.pass < inst.passes && s.slice == t.slice
    requires |start| == inst.memoryBlocks as int && l < inst.lanes && (t.lanes[l].Reading? || t.lanes[l].Writing?)
    requires p == Expected(inst, start, s, l, t.lanes[l].i) && Right(inst, At(s, l, t.lanes[l].i), p, t.lanes[l])
    ensures LocalAsExpected(inst, start, t, l)
  {
    hide Run, ReadSoFar, Computed;
  }

  /** Everything that is read at a position is the same in m and n. */
  ghost predicate SameReads(inst: Instance, pos: Position, m: Memory, n: Memory, local: Local)
    requires Fillable(inst, pos) && |m| == |n| == inst.memoryBlocks as int
  {
    && Selector(inst, pos, m, local) == Selector(inst, pos, n, local)
    && m[PreviousOffset(inst, pos)] == n[PreviousOffset(inst, pos)]
    && m[CurrentOffset(inst, pos)] == n[CurrentOffset(inst, pos)]
    && var k := ReferenceOffset(inst, pos, Selector(inst, pos, m, local));
       m[k] == n[k]
  }

  /** What is read at a position is as in any memory that agrees on the visible blocks. */
  lemma ReadsAgree(inst: Instance, pos: Position, m: Memory, n: Memory, local: Local)
    requires Fillable(inst, pos) && |m| == |n| == inst.memoryBlocks as int && Agree(inst, pos, m, n)
    ensures SameReads(inst, pos, m, n, local)
  {
    hide ReferenceOffset, PreviousOffset, CurrentOffset, Owned, Visible;
    Footprint(inst, pos, Selector(inst, pos, m, local));
    OwnedVisible(inst, pos, CurrentOffset(inst, pos));
  }

  /** The same for the memory and the expected memory of thread l at its position. */
  lemma ThreadReads(inst: Instance, s: State, l: uint32, start: Memory, local: Local)
    requires Shape(inst, s) && s.pass < inst.passes && l < inst.lanes && |start| == inst.memoryBlocks as int
    requires (s.lanes[l].Ready? || s.lanes[l].Reading?) && s.lanes[l].i < inst.segmentLength
    requires forall k | InMemory(inst, k) :: BlockAsExpected(inst, start, s, k)
    ensures SameReads(inst, At(s, l, s.lanes[l].i), s.mem, Expected(inst, start, s, l, s.lanes[l].i).mem, local)
  {
    hide Run, FillSegment, SameReads, Agree, BlockAsExpected;
    var i := s.lanes[l].i;
    ReadsAsExpected(inst, start, s, l);
    SameSegment(inst, PositionOf(s, l), i, s.mem, Expected(inst, start, s, l, i).mem);
    ReadsAgree(inst, At(s, l, i), s.mem, Expected(inst, start, s, l, i).mem, local);
  }

  lemma ReadBegins(inst: Instance, pos: Position, p: Progress, m: Memory, next: Local)
    requires Fillable(inst, pos) && |p.mem| == |m| == inst.memoryBlocks as int && next == Advance(inst, pos, p.local)
    requires Selector(inst, pos, m, next) == Selector(inst, pos, p.mem, next)
    ensures ReadSoFar(inst, pos, p, Reading(pos.index, next,
                                            ReferenceOffset(inst, pos, Selector(inst, pos, m, next)), [], []))
  {
    hide Advance, Selector, ReferenceOffset, PreviousOffset;
  }

  lemma ReadContinues(inst: Instance, pos: Position, p: Progress, x: Thread)
    requires Fillable(inst, pos) && |p.mem| == inst.memoryBlocks as int && x.Reading? && ReadSoFar(inst, pos, p, x)
    ensures |x.prev| < 128 ==> ReadSoFar(inst, pos, p,
                                         x.(prev := x.prev + [p.mem[PreviousOffset(inst, pos)][|x.prev|]]))
    ensures |x.other| < 128 ==> ReadSoFar(inst, pos, p, x.(other := x.other + [p.mem[x.ref][|x.other|]]))
  {
    hide Advance, Selector, ReferenceOffset, PreviousOffset;
  }

  lemma ReadCompletes(inst: Instance, pos: Position, p: Progress, x: Thread)
    requires Fillable(inst, pos) && |p.mem| == inst.memoryBlocks as int && x.Reading? && ReadSoFar(inst, pos, p, x)
    requires |x.prev| == |x.other| == 128
    ensures Computed(inst, pos, p, Fill(x.prev, x.other, p.mem[CurrentOffset(inst, pos)], WithXor(inst, pos)), x.next)
  {
    hide Advance, Selector, ReferenceOffset, PreviousOffset, CurrentOffset, Fill;
    assert forall b: Block :: b[..128] == b;
  }

  lemma BeginRight(inst: Instance, s: State, t: State, l: uint32, start: Memory, p: Progress)
    requires Shape(inst, s) && s.pass < inst.passes && l < inst.lanes
    requires |start| == inst.memoryBlocks as int && Begin(inst, s, t, l)
    requires p == Expected(inst, start, s, l, s.lanes[l].i) && LocalAsExpected(inst, start, s, l)
    requires forall k | InMemory(inst, k) :: BlockAsExpected(inst, start, s, k)
    ensures StepIsRight(inst, s, t, l, At(s, l, s.lanes[l].i), p)
  {
    hide Run, Advance, Selector, ReferenceOffset, PreviousOffset, CurrentOffset, ReadSoFar, Computed, Fill, NewBlock,
         BlockAsExpected;
    ReadyRange(inst, s, l);
    var pos, x := At(s, l, s.lanes[l].i), t.lanes[l];
    ThreadReads(inst, s, l, start, x.next);
    hide Shape;
    ReadBegins(inst, pos, p, s.mem, x.next);
  }

  lemma ReadPreviousRight(inst: Instance, s: State, t: State, l: uint32, start: Memory, p: Progress)
    requires Shape(inst, s) && s.pass < inst.passes && l < inst.lanes
    requires |start| == inst.memoryBlocks as int && ReadPrevious(inst, s, t, l)
    requires p == Expected(inst, start, s, l, s.lanes[l].i) && LocalAsExpected(inst, start, s, l)
    requires forall k | InMemory(inst, k) :: BlockAsExpected(inst, start, s, k)
    ensures StepIsRight(inst, s, t, l, At(s, l, s.lanes[l].i), p)
  {
    hide Run, Advance, Selector, ReferenceOffset, PreviousOffset, CurrentOffset, ReadSoFar, Computed, Fill, NewBlock,
         BlockAsExpected;
    ReadyRange(inst, s, l);
    var pos, x := At(s, l, s.lanes[l].i), t.lanes[l];
    ThreadReads(inst, s, l, start, x.next);
    hide Shape;
    ReadContinues(inst, pos, p, s.lanes[l]);
  }

  lemma ReadReferenceRight(inst: Instance, s: State, t: State, l: uint32, start: Memory, p: Progress)
    requires Shape(inst, s) && s.pass < inst.passes && l < inst.lanes
    requires |start| == inst.memoryBlocks as int && ReadReference(inst, s, t, l)
    requires p == Expected(inst, start, s, l, s.lanes[l].i) && LocalAsExpected(inst, start, s, l)
    requires forall k | InMemory(inst, k) :: BlockAsExpected(inst, start, s, k)
    ensures StepIsRight(inst, s, t, l, At(s, l, s.lanes[l].i), p)
  {
    hide Run, Advance, Selector, ReferenceOffset, PreviousOffset, CurrentOffset, ReadSoFar, Computed, Fill, NewBlock,
         BlockAsExpected;
    ReadyRange(inst, s, l);
    var pos, x := At(s, l, s.lanes[l].i), t.lanes[l];
    ThreadReads(inst, s, l, start, x.next);
    hide Shape;
    RefIs(inst, pos, p, s.lanes[l]);
    ReadContinues(inst, pos, p, s.lanes[l]);
  }

  lemma ComputeRight(inst: Instance, s: State, t: State, l: uint32, start: Memory, p: Progress)
    requires Shape(inst, s) && s.pass < inst.passes && l < inst.lanes
    requires |start| == inst.memoryBlocks as int && Compute(inst, s, t, l)
    requires p == Expected(inst, start, s, l, s.lanes[l].i) && LocalAsExpected(inst, start, s, l)
    requires forall k | InMemory(inst, k) :: BlockAsExpected(inst, start, s, k)
    ensures StepIsRight(inst, s, t, l, At(s, l, s.lanes[l].i), p)
  {
    hide Run, Advance, Selector, ReferenceOffset, PreviousOffset, CurrentOffset, ReadSoFar, Computed, Fill, NewBlock,
         BlockAsExpected;
    ReadyRange(inst, s, l);
    var pos, x := At(s, l, s.lanes[l].i), t.lanes[l];
    ThreadReads(inst, s, l, start, x.next);
    hide Shape;
    ReadCompletes(inst, pos, p, s.lanes[l]);
  }

  lemma BeforePrivate(inst: Instance, s: State, t: State, l: uint32)
    requires Shape(inst, s) && s.pass < inst.passes && l < inst.lanes
    requires Begin(inst, s, t, l) || ReadPrevious(inst, s, t, l) || ReadReference(inst, s, t, l)
             || Compute(inst, s, t, l)
    ensures |s.lanes| == inst.lanes as int && inst.Valid() && s.slice < SYNC_POINTS
    ensures s.lanes[l].Ready? || s.lanes[l].Reading?
    ensures StartIndex(PositionOf(s, l)) <= s.lanes[l].i <= inst.segmentLength
  {
    hide Advance, Selector, ReferenceOffset, PreviousOffset, CurrentOffset, Fill;
    ReadyRange(inst, s, l);
  }

  lemma InvParts(inst: Instance, mem: Memory, s: State, l: uint32) returns (start: Memory)
    requires |mem| == inst.memoryBlocks as int && Inv(inst, mem, s) && s.pass < inst.passes && l < inst.lanes
    ensures |start| == |mem| && start == SliceStart(inst, mem, s.pass, s.slice) && LocalAsExpected(inst, start, s, l)
    ensures forall k | InMemory(inst, k) :: BlockAsExpected(inst, start, s, k)
  {
    start := SliceStart(inst, mem, s.pass, s.slice);
  }

  /** The steps that do not touch the memory. */
  lemma PrivateKeeps(inst: Instance, mem: Memory, s: State, t: State, l: uint32)
    requires |mem| == inst.memoryBlocks as int && Shape(inst, s) && s.pass < inst.passes && l < inst.lanes
    requires Begin(inst, s, t, l) || ReadPrevious(inst, s, t, l) || ReadReference(inst, s, t, l)
             || Compute(inst, s, t, l)
    requires Inv(inst, mem, s)
    ensures Inv(inst, mem, t)
  {
    hide *;
    var start := InvParts(inst, mem, s, l);
    BeforePrivate(inst, s, t, l);
    var p := Expected(inst, start, s, l, s.lanes[l].i);
    if Begin(inst, s, t, l) {
      BeginRight(inst, s, t, l, start, p);
    } else if ReadPrevious(inst, s, t, l) {
      ReadPreviousRight(inst, s, t, l, start, p);
    } else if ReadReference(inst, s, t, l) {
      ReadReferenceRight(inst, s, t, l, start, p);
    } else {
      ComputeRight(inst, s, t, l, start, p);
    }
    PrivateStep(inst, mem, s, t, l, start, p);
  }

  lemma RefIs(inst: Instance, pos: Position, p: Progress, x: Thread)
    requires Fillable(inst, pos) && |p.mem| == inst.memoryBlocks as int && x.Reading? && ReadSoFar(inst, pos, p, x)
    ensures x.ref == ReferenceOffset(inst, pos, Selector(inst, pos, p.mem, x.next))
  {
  }

  lemma OtherLocals(inst: Instance, start: Memory, s: State, t: State, l: uint32)
    requires Shape(inst, s) && Shape(inst, t) && s.pass == t.pass < inst.passes && s.slice == t.slice
    requires |start| == inst.memoryBlocks as int && l < inst.lanes
    requires forall m: uint32 | m < inst.lanes :: LocalAsExpected(inst, start, s, m)
    requires forall m | 0 <= m < |s.lanes| && m != l as int :: s.lanes[m] == t.lanes[m]
    ensures forall m: uint32 | m < inst.lanes && m != l :: LocalAsExpected(inst, start, t, m)
  {
    hide Run, NewBlock, Advance, LocalAsExpected;
    forall m: uint32 | m < inst.lanes && m != l ensures LocalAsExpected(inst, start, t, m) {
      OtherLocal(inst, start, s, t, m);
    }
  }

  lemma ScribbleKeeps(inst: Instance, mem: Memory, s: State, t: State, l: uint32)
    requires |mem| == inst.memoryBlocks as int && Inv(inst, mem, s)
    requires s.pass < inst.passes && l < inst.lanes && Scribble(inst, s, t, l)
    ensures Inv(inst, mem, t)
  {
    hide Run, SliceStart, InSlice, FillSegment, NewBlock, Advance, CurrentOffset;
    var start := SliceStart(inst, mem, s.pass, s.slice);
    var i := s.lanes[l].i;
    ThreadSchedule(inst, s, t, l, s.lanes[l]);
    Footprint(inst, At(s, l, i), 0);
    SameSegment(inst, PositionOf(s, l), i, s.mem, s.mem);
    forall k | InMemory(inst, k) ensures BlockAsExpected(inst, start, t, k) {
      assert BlockAsExpected(inst, start, s, k);
      if k != CurrentOffset(inst, At(s, l, i)) {
        OtherLane(inst, start, s, t, l, k);
      }
    }
    forall m: uint32 | m < inst.lanes ensures LocalAsExpected(inst, start, t, m) {
      OtherLocal(inst, start, s, t, m);
    }
    InvFrom(inst, mem, t, start);
  }

  lemma RunNext(inst: Instance, pos: Position, mem: Memory, i: uint32)
    requires Segment(inst, pos) && |mem| == inst.memoryBlocks as int && StartIndex(pos) <= i < inst.segmentLength
    ensures Run(inst, pos, mem, i + 1) == Step(inst, pos.(index := i), Run(inst, pos, mem, i))
  {
  }

  lemma CommitKeeps(inst: Instance, mem: Memory, s: State, t: State, l: uint32)
    requires |mem| == inst.memoryBlocks as int && Inv(inst, mem, s)
    requires s.pass < inst.passes && l < inst.lanes && Commit(inst, s, t, l)
    ensures Inv(inst, mem, t)
  {
    hide Run, SliceStart, InSlice, FillSegment, NewBlock, Advance, CurrentOffset;
    var start := SliceStart(inst, mem, s.pass, s.slice);
    var i := s.lanes[l].i;
    assert LocalAsExpected(inst, start, s, l);
    RunNext(inst, PositionOf(s, l), start, i);
    ThreadSchedule(inst, s, t, l, t.lanes[l]);
    Footprint(inst, At(s, l, i), 0);
    SameSegment(inst, PositionOf(s, l), i, s.mem, s.mem);
    forall k | InMemory(inst, k) ensures BlockAsExpected(inst, start, t, k) {
      assert BlockAsExpected(inst, start, s, k);
      if !(InSlice(inst, s.slice, k) && LaneOf(inst, k) == l) {
        OtherLane(inst, start, s, t, l, k);
      }
    }
    OtherLocals(inst, start, s, t, l);
    InvFrom(inst, mem, t, start);
  }

  lemma ReturnKeeps(inst: Instance, mem: Memory, s: State, t: State, l: uint32)
    requires |mem| == inst.memoryBlocks as int && Inv(inst, mem, s)
    requires s.pass < inst.passes && l < inst.lanes && Return(inst, s, t, l)
    ensures Inv(inst, mem, t)
  {
    hide Run, SliceStart, InSlice, NewBlock, Advance, CurrentOffset;
    var start := SliceStart(inst, mem, s.pass, s.slice);
    ThreadSchedule(inst, s, t, l, t.lanes[l]);
    forall k | InMemory(inst, k) ensures BlockAsExpected(inst, start, t, k) {
      assert BlockAsExpected(inst, start, s, k);
      if !(InSlice(inst, s.slice, k) && LaneOf(inst, k) == l) {
        OtherLane(inst, start, s, t, l, k);
      }
    }
    OtherLocals(inst, start, s, t, l);
    InvFrom(inst, mem, t, start);
  }

  /** When the last thread of a slice has been joined, every thread has been joined exactly once and the memory is
      the one the lanes filled in turn would leave. */
  lemma SliceDone(inst: Instance, mem: Memory, s: State)
    requires |mem| == inst.memoryBlocks as int && Inv(inst, mem, s)
    requires s.pass < inst.passes && s.pc == Join(inst.lanes as int)
    ensures forall l :: 0 <= l < |s.joins| ==> s.joins[l] == 1
    ensures s.mem == FillLanes(inst, s.pass, s.slice, SliceStart(inst, mem, s.pass, s.slice), inst.lanes)
  {
    hide Run, SliceStart, InSlice, FillSegment, FillLanes;
    var start := SliceStart(inst, mem, s.pass, s.slice);
    var filled := FillLanes(inst, s.pass, s.slice, start, inst.lanes);
    forall k | InMemory(inst, k) ensures s.mem[k] == filled[k] {
      assert BlockAsExpected(inst, start, s, k);
      LanesIndependent(inst, s.pass, s.slice, start, inst.lanes, k);
    }
  }

  lemma NextSliceKeeps(inst: Instance, mem: Memory, s: State, t: State)
    requires |mem| == inst.memoryBlocks as int && Inv(inst, mem, s) && s.pass < inst.passes
    requires s.pc == Join(inst.lanes as int) && t == NextSlice(inst, s)
    ensures Inv(inst, mem, t)
  {
    hide Run, InSlice, FillSegment, FillLanes;
    SliceDone(inst, mem, s);
  }

  /** Every step keeps the invariant. */
  lemma StepKeeps(inst: Instance, mem: Memory, s: State, t: State)
    requires |mem| == inst.memoryBlocks as int && Inv(inst, mem, s) && Next(inst, s, t)
    ensures Inv(inst, mem, t)
  {
    hide Inv, Begin, ReadPrevious, ReadReference, Compute, Scribble, Commit, Return, Shape;
    assert Shape(inst, s) by { InvShape(inst, mem, s); }
    if MainStep(inst, s, t) {
      if s.pc == Join(inst.lanes as int) {
        NextSliceKeeps(inst, mem, s, t);
      } else {
        MainKeeps(inst, mem, s, t);
      }
    } else {
      var l: uint32 :| l < inst.lanes && ThreadStep(inst, s, t, l);
      if Begin(inst, s, t, l) || ReadPrevious(inst, s, t, l) || ReadReference(inst, s, t, l) || Compute(inst, s, t, l) {
        PrivateKeeps(inst, mem, s, t, l);
      } else if Scribble(inst, s, t, l) {
        ScribbleKeeps(inst, mem, s, t, l);
      } else if Commit(inst, s, t, l) {
        CommitKeeps(inst, mem, s, t, l);
      } else {
        ReturnKeeps(inst, mem, s, t, l);
      }
    }
  }

  lemma InvShape(inst: Instance, mem: Memory, s: State)
    requires |mem| == inst.memoryBlocks as int && Inv(inst, mem, s)
    ensures Shape(inst, s)
  {
  }

  // ---- whole runs ----

  /** A run from the initial state: any interleaving of the main thread and the lane threads. */
  ghost predicate IsRun(inst: Instance, mem: Memory, trace: seq<State>)
    requires |mem| == inst.memoryBlocks as int
  {
    && trace != [] && inst.Valid() && trace[0] == Initial(inst, mem)
    && forall i :: 0 <= i < |trace| - 1 ==> Shape(inst, trace[i]) && Next(inst, trace[i], trace[i + 1])
  }

  lemma {:induction false} Reachable(inst: Instance, mem: Memory, trace: seq<State>, i: nat)
    requires |mem| == inst.memoryBlocks as int && IsRun(inst, mem, trace) && i < |trace|
    ensures Inv(inst, mem, trace[i])
  {
    hide Inv, Next, Shape;
    if i == 0 {
      InitialInv(inst, mem);
    } else {
      Reachable(inst, mem, trace, i - 1);
      assert Next(inst, trace[i - 1], trace[i]);
      StepKeeps(inst, mem, trace[i - 1], trace[i]);
    }
  }

  /** Every interleaving that reaches the end leaves the memory of the single-threaded schedule. */
  lemma SameMemory(inst: Instance, mem: Memory, trace: seq<State>)
    requires |mem| == inst.memoryBlocks as int && IsRun(inst, mem, trace) && trace[|trace| - 1].pass == inst.passes
    ensures trace[|trace| - 1].mem == SliceStart(inst, mem, inst.passes, 0)
  {
    hide IsRun, SliceStart;
    assert trace != [] by { RunNonempty(inst, mem, trace); }
    Reachable(inst, mem, trace, |trace| - 1);
  }

  lemma RunNonempty(inst: Instance, mem: Memory, trace: seq<State>)
    requires |mem| == inst.memoryBlocks as int && IsRun(inst, mem, trace)
    ensures trace != []
  {
  }

  /** In every reachable state the threads created and not yet joined are at most the thread limit: they are
      consecutive lanes. */
  lemma ThreadLimit(inst: Instance, mem: Memory, s: State) returns (first: int)
    requires |mem| == inst.memoryBlocks as int && Inv(inst, mem, s) && s.pass < inst.passes
    ensures forall l :: 0 <= l < |s.lanes| && !s.lanes[l].Absent? && !s.lanes[l].Joined? ==>
              first <= l < first + inst.threads as int
  {
    first := JoinPoint(inst, s);
  }

  /** A thread about to be joined exists and has not been joined before. */
  lemma JoinsLiveThread(inst: Instance, mem: Memory, s: State, l: nat)
    requires |mem| == inst.memoryBlocks as int && Inv(inst, mem, s) && s.pass < inst.passes
    requires l < inst.lanes as int
    requires (s.pc.Top? && s.pc.l < inst.lanes as int && l == s.pc.l - inst.threads as int) || s.pc == Join(l)
    ensures !s.lanes[l].Absent? && !s.lanes[l].Joined? && s.joins[l] == 0
  {
  }

  /** The step that some thread can take. */
  ghost function ThreadMove(inst: Instance, s: State, l: uint32): State
    requires Shape(inst, s) && s.pass < inst.passes && l < inst.lanes
    requires s.lanes[l].Ready? || s.lanes[l].Reading? || s.lanes[l].Writing?
  {
    match s.lanes[l]
    case Ready(i, local) =>
      if i == inst.segmentLength then s.(lanes := s.lanes[l := Returned])
      else
        var pos := At(s, l, i);
        var next := Advance(inst, pos, local);
        s.(lanes := s.lanes[l := Reading(i, next,
                                         ReferenceOffset(inst, pos, Selector(inst, pos, s.mem, next)), [], [])])
    case Reading(i, next, ref, prev, other) =>
      var pos, r := At(s, l, i), s.lanes[l];
      if |prev| < 128 then s.(lanes := s.lanes[l := r.(prev := prev + [s.mem[PreviousOffset(inst, pos)][|prev|]])])
      else if |other| < 128 then s.(lanes := s.lanes[l := r.(other := other + [s.mem[ref][|other|]])])
      else s.(lanes := s.lanes[l := Writing(i, Fill(prev, other, s.mem[CurrentOffset(inst, pos)], WithXor(inst, pos)),
                                            next)])
    case Writing(i, value, next) =>
      s.(mem := s.mem[CurrentOffset(inst, At(s, l, i)) := value], lanes := s.lanes[l := Ready(i + 1, next)])
  }

  /** No deadlock: before the end some step is always possible; in particular a join that blocks waits for a
      thread that can move. */
  lemma NoDeadlock(inst: Instance, mem: Memory, s: State) returns (t: State)
    requires |mem| == inst.memoryBlocks as int && Inv(inst, mem, s) && s.pass < inst.passes
    ensures Next(inst, s, t)
  {
    hide NewBlock, Advance, CurrentOffset, Run, InitialLocal, SliceStart;
    var n, limit := inst.lanes as int, inst.threads as int;
    match s.pc
    case Create(l) =>
      t := Creating(inst, s, l);
    case Top(l) =>
      if l == n {
        t := s.(pc := Join(n - limit));
      } else if l < limit {
        t := s.(pc := Create(l));
      } else {
        t := JoinOrMove(inst, mem, s, l - limit, Create(l));
      }
    case Join(l) =>
      if l == n {
        t := NextSlice(inst, s);
      } else {
        t := JoinOrMove(inst, mem, s, l, Join(l + 1));
      }
  }

  lemma JoinOrMove(inst: Instance, mem: Memory, s: State, l: nat, pc: Pc) returns (t: State)
    requires |mem| == inst.memoryBlocks as int && Inv(inst, mem, s) && s.pass < inst.passes && l < inst.lanes as int
    requires (s.pc.Top? && s.pc.l < inst.lanes as int && l == s.pc.l - inst.threads as int) || s.pc == Join(l)
    ensures if s.lanes[l] == Returned then t == Joining(s, l, pc) else ThreadStep(inst, s, t, l as uint32)
  {
    hide Fill, Advance, Selector, ReferenceOffset, PreviousOffset, CurrentOffset, Run, SliceStart;
    JoinsLiveThread(inst, mem, s, l);
    if s.lanes[l] == Returned {
      t := Joining(s, l, pc);
    } else {
      t := ThreadMove(inst, s, l as uint32);
    }
  }

  // ---- termination ----

  /** What a thread still has to do in its slice, counting its creation and its join. */
  ghost function ThreadWork(inst: Instance, start: uint32, t: Thread): int
  {
    var n := inst.segmentLength as int;
    match t
    case Absent => 259 * (n - start as int) + 3
    case Ready(i, _) => 259 * (n - i as int) + 2
    case Reading(i, _, _, prev, other) => 259 * (n - i as int) + 1 - |prev| - |other|
    case Writing(i, _, _) => 259 * (n - i as int) - 256
    case Returned => 1
    case Joined => 0
  }

  ghost function TotalWork(inst: Instance, start: uint32, ts: seq<Thread>): int
  {
    if ts == [] then 0 else TotalWork(inst, start, ts[..|ts| - 1]) + ThreadWork(inst, start, ts[|ts| - 1])
  }

  ghost function MainWork(inst: Instance, pc: Pc): int
  {
    var n := inst.lanes as int;
    match pc
    case Top(l) => 2 * (n - l) + 2
    case Create(l) => 2 * (n - l) + 1
    case Join(_) => 0
  }

  /** Work left in the current slice, and slices left. */
  ghost function Work(inst: Instance, s: State): int
  {
    TotalWork(inst, StartIndex(PositionOf(s, 0)), s.lanes) + MainWork(inst, s.pc)
  }

  ghost function SlicesLeft(inst: Instance, s: State): int { 4 * (inst.passes as int - s.pass as int) - s.slice as int }

  lemma {:induction false} WorkUpdate(inst: Instance, start: uint32, ts: seq<Thread>, l: nat, x: Thread)
    requires l < |ts|
    ensures TotalWork(inst, start, ts[l := x])
            == TotalWork(inst, start, ts) - ThreadWork(inst, start, ts[l]) + ThreadWork(inst, start, x)
  {
    hide ThreadWork;
    var n := |ts| - 1;
    if l == n {
      assert ts[l := x][..n] == ts[..n];
    } else {
      WorkUpdate(inst, start, ts[..n], l, x);
      assert ts[l := x][..n] == ts[..n][l := x];
    }
  }

  lemma {:induction false} WorkNonnegative(inst: Instance, start: uint32, ts: seq<Thread>)
    requires start <= inst.segmentLength
    requires forall l :: 0 <= l < |ts| ==> match ts[l]
              case Ready(i, _) => i <= inst.segmentLength
              case Reading(i, _, _, prev, other) => i < inst.segmentLength && |prev| <= 128 && |other| <= 128
              case Writing(i, _, _) => i < inst.segmentLength
              case _ => true
    ensures TotalWork(inst, start, ts) >= 0
  {
    if ts != [] {
      WorkNonnegative(inst, start, ts[..|ts| - 1]);
    }
  }

  lemma ThreadProgress(inst: Instance, s: State, t: State, l: uint32)
    requires Shape(inst, s) && s.pass < inst.passes && l < inst.lanes && ThreadStep(inst, s, t, l)
    ensures SlicesLeft(inst, t) == SlicesLeft(inst, s)
    ensures Scribble(inst, s, t, l) || Work(inst, t) < Work(inst, s)
  {
    hide Fill, Advance, Selector, ReferenceOffset, PreviousOffset, CurrentOffset, InitialLocal, TotalWork;
    WorkUpdate(inst, StartIndex(PositionOf(s, 0)), s.lanes, l as nat, t.lanes[l]);
  }

  lemma WorkBound(inst: Instance, s: State)
    requires Shape(inst, s) && s.pass < inst.passes
    ensures SlicesLeft(inst, s) > 0 && Work(inst, s) >= 0
  {
    WorkNonnegative(inst, StartIndex(PositionOf(s, 0)), s.lanes);
    hide TotalWork;
  }

  /** Every step except the intermediate writes of a block brings the end nearer: it starts a later slice, or leaves
      less work in this one. So no schedule runs for ever unless some block is rewritten for ever. */
  lemma StepProgress(inst: Instance, mem: Memory, s: State, t: State)
    requires |mem| == inst.memoryBlocks as int && Inv(inst, mem, s) && Next(inst, s, t)
    ensures SlicesLeft(inst, s) > 0 && Work(inst, s) >= 0
    ensures SlicesLeft(inst, t) < SlicesLeft(inst, s)
            || (SlicesLeft(inst, t) == SlicesLeft(inst, s) && Work(inst, t) < Work(inst, s))
            || exists l: uint32 :: l < inst.lanes && Scribble(inst, s, t, l)
  {
    assert Scheduled(inst, s);
    hide Inv, Shape, Scheduled, MainStep, ThreadStep, Work, SlicesLeft, Scribble;
    WorkBound(inst, s);
    if MainStep(inst, s, t) {
      MainProgress(inst, s, t);
    } else {
      var l: uint32 :| l < inst.lanes && ThreadStep(inst, s, t, l);
      ThreadProgress(inst, s, t, l);
    }
  }

  lemma MainProgress(inst: Instance, s: State, t: State)
    requires Shape(inst, s) && s.pass < inst.passes && MainStep(inst, s, t) && Scheduled(inst, s)
    ensures SlicesLeft(inst, t) < SlicesLeft(inst, s)
            || (SlicesLeft(inst, t) == SlicesLeft(inst, s) && Work(inst, t) < Work(inst, s))
  {
    var start := StartIndex(PositionOf(s, 0));
    hide InitialLocal, TotalWork;
    if s.pc.Create? {
      WorkUpdate(inst, start, s.lanes, s.pc.l, t.lanes[s.pc.l]);
    } else if s.pc.Join? && s.pc.l < inst.lanes as int {
      WorkUpdate(inst, start, s.lanes, s.pc.l, Joined);
    } else if s.pc.Top? && inst.threads as int <= s.pc.l < inst.lanes as int {
      WorkUpdate(inst, start, s.lanes, s.pc.l - inst.threads as int, Joined);
    }
  }
}
