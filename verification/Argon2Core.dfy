/** Input validation, sizing and the fill loop around the segments (core.c, argon2.c). */
module Argon2Core {
  import opened Words
  import opened Blamka
  import opened Argon2Block
  import opened Argon2Index
  import opened Argon2Segment
  import opened Argon2Sharing
  import opened Argon2Threads
  import opened HashStreams

  /** argon2_context */
  datatype Context = Context(out: Field, pwd: Field, salt: Field, secret: Field, ad: Field,
                             tCost: uint32, mCost: uint32, lanes: uint32, threads: uint32, version: uint32,
                             allocate: bool, free: bool)
  {
    predicate Sized() { out.Sized() && pwd.Sized() && salt.Sized() && secret.Sized() && ad.Sized() }
  }

  datatype Code =
    | Ok | OutputPtrNull | OutputTooShort | PwdPtrMismatch | SaltPtrMismatch | SaltTooShort | SecretPtrMismatch
      | AdPtrMismatch
    | MemoryTooLittle | MemoryTooMuch | TimeTooSmall | LanesTooFew | LanesTooMany | ThreadsTooFew | ThreadsTooMany
    | FreeMemoryCbkNull | AllocateMemoryCbkNull | MemoryAllocationError | DecodingFail | EncodingFail
    | PwdTooLong | SaltTooLong | OutputTooLong | VerifyMismatch

  const MAX_LANES: uint32 := 0xFF_FFFF

  function IsNullWithLength(f: Field): bool { f.Null? && f.length != 0 }

  /** validate_inputs. maxMemory is ARGON2_MAX_MEMORY, which depends on the pointer size. Comparisons with the limits
      0 and 2^32 - 1 of a 32-bit length cannot fail and are left out; 8 * lanes is computed modulo 2^32. */
  function ValidateInputs(ctx: Context, maxMemory: uint32): Code
    requires ctx.Sized()
  {
    if ctx.out.Null? then OutputPtrNull
    else if ctx.out.Length() < 4 then OutputTooShort
    else if IsNullWithLength(ctx.pwd) then PwdPtrMismatch
    else if IsNullWithLength(ctx.salt) then SaltPtrMismatch
    else if ctx.salt.Length() < 8 then SaltTooShort
    else if IsNullWithLength(ctx.secret) then SecretPtrMismatch
    else if IsNullWithLength(ctx.ad) then AdPtrMismatch
    else if ctx.mCost < 2 * SYNC_POINTS then MemoryTooLittle
    else if maxMemory < ctx.mCost then MemoryTooMuch
    else if (ctx.mCost as int) < (8 * ctx.lanes as int) % 0x1_0000_0000 then MemoryTooLittle
    else if ctx.tCost < 1 then TimeTooSmall
    else if ctx.lanes < 1 then LanesTooFew
    else if MAX_LANES < ctx.lanes then LanesTooMany
    else if ctx.threads < 1 then ThreadsTooFew
    else if MAX_LANES < ctx.threads then ThreadsTooMany
    else if ctx.allocate && !ctx.free then FreeMemoryCbkNull
    else if !ctx.allocate && ctx.free then AllocateMemoryCbkNull
    else Ok
  }

  /** The limits of section 3.1 of RFC 9106 as this implementation narrows them, without any wrap-around. */
  ghost predicate ValidContext(ctx: Context, maxMemory: uint32)
    requires ctx.Sized()
  {
    && ctx.out.Data? && |ctx.out.bytes| >= 4 && ctx.salt.Data? && |ctx.salt.bytes| >= 8
    && (ctx.pwd.Data? || ctx.pwd.length == 0) && (ctx.secret.Data? || ctx.secret.length == 0)
    && (ctx.ad.Data? || ctx.ad.length == 0)
    && 1 <= ctx.lanes <= MAX_LANES && 1 <= ctx.threads <= MAX_LANES && 1 <= ctx.tCost
    && 8 * ctx.lanes as int <= ctx.mCost as int && ctx.mCost <= maxMemory
    && ctx.allocate == ctx.free
  }

  /** The checks accept exactly the valid contexts: the product that may wrap is compared before the lanes are
      checked, but a wrap can only happen for a lane count that is refused later. */
  lemma ValidExactly(ctx: Context, maxMemory: uint32)
    requires ctx.Sized()
    ensures ValidateInputs(ctx, maxMemory) == Ok <==> ValidContext(ctx, maxMemory)
  {
  }

  /** The i-th check: when it fails, and the code that is returned then. */
  function Check(ctx: Context, maxMemory: uint32, i: nat): (bool, Code)
  {
    match i
    case 0 => (ctx.out.Null?, OutputPtrNull)
    case 1 => (ctx.out.Size() < 4, OutputTooShort)
    case 2 => (ctx.pwd.Null? && ctx.pwd.Size() != 0, PwdPtrMismatch)
    case 3 => (ctx.salt.Null? && ctx.salt.Size() != 0, SaltPtrMismatch)
    case 4 => (ctx.salt.Size() < 8, SaltTooShort)
    case 5 => (ctx.secret.Null? && ctx.secret.Size() != 0, SecretPtrMismatch)
    case 6 => (ctx.ad.Null? && ctx.ad.Size() != 0, AdPtrMismatch)
    case 7 => (ctx.mCost < 8, MemoryTooLittle)
    case 8 => (ctx.mCost > maxMemory, MemoryTooMuch)
    case 9 => (ctx.mCost as int < 8 * ctx.lanes as int % 0x1_0000_0000, MemoryTooLittle)
    case 10 => (ctx.tCost == 0, TimeTooSmall)
    case 11 => (ctx.lanes == 0, LanesTooFew)
    case 12 => (ctx.lanes >= 0x100_0000, LanesTooMany)
    case 13 => (ctx.threads == 0, ThreadsTooFew)
    case 14 => (ctx.threads >= 0x100_0000, ThreadsTooMany)
    case 15 => (ctx.allocate && !ctx.free, FreeMemoryCbkNull)
    case _ => (ctx.free && !ctx.allocate, AllocateMemoryCbkNull)
  }

  /** The code is that of the first check that fails. */
  lemma FirstFailure(ctx: Context, maxMemory: uint32, i: nat)
    requires ctx.Sized() && i < 17
    requires Check(ctx, maxMemory, i).0 && forall j :: 0 <= j < i ==> !Check(ctx, maxMemory, j).0
    ensures ValidateInputs(ctx, maxMemory) == Check(ctx, maxMemory, i).1
  {
    hide ValidateInputs, Check;
    if i < 9 {
      EarlyFailure(ctx, maxMemory, i);
    } else {
      LateFailure(ctx, maxMemory, i);
    }
  }

  lemma EarlyFailure(ctx: Context, maxMemory: uint32, i: nat)
    requires ctx.Sized() && i < 9
    requires Check(ctx, maxMemory, i).0 && forall j :: 0 <= j < i ==> !Check(ctx, maxMemory, j).0
    ensures ValidateInputs(ctx, maxMemory) == Check(ctx, maxMemory, i).1
  {
    Passed(ctx, maxMemory, i);
  }

  lemma LateFailure(ctx: Context, maxMemory: uint32, i: nat)
    requires ctx.Sized() && 9 <= i < 17
    requires Check(ctx, maxMemory, i).0 && forall j :: 0 <= j < i ==> !Check(ctx, maxMemory, j).0
    ensures ValidateInputs(ctx, maxMemory) == Check(ctx, maxMemory, i).1
  {
    Passed(ctx, maxMemory, i);
    assert i == 9 || i == 10 || i == 11 || i == 12 || i == 13 || i == 14 || i == 15 || i == 16;
  }

  lemma Passed(ctx: Context, maxMemory: uint32, i: nat)
    requires i < 17 && forall j :: 0 <= j < i ==> !Check(ctx, maxMemory, j).0
    ensures 0 < i ==> !Check(ctx, maxMemory, 0).0
    ensures 1 < i ==> !Check(ctx, maxMemory, 1).0 && (2 < i ==> !Check(ctx, maxMemory, 2).0)
    ensures 3 < i ==> !Check(ctx, maxMemory, 3).0 && (4 < i ==> !Check(ctx, maxMemory, 4).0)
    ensures 5 < i ==> !Check(ctx, maxMemory, 5).0 && (6 < i ==> !Check(ctx, maxMemory, 6).0)
    ensures 7 < i ==> !Check(ctx, maxMemory, 7).0 && (8 < i ==> !Check(ctx, maxMemory, 8).0)
    ensures 9 < i ==> !Check(ctx, maxMemory, 9).0 && (10 < i ==> !Check(ctx, maxMemory, 10).0)
    ensures 11 < i ==> !Check(ctx, maxMemory, 11).0 && (12 < i ==> !Check(ctx, maxMemory, 12).0)
    ensures 13 < i ==> !Check(ctx, maxMemory, 13).0 && (14 < i ==> !Check(ctx, maxMemory, 14).0)
    ensures 15 < i ==> !Check(ctx, maxMemory, 15).0
  {
    hide Check;
  }

  /** Validated inputs give a layout whose memory is within the requested amount. */
  lemma ValidLayout(ctx: Context, maxMemory: uint32, kind: Kind)
    requires ctx.Sized() && ValidateInputs(ctx, maxMemory) == Ok
    ensures var inst := Layout(ctx.version, ctx.tCost, ctx.mCost, ctx.lanes, ctx.threads, kind);
            inst.Valid() && inst.memoryBlocks <= ctx.mCost
              && ctx.mCost as int - inst.memoryBlocks as int < 4 * ctx.lanes as int
  {
    ValidExactly(ctx, maxMemory);
  }

  // ---- fill_memory_blocks_st ----

  /** The innermost loop: the lanes of one slice in turn. */
  method FillSlice(inst: Instance, pass: uint32, slice: uint32, memory: array<Block>, opt: bool, ssse3: bool)
    requires inst.Valid() && pass < inst.passes && slice < SYNC_POINTS && memory.Length == inst.memoryBlocks as int
    modifies memory
    ensures memory[..] == FillLanes(inst, pass, slice, old(memory[..]), inst.lanes)
  {
    hide FillSegment;
    ghost var before := memory[..];
    var l: uint32 := 0;
    while l < inst.lanes
      invariant l <= inst.lanes
      invariant memory[..] == FillLanes(inst, pass, slice, before, l)
    {
      if opt {
        FillSegmentOpt(inst, SegmentOf(pass, slice, l), memory, ssse3);
      } else {
        FillSegmentRef(inst, SegmentOf(pass, slice, l), memory);
      }
      l := l + 1;
    }
  }

  /** fill_memory_blocks_st, with either version of fill_segment. */
  method FillMemoryBlocksSt(inst: Instance, memory: array<Block>, opt: bool, ssse3: bool)
    requires inst.Valid() && memory.Length == inst.memoryBlocks as int
    modifies memory
    ensures memory[..] == SliceStart(inst, old(memory[..]), inst.passes, 0)
  {
    hide FillLanes;
    ghost var before := memory[..];
    var r: uint32 := 0;
    while r < inst.passes
      invariant r <= inst.passes
      invariant memory[..] == SliceStart(inst, before, r, 0)
    {
      var s: uint32 := 0;
      while s < SYNC_POINTS
        invariant s <= SYNC_POINTS
        invariant memory[..] == if s < SYNC_POINTS then SliceStart(inst, before, r, s)
                                else SliceStart(inst, before, r + 1, 0)
      {
        FillSlice(inst, r, s, memory, opt, ssse3);
        s := s + 1;
      }
      r := r + 1;
    }
  }

  /** t gives the memory before each segment when the segments are filled in turn: pass by pass, in each pass the four
      slices, in each slice the lanes. */
  ghost predicate InTurn(inst: Instance, t: (int, int, int) -> Memory)
    requires inst.Valid()
  {
    && (forall p, s, l :: |t(p, s, l)| == inst.memoryBlocks as int)
    && (forall p, s, l :: 0 <= p < inst.passes as int && 0 <= s < 4 && 0 <= l < inst.lanes as int ==>
          t(p, s, l + 1) == FillSegment(inst, Position(p as uint32, l as uint32, s as uint32, 0), t(p, s, l)))
    && (forall p, s {:trigger t(p, s, inst.lanes as int)} :: 0 <= p < inst.passes as int && 0 <= s < 3 ==>
          t(p, s + 1, 0) == t(p, s, inst.lanes as int))
    && (forall p {:trigger t(p, 3, inst.lanes as int)} :: 0 <= p < inst.passes as int ==>
          t(p + 1, 0, 0) == t(p, 3, inst.lanes as int))
  }

  lemma SliceInTurn(inst: Instance, t: (int, int, int) -> Memory, p: int, s: int)
    requires inst.Valid() && InTurn(inst, t) && 0 <= p < inst.passes as int && 0 <= s < 4
    ensures t(if s == 3 then p + 1 else p, if s == 3 then 0 else s + 1, 0) == t(p, s, inst.lanes as int)
    ensures |t(p, s, 0)| == |t(0, 0, 0)| == inst.memoryBlocks as int
  {
  }

  lemma {:induction false} LanesInTurn(inst: Instance, t: (int, int, int) -> Memory, p: uint32, s: uint32, l: uint32)
    requires inst.Valid() && InTurn(inst, t) && p < inst.passes && s < 4 && l <= inst.lanes
    ensures FillLanes(inst, p, s, t(p as int, s as int, 0), l) == t(p as int, s as int, l as int)
    decreases l as int
  {
    hide FillSegment;
    if l > 0 {
      LanesInTurn(inst, t, p, s, l - 1);
      assert t(p as int, s as int, (l - 1) as int + 1) == t(p as int, s as int, l as int);
    }
  }

  /** The single-threaded memory is the one after the last segment. */
  lemma {:induction false} ScheduleMeaning(inst: Instance, t: (int, int, int) -> Memory, p: uint32, s: uint32)
    requires inst.Valid() && InTurn(inst, t) && p <= inst.passes && s < 4 && (p == inst.passes ==> s == 0)
    ensures SliceStart(inst, t(0, 0, 0), p, s) == t(p as int, s as int, 0)
    decreases p as int, s as int
  {
    hide FillLanes, InTurn;
    SliceInTurn(inst, t, 0, 0);
    if s > 0 {
      ScheduleMeaning(inst, t, p, s - 1);
      LanesInTurn(inst, t, p, s - 1, inst.lanes);
      SliceInTurn(inst, t, p as int, s as int - 1);
    } else if p > 0 {
      ScheduleMeaning(inst, t, p - 1, 3);
      LanesInTurn(inst, t, p - 1, 3, inst.lanes);
      SliceInTurn(inst, t, p as int - 1, 3);
    }
  }

  /** Whatever the interleaving of the lane threads, the single-threaded fill would have left the same memory. */
  method ThreadedIsSingle(inst: Instance, memory: array<Block>, ghost trace: seq<State>, opt: bool, ssse3: bool)
    requires inst.Valid() && memory.Length == inst.memoryBlocks as int
    requires IsRun(inst, memory[..], trace) && trace[|trace| - 1].pass == inst.passes
    modifies memory
    ensures memory[..] == trace[|trace| - 1].mem
  {
    hide IsRun, SliceStart;
    SameMemory(inst, memory[..], trace);
    FillMemoryBlocksSt(inst, memory, opt, ssse3);
  }
}
