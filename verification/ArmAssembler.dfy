/**
  The ARM assembler with its buffer as the mutable object it is. The methods of the buffer compute the functions of
  `ConstantPool` on the object's contents; the operations each add a step to the object's history `ops`, so that the
  theorems about `Run(ops)` are theorems about the object.
 */
module ArmAssembler {
  import opened ArmWord
  import opened ConstantPool
  import opened PoolRuns
  import opened ArmRuns
  import opened ArmCopy
  import opened BufferRuns

  const POOL_ENTRIES := 512

  class Assembler32 {
    var code: seq<Word>
    const pool: array<Word>
    const mask: array<bool>
    var numConsts: nat
    var loadOffsets: seq<nat>
    var maxDistance: int
    var lastConstDelta: int
    var jumps: seq<Jump>
    ghost var ops: seq<Op>

    ghost predicate Sized()
      reads this
    {
      pool.Length == mask.Length == POOL_ENTRIES && numConsts < POOL_ENTRIES
    }

    /** The loads were recorded in code order. */
    ghost predicate Ordered()
      reads this
    {
      forall i, j :: 0 <= i < j < |loadOffsets| ==> loadOffsets[i] < loadOffsets[j]
    }

    ghost function Contents(): (b: Buffer)
      requires Sized()
      reads this, pool, mask
    {
      Buffer(code, pool[..numConsts], mask[..numConsts], loadOffsets, maxDistance, lastConstDelta)
    }

    ghost predicate Valid()
      reads this, pool, mask
    {
      Sized() && Reaches(ops, Contents(), jumps)
    }

    constructor ()
      ensures Valid() && ops == []
      ensures fresh(pool) && fresh(mask)
    {
      code, numConsts, loadOffsets, maxDistance, lastConstDelta, jumps := [], 0, [], MAX_POOL_SIZE, 0, [];
      pool := new Word[POOL_ENTRIES](_ => PAD);
      mask := new bool[POOL_ENTRIES](_ => false);
      ops := [];
    }

    // ----- the buffer -----

    /** Puts the barrier, the padding and the pool into the code; the loads still carry their indices. */
    method PlacePool(useBarrier: bool) returns (start: nat)
      requires Sized()
      modifies this`code
      ensures code == BeforePool(old(Contents()), useBarrier) + old(Contents()).pool
      ensures start == PoolStart(old(Contents()), useBarrier)
    {
      var padding := (|code| + if useBarrier then 1 else 0) % 2;
      if useBarrier { code := code + [PoolBarrier(numConsts + padding)]; }
      if padding == 1 { code := code + [PAD]; }
      start := |code|;
      code := code + pool[..numConsts];
    }

    /** Patches each waiting load, one after the other. */
    method PatchWaitingLoads(start: nat)
      requires Ordered()
      requires forall k :: k in loadOffsets ==> k < |code| && k < start && OffsetFits(code[k], start - k)
      modifies this`code
      ensures code == PatchLoads(old(code), loadOffsets, start)
    {
      ghost var whole, loads := code, loadOffsets;
      for i := 0 to |loadOffsets|
        invariant |code| == |whole|
        invariant forall k :: 0 <= k < |whole| && k !in loads[..i] ==> code[k] == whole[k]
        invariant forall k :: k in loads[..i] ==> k in loads && code[k] == PatchLoad(whole[k], start - k)
      {
        var at := loadOffsets[i];
        assert loads[..i + 1] == loads[..i] + [at] && at in loads;
        code := code[at := PatchLoad(code[at], start - at)];
      }
      assert loads[..|loads|] == loads;
    }

    method FlushConstantPool(useBarrier: bool)
      requires Sized() && Ordered() && CanFlush(Contents())
      modifies this`code, this`loadOffsets, this`numConsts
      ensures Sized() && Contents() == Flush(old(Contents()), useBarrier)
    {
      if numConsts == 0 { return; }
      var start := PlacePool(useBarrier);
      PatchWaitingLoads(start);
      loadOffsets, numConsts := [], 0;
    }

    method FlushIfNoSpaceFor(nextInsn: nat)
      requires Sized() && Ordered() && CanFlush(Contents())
      modifies this`code, this`loadOffsets, this`numConsts
      ensures Sized() && Contents() == ConstantPool.FlushIfNoSpaceFor(old(Contents()), nextInsn)
    {
      if numConsts == 0 { return; }
      var delta := if lastConstDelta > nextInsn then lastConstDelta - nextInsn else 0;
      if maxDistance < nextInsn + delta + BARRIER_SIZE + WORD_SIZE { FlushConstantPool(true); }
    }

    method FlushIfNoSpaceForConstant(nextInsn: nat, nextConst: nat)
      requires Sized() && Ordered() && CanFlush(Contents())
      modifies this`code, this`loadOffsets, this`numConsts
      ensures Sized() && Contents() == ConstantPool.FlushIfNoSpaceForConstant(old(Contents()), nextInsn, nextConst)
    {
      if numConsts == 0 { return; }
      if || maxDistance < nextInsn + lastConstDelta + nextConst + BARRIER_SIZE + WORD_SIZE
         || numConsts * WORD_SIZE + nextConst >= MAX_POOL_SIZE
      {
        FlushConstantPool(true);
      }
    }

    method CorrectDeltas(insnSize: nat)
      requires Sized()
      modifies this`maxDistance, this`lastConstDelta
      ensures Contents() == ConstantPool.CorrectDeltas(old(Contents()), insnSize)
    {
      maxDistance := maxDistance - insnSize;
      lastConstDelta := lastConstDelta - insnSize;
      if lastConstDelta < 0 { lastConstDelta := 0; }
    }

    method CorrectDeltasForConstant(insnSize: nat, constSize: nat)
      requires Sized()
      modifies this`maxDistance, this`lastConstDelta
      ensures Contents() == ConstantPool.CorrectDeltasForConstant(old(Contents()), insnSize, constSize)
    {
      CorrectDeltas(insnSize);
      maxDistance := maxDistance - lastConstDelta;
      lastConstDelta := constSize;
    }

    /** The entry a reusable constant can share, or the number of entries. */
    method FindShared(constant: Word) returns (entry: nat)
      requires Sized()
      ensures entry == SharedEntry(Contents(), constant, 0)
    {
      for i := 0 to numConsts
        invariant SharedEntry(Contents(), constant, 0) == SharedEntry(Contents(), constant, i)
      {
        if mask[i] && pool[i] == constant { return i; }
      }
      return numConsts;
    }

    method AppendLoad(insn: Word, constant: Word, isReusable: bool)
      requires Sized() && numConsts + 1 < POOL_ENTRIES
      modifies this`code, this`loadOffsets, this`numConsts, this`maxDistance, this`lastConstDelta, pool, mask
      ensures Sized() && Contents() == ConstantPool.AppendLoad(old(Contents()), insn, constant, isReusable)
    {
      var entry := numConsts;
      if isReusable { entry := FindShared(constant); }
      loadOffsets := loadOffsets + [|code|];
      code := code + [StampIndex(insn, entry)];
      if entry < numConsts {
        CorrectDeltas(WORD_SIZE);
      } else {
        pool[numConsts] := constant;
        mask[numConsts] := isReusable;
        numConsts := numConsts + 1;
        CorrectDeltasForConstant(WORD_SIZE, WORD_SIZE);
      }
    }

    method AppendPlain(word: Word)
      requires Sized() && Ordered() && CanFlush(Contents())
      modifies this`code, this`loadOffsets, this`numConsts, this`maxDistance, this`lastConstDelta
      ensures Sized() && Contents() == ConstantPool.PutInt(old(Contents()), word)
    {
      FlushIfNoSpaceFor(WORD_SIZE);
      code := code + [word];
      CorrectDeltas(WORD_SIZE);
    }

    method AppendWithConstant(insn: Word, constant: Word, isReusable: bool)
      requires Sized() && Ordered() && CanFlush(Contents())
      modifies this`code, this`loadOffsets, this`numConsts, this`maxDistance, this`lastConstDelta, pool, mask
      ensures Sized() && Contents() == ConstantPool.PutIntWithConstantInt(old(Contents()), insn, constant, isReusable)
    {
      if numConsts == 0 { maxDistance := MAX_POOL_SIZE; }
      FlushIfNoSpaceForConstant(WORD_SIZE, WORD_SIZE);
      AppendLoad(insn, constant, isReusable);
    }

    method FlushIfFull(isForced: bool)
      requires Sized() && Ordered() && CanFlush(Contents())
      modifies this`code, this`loadOffsets, this`numConsts
      ensures Sized() && Contents() == ConstantPool.FlushWithoutBarrier(old(Contents()), isForced)
    {
      if isForced || 5 * numConsts > 3 * MAX_POOL_SIZE / WORD_SIZE { FlushConstantPool(false); }
    }

    method WriteTarget(at: nat, to: Word)
      requires Sized() && CanLink(Contents(), at)
      modifies this`code, pool
      ensures Sized() && Contents() == ConstantPool.LinkJump(old(Contents()), at, to)
    {
      var insn := code[at];
      if insn.offset % 2 == 1 {
        pool[insn.offset / 2] := to;
      } else {
        code := code[LiteralAddress(insn, WORD_SIZE * at) / WORD_SIZE := to];
      }
    }

    // ----- the operations -----

    method PutInt(word: Word)
      requires Valid()
      modifies this
      ensures Valid() && ops == old(ops) + [Put(word)]
    {
      ghost var b := Contents();
      ReachedIsUsable(ops, b, jumps);
      AppendPlain(word);
      ReachesThen(ops, b, jumps, Put(word), Contents(), jumps);
      ops := ops + [Put(word)];
    }

    method PutIntWithConstantInt(insn: LoadInsn, constant: Word, isReusable: bool)
      requires Valid()
      modifies this, pool, mask
      ensures Valid() && ops == old(ops) + [PutWithConstant(insn, constant, isReusable)]
    {
      ghost var b := Contents();
      ReachedIsUsable(ops, b, jumps);
      AppendWithConstant(insn, constant, isReusable);
      ReachesThen(ops, b, jumps, PutWithConstant(insn, constant, isReusable), Contents(), jumps);
      ops := ops + [PutWithConstant(insn, constant, isReusable)];
    }

    method FlushWithoutBarrier(isForced: bool)
      requires Valid()
      modifies this
      ensures Valid() && ops == old(ops) + [FlushAfterJump(isForced)]
    {
      ghost var b := Contents();
      ReachedIsUsable(ops, b, jumps);
      ReachesFlushAfterJump(ops, b, jumps, isForced);
      FlushIfFull(isForced);
      ops := ops + [FlushAfterJump(isForced)];
    }

    method EnsureSpace(insnSpace: nat, constSpace: nat)
      requires Valid()
      modifies this
      ensures Valid() && ops == old(ops) + [Reserve(insnSpace, constSpace)]
    {
      ghost var b := Contents();
      ReachedIsUsable(ops, b, jumps);
      ReachesReserve(ops, b, jumps, insnSpace, constSpace);
      FlushIfNoSpaceForConstant(insnSpace, constSpace);
      ops := ops + [Reserve(insnSpace, constSpace)];
    }

    /** The result is the byte offset where the next instruction will land. */
    method LabelIgnoringWatchpoints() returns (offset: nat)
      requires Valid()
      modifies this
      ensures Valid() && ops == old(ops) + [ReserveAny(1)]
      ensures offset == WORD_SIZE * |code|
    {
      ghost var b := Contents();
      ReachedIsUsable(ops, b, jumps);
      FlushIfNoSpaceForConstant(WORD_SIZE, 8);
      ReachesThen(ops, b, jumps, ReserveAny(1), Contents(), jumps);
      ops := ops + [ReserveAny(1)];
      offset := WORD_SIZE * |code|;
    }

    /** The result is the byte offset after the planted jump. */
    method Jmp(cond: Bits4, useConstantPool: bool) returns (offset: nat)
      requires Valid()
      modifies this, pool, mask
      ensures Valid() && ops == old(ops) + [PlantJump(cond, useConstantPool)]
      ensures |jumps| == |old(jumps)| + 1 && offset == WORD_SIZE * (jumps[|jumps| - 1].at + 1)
    {
      ghost var b := Contents();
      ReachedIsUsable(ops, b, jumps);
      ReachesReserve(ops, b, jumps, WORD_SIZE, WORD_SIZE);
      FlushIfNoSpaceForConstant(WORD_SIZE, WORD_SIZE);
      ReachedIsUsable(ops + [Reserve(WORD_SIZE, WORD_SIZE)], Contents(), jumps);
      ReachesPlantJump(ops, b, jumps, cond, useConstantPool, Contents());
      var at := |code|;
      AppendWithConstant(JumpInsn(cond), INVALID_BRANCH_TARGET, false);
      jumps := jumps + [Jump(at, cond, useConstantPool)];
      ops := ops + [PlantJump(cond, useConstantPool)];
      offset := WORD_SIZE * (at + 1);
    }

    /** `from` is the offset a jump returned. */
    method LinkJump(from: nat, to: Word)
      requires Valid()
      requires exists i :: 0 <= i < |jumps| && WORD_SIZE * (jumps[i].at + 1) == from
      modifies this, pool
      ensures Valid() && ops == old(ops) + [Link(from / WORD_SIZE - 1, to)]
    {
      ghost var b := Contents();
      ReachedIsUsable(ops, b, jumps);
      var at := from / WORD_SIZE - 1;
      WriteTarget(at, to);
      ReachesThen(ops, b, jumps, Link(at, to), Contents(), jumps);
      ops := ops + [Link(at, to)];
    }

    /** The loop that turns every linked jump into its final form. */
    method ResolveAll(to: UInt32)
      requires Ready(code, jumps)
      modifies this`code
      ensures code == ResolveJumps(old(code), jumps, to)
    {
      for i := 0 to |jumps|
        invariant Ready(code, jumps[i..]) && ResolveJumps(code, jumps[i..], to) == ResolveJumps(old(code), jumps, to)
      {
        assert jumps[i..][0] == jumps[i] && jumps[i..][1..] == jumps[i + 1..];
        ResolvingOneKeepsReady(code, jumps[i..], to);
        code := ResolveJump(code, jumps[i], to);
      }
    }

    method FinishCode()
      requires Sized() && Ordered() && CanFlush(Contents())
      modifies this`code, this`loadOffsets, this`numConsts, this`maxDistance, this`lastConstDelta
      ensures code == FinishedCode(old(Contents()))
    {
      FlushIfFull(true);
      if |code| % 2 != 0 {
        code := code + [BKPT];
        CorrectDeltas(WORD_SIZE);
      }
    }

    /** Afterwards the code is what is copied to address `to` and executed there. */
    method PrepareExecutableCopy(to: UInt32)
      requires Valid()
      modifies this
      ensures code == ExecutableCopy(Run(old(ops)), to)
    {
      ghost var b := Contents();
      ReachedIsUsable(ops, b, jumps);
      FinishCode();
      ReachedCanBeCopied(ops, b, jumps, to);
      ResolveAll(to);
    }
  }
}
