/**
  The ARM instruction buffer with its constant pool, as functions on values.

  The buffer is the ARM instantiation: pools of 2048 bytes, a four-byte barrier and four-byte instructions, so the code
  is a sequence of words. `ArmAssembler.dfy` has the mutable object that computes these functions.
 */
module ConstantPool {
  import opened ArmWord

  const MAX_POOL_SIZE := 2048
  const BARRIER_SIZE := 4
  const WORD_SIZE := 4

  datatype Buffer = Buffer(
    code: seq<Word>,        // what was emitted so far
    pool: seq<Word>,        // the constants waiting to be placed
    reusable: seq<bool>,    // which of them later loads may share
    loads: seq<nat>,        // the word positions of the loads that use them
    maxDistance: int,
    lastConstDelta: int)
  {
    function CodeSize(): (r: nat) {
      WORD_SIZE * |code|
    }
  }

  const EMPTY := Buffer([], [], [], [], MAX_POOL_SIZE, 0)

  // ----- flushing -----

  predicate NeedsFlush(b: Buffer, nextInsn: nat) {
    && b.pool != []
    && b.maxDistance < nextInsn + (if b.lastConstDelta > nextInsn then b.lastConstDelta - nextInsn else 0)
                       + BARRIER_SIZE + WORD_SIZE
  }

  predicate NeedsFlushForConstant(b: Buffer, nextInsn: nat, nextConst: nat) {
    && b.pool != []
    && (|| b.maxDistance < nextInsn + b.lastConstDelta + nextConst + BARRIER_SIZE + WORD_SIZE
        || WORD_SIZE * |b.pool| + nextConst >= MAX_POOL_SIZE)
  }

  /** Whether the pool needs a word of padding to start at an eight-byte boundary. */
  predicate NeedsPadding(b: Buffer, useBarrier: bool) {
    (|b.code| + (if useBarrier then 1 else 0)) % 2 == 1
  }

  /** The word position where a flush puts the pool. */
  function PoolStart(b: Buffer, useBarrier: bool): (r: nat)
    ensures |b.code| <= r <= |b.code| + (if useBarrier then 2 else 1) && r % 2 == 0
  {
    |b.code| + (if useBarrier then 1 else 0) + (if NeedsPadding(b, useBarrier) then 1 else 0)
  }

  /** Every waiting load can reach its constant, and the barrier the end of the pool: what the source asserts. */
  predicate CanFlush(b: Buffer) {
    && |b.pool| < 0x200
    && forall k :: k in b.loads ==> k < |b.code| && OffsetFits(b.code[k], |b.code| + 2 - k)
  }

  /** The code in front of a pool: the barrier and the padding are added. */
  function BeforePool(b: Buffer, useBarrier: bool): (r: seq<Word>)
    requires |b.pool| < 0x200
    ensures |r| == PoolStart(b, useBarrier) && b.code <= r
    ensures useBarrier ==> r[|b.code|] == PoolBarrier(|b.pool| + |r| - |b.code| - 1)
    ensures forall k :: |b.code| + (if useBarrier then 1 else 0) <= k < |r| ==> r[k] == PAD
  {
    b.code
    + (if useBarrier then [PoolBarrier(|b.pool| + if NeedsPadding(b, true) then 1 else 0)] else [])
    + (if NeedsPadding(b, useBarrier) then [PAD] else [])
  }

  /** Turns each stamped load into one that reads the pool at word position `start`. */
  function PatchLoads(code: seq<Word>, loads: seq<nat>, start: nat): (r: seq<Word>)
    requires forall k :: k in loads ==> k < |code| && k < start && OffsetFits(code[k], start - k)
    ensures |r| == |code|
    ensures forall k :: 0 <= k < |code| && k !in loads ==> r[k] == code[k]
    ensures forall k :: k in loads ==> r[k] == PatchLoad(code[k], start - k)
  {
    seq(|code|, k requires 0 <= k < |code| =>
      if k in loads then PatchLoad(code[k], start - k) else code[k])
  }

  function Flush(b: Buffer, useBarrier: bool): (r: Buffer)
    requires CanFlush(b)
  {
    if b.pool == [] then b
    else
      var start := PoolStart(b, useBarrier);
      b.(code := PatchLoads(BeforePool(b, useBarrier) + b.pool, b.loads, start), pool := [], reusable := [], loads := [])
  }

  function FlushIfNoSpaceFor(b: Buffer, nextInsn: nat): (r: Buffer)
    requires CanFlush(b)
  {
    if NeedsFlush(b, nextInsn) then Flush(b, true) else b
  }

  function FlushIfNoSpaceForConstant(b: Buffer, nextInsn: nat, nextConst: nat): (r: Buffer)
    requires CanFlush(b)
  {
    if NeedsFlushForConstant(b, nextInsn, nextConst) then Flush(b, true) else b
  }

  predicate WantsFlush(b: Buffer, isForced: bool) {
    isForced || 5 * |b.pool| > 3 * MAX_POOL_SIZE / WORD_SIZE
  }

  /** The flush offered after unconditional jumps: only when forced, or when the pool is more than 60% full. */
  function FlushWithoutBarrier(b: Buffer, isForced: bool): (r: Buffer)
    requires CanFlush(b)
  {
    if WantsFlush(b, isForced) then Flush(b, false) else b
  }

  // ----- appending -----

  function CorrectDeltas(b: Buffer, insnSize: nat): (r: Buffer) {
    b.(maxDistance := b.maxDistance - insnSize,
       lastConstDelta := if b.lastConstDelta < insnSize then 0 else b.lastConstDelta - insnSize)
  }

  function CorrectDeltasForConstant(b: Buffer, insnSize: nat, constSize: nat): (r: Buffer) {
    var b := CorrectDeltas(b, insnSize);
    b.(maxDistance := b.maxDistance - b.lastConstDelta, lastConstDelta := constSize)
  }

  function AppendPlain(b: Buffer, word: Word): (r: Buffer) {
    CorrectDeltas(b.(code := b.code + [word]), WORD_SIZE)
  }

  /** The first entry at or after `from` that may be shared and holds `constant`, or the pool's length. */
  function SharedEntry(b: Buffer, constant: Word, from: nat): (r: nat)
    requires |b.reusable| == |b.pool| && from <= |b.pool|
    ensures from <= r <= |b.pool|
    ensures r < |b.pool| ==> b.reusable[r] && b.pool[r] == constant
    ensures forall i :: from <= i < r ==> !(b.reusable[i] && b.pool[i] == constant)
    decreases |b.pool| - from
  {
    if from == |b.pool| || (b.reusable[from] && b.pool[from] == constant) then from
    else SharedEntry(b, constant, from + 1)
  }

  /** The pool entry a new load of `constant` will use. */
  function EntryFor(b: Buffer, constant: Word, isReusable: bool): (r: nat)
    requires |b.reusable| == |b.pool|
    ensures r <= |b.pool|
  {
    if isReusable then SharedEntry(b, constant, 0) else |b.pool|
  }

  function AppendLoad(b: Buffer, insn: Word, constant: Word, isReusable: bool): (r: Buffer)
    requires |b.reusable| == |b.pool| < 0x200
  {
    var entry := EntryFor(b, constant, isReusable);
    var grown := b.(code := b.code + [StampIndex(insn, entry)], loads := b.loads + [|b.code|]);
    if entry < |b.pool| then CorrectDeltas(grown, WORD_SIZE)
    else CorrectDeltasForConstant(
        grown.(pool := b.pool + [constant], reusable := b.reusable + [isReusable]), WORD_SIZE, WORD_SIZE)
  }

  // ----- the operations -----

  function PutInt(b: Buffer, word: Word): (r: Buffer)
    requires CanFlush(b)
  {
    AppendPlain(FlushIfNoSpaceFor(b, WORD_SIZE), word)
  }

  /** The state in which a constant load is appended. The distance is reset before the flush, not after it. */
  function BeforeLoad(b: Buffer): (r: Buffer)
    requires CanFlush(b)
  {
    FlushIfNoSpaceForConstant(
      if b.pool == [] then b.(maxDistance := MAX_POOL_SIZE) else b, WORD_SIZE, WORD_SIZE)
  }

  function PutIntWithConstantInt(b: Buffer, insn: Word, constant: Word, isReusable: bool): (r: Buffer)
    requires CanFlush(b) && |b.reusable| == |b.pool| < 0x200
  {
    AppendLoad(BeforeLoad(b), insn, constant, isReusable)
  }

  function EnsureSpace(b: Buffer, insnSpace: nat, constSpace: nat): (r: Buffer)
    requires CanFlush(b)
  {
    FlushIfNoSpaceForConstant(b, insnSpace, constSpace)
  }

  function EnsureSpaceForAnyInstruction(b: Buffer, amount: nat): (r: Buffer)
    requires CanFlush(b)
  {
    FlushIfNoSpaceForConstant(b, amount * WORD_SIZE, amount * 8)
  }

  // ----- linking -----

  /** The load at `at` can be linked: it is stamped with a pool entry, or reads a word of the code. */
  predicate CanLink(b: Buffer, at: nat) {
    && at < |b.code|
    && var load := b.code[at];
       if load.offset % 2 == 1 then StampedIndex(load) < |b.pool|
       else
         && 0 <= LiteralAddress(load, WORD_SIZE * at) < b.CodeSize()
         && LiteralAddress(load, WORD_SIZE * at) % WORD_SIZE == 0
  }

  /** Writes a jump's target where its load will find it, in the waiting pool or in a pool already placed. */
  function LinkJump(b: Buffer, at: nat, target: Word): (r: Buffer)
    requires CanLink(b, at)
  {
    var load := b.code[at];
    if load.offset % 2 == 1 then b.(pool := b.pool[StampedIndex(load) := target])
    else b.(code := b.code[LiteralAddress(load, WORD_SIZE * at) / WORD_SIZE := target])
  }

  // ----- what a flush does to the code -----

  /** The code after a flush: loads are patched, the pool follows, and a barrier jumps past it. */
  ghost predicate HasFlushedCode(b: Buffer, useBarrier: bool, start: nat, code: seq<Word>) {
    && |code| == start + |b.pool| && |b.code| <= start
    && (forall k :: 0 <= k < |b.code| && k !in b.loads ==> code[k] == b.code[k])
    && (forall k :: 0 <= k < |b.code| && k in b.loads ==>
                      OffsetFits(b.code[k], start - k) && code[k] == PatchLoad(b.code[k], start - k))
    && (forall i :: 0 <= i < |b.pool| ==> code[start + i] == b.pool[i])
    && (forall k :: |b.code| + (if useBarrier then 1 else 0) <= k < start ==> code[k] == PAD)
    && (useBarrier ==> |b.code| < start && |code| - |b.code| - 1 < 0x1000
                       && code[|b.code|] == PoolBarrier(|code| - |b.code| - 1))
  }

  /** The code with its pool placed at `start`, before the loads are patched. */
  predicate HasPool(b: Buffer, useBarrier: bool, start: nat, whole: seq<Word>) {
    && |whole| == start + |b.pool| && |b.code| <= start <= |b.code| + 2 && |b.pool| < 0x200
    && (forall k :: 0 <= k < |b.code| ==> whole[k] == b.code[k])
    && (forall i :: 0 <= i < |b.pool| ==> whole[start + i] == b.pool[i])
    && (forall k :: |b.code| + (if useBarrier then 1 else 0) <= k < start ==> whole[k] == PAD)
    && (useBarrier ==> |b.code| < start && whole[|b.code|] == PoolBarrier(|whole| - |b.code| - 1))
  }

  lemma PoolIsPlaced(b: Buffer, useBarrier: bool)
    requires |b.pool| < 0x200
    ensures HasPool(b, useBarrier, PoolStart(b, useBarrier), BeforePool(b, useBarrier) + b.pool)
  {
    var before := BeforePool(b, useBarrier);
    assert forall k :: 0 <= k < |b.code| ==> before[k] == b.code[k];
  }

  lemma LoadsFit(b: Buffer, useBarrier: bool, start: nat, whole: seq<Word>)
    requires CanFlush(b) && b.pool != [] && HasPool(b, useBarrier, start, whole)
    ensures forall k :: k in b.loads ==> k < |b.code| && k < start && OffsetFits(whole[k], start - k)
  {
  }

  lemma LoadsArePatched(b: Buffer, useBarrier: bool, start: nat, whole: seq<Word>)
    requires CanFlush(b) && HasPool(b, useBarrier, start, whole)
    requires forall k :: k in b.loads ==> k < |b.code| && k < start && OffsetFits(whole[k], start - k)
    ensures HasFlushedCode(b, useBarrier, start, PatchLoads(whole, b.loads, start))
  {
    var code := PatchLoads(whole, b.loads, start);
    OthersAreKept(b, whole, start);
    forall i | 0 <= i < |b.pool| ensures code[start + i] == b.pool[i] {
      assert whole[start + i] == b.pool[i];
    }
  }

  /** Patching leaves the words behind the old code alone. */
  lemma OthersAreKept(b: Buffer, whole: seq<Word>, start: nat)
    requires |b.code| <= |whole|
    requires forall k :: k in b.loads ==> k < |b.code| && k < start && OffsetFits(whole[k], start - k)
    ensures var code := PatchLoads(whole, b.loads, start);
            |code| == |whole| && forall k :: |b.code| <= k < |code| ==> code[k] == whole[k]
  {
  }

  /** A pool can be placed: each load still fits, and the words around it are the ones expected. */
  lemma FlushedCode(b: Buffer, useBarrier: bool)
    requires CanFlush(b) && b.pool != []
    ensures HasFlushedCode(b, useBarrier, PoolStart(b, useBarrier), Flush(b, useBarrier).code)
  {
    var start, whole := PoolStart(b, useBarrier), BeforePool(b, useBarrier) + b.pool;
    PoolIsPlaced(b, useBarrier);
    LoadsFit(b, useBarrier, start, whole);
    LoadsArePatched(b, useBarrier, start, whole);
  }
}
