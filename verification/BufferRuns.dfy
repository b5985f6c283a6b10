/**
  Runs seen from the buffer alone: the buffer and the recorded jumps after a list of operations. They are the ones of
  `ArmRuns.Run`, whose theorems therefore apply to whatever object computes these buffers.
 */
module BufferRuns {
  import opened ArmWord
  import opened ConstantPool
  import opened PoolRuns
  import opened ArmRuns
  import opened ArmCopy

  ghost predicate Reaches(ops: seq<Op>, b: Buffer, jumps: seq<Jump>)
    decreases |ops|
  {
    if ops == [] then b == EMPTY && jumps == []
    else
      var front, op := ops[..|ops| - 1], ops[|ops| - 1];
      exists b0, jumps0 :: Reaches(front, b0, jumps0) && BufferStep(b0, jumps0, op, b, jumps)
  }

  lemma ReachesThen(ops: seq<Op>, b: Buffer, jumps: seq<Jump>, op: Op, b': Buffer, jumps': seq<Jump>)
    requires Reaches(ops, b, jumps) && BufferStep(b, jumps, op, b', jumps')
    ensures Reaches(ops + [op], b', jumps')
  {
    assert (ops + [op])[..|ops|] == ops;
  }

  lemma BufferStepIsFunctional(b: Buffer, jumps: seq<Jump>, op: Op, b': Buffer, jumps': seq<Jump>,
                               b'': Buffer, jumps'': seq<Jump>)
    requires BufferStep(b, jumps, op, b', jumps') && BufferStep(b, jumps, op, b'', jumps'')
    ensures b' == b'' && jumps' == jumps''
  {
  }

  lemma ReachedFrom(ops: seq<Op>, b: Buffer, jumps: seq<Jump>) returns (b0: Buffer, jumps0: seq<Jump>)
    requires ops != [] && Reaches(ops, b, jumps)
    ensures Reaches(ops[..|ops| - 1], b0, jumps0) && BufferStep(b0, jumps0, ops[|ops| - 1], b, jumps)
  {
    var front, op := ops[..|ops| - 1], ops[|ops| - 1];
    b0, jumps0 :| Reaches(front, b0, jumps0) && BufferStep(b0, jumps0, op, b, jumps);
  }

  /** The buffer that is reached is the one of the run. */
  lemma {:induction false} ReachesIsRun(ops: seq<Op>, b: Buffer, jumps: seq<Jump>)
    requires Reaches(ops, b, jumps)
    ensures RunsTo(ops, b, jumps)
    decreases |ops|
  {
    if ops != [] {
      var b0, jumps0 := ReachedFrom(ops, b, jumps);
      ReachesIsRun(ops[..|ops| - 1], b0, jumps0);
      RunsOn(ops, b0, jumps0, b, jumps);
    }
  }

  ghost predicate RunsTo(ops: seq<Op>, b: Buffer, jumps: seq<Jump>) {
    Run(ops).s.b == b && Run(ops).jumps == jumps
  }

  lemma RunsOn(ops: seq<Op>, b0: Buffer, jumps0: seq<Jump>, b: Buffer, jumps: seq<Jump>)
    requires ops != [] && RunsTo(ops[..|ops| - 1], b0, jumps0) && BufferStep(b0, jumps0, ops[|ops| - 1], b, jumps)
    ensures RunsTo(ops, b, jumps)
  {
    StepAgrees(Run(ops[..|ops| - 1]), ops[|ops| - 1], b, jumps);
  }

  lemma StepAgrees(a: Assembler, op: Op, b: Buffer, jumps: seq<Jump>)
    requires AInv(a) && BufferStep(a.s.b, a.jumps, op, b, jumps)
    ensures Step(a, op).s.b == b && Step(a, op).jumps == jumps
  {
    StepIsBufferStep(a, op);
    BufferStepIsFunctional(a.s.b, a.jumps, op, b, jumps, Step(a, op).s.b, Step(a, op).jumps);
  }

  /** What the operations rely on. */
  ghost predicate Usable(b: Buffer, jumps: seq<Jump>) {
    && CanFlush(b) && |b.reusable| == |b.pool|
    && (forall i, j :: 0 <= i < j < |b.loads| ==> b.loads[i] < b.loads[j])
    && (forall i :: 0 <= i < |jumps| ==> CanLink(b, jumps[i].at))
  }

  lemma RunIsUsable(a: Assembler)
    requires AInv(a)
    ensures Usable(a.s.b, a.jumps)
  {
    InvCanFlush(a.s);
    assert Separate(a.s.waiting);
    CanLinkLoads(a.s);
    forall i | 0 <= i < |a.jumps| ensures CanLink(a.s.b, a.jumps[i].at) {
      JumpHasUniqueLoad(a, a.jumps[i].at);
    }
  }

  lemma ReachedIsUsable(ops: seq<Op>, b: Buffer, jumps: seq<Jump>)
    requires Reaches(ops, b, jumps)
    ensures Usable(b, jumps)
  {
    ReachesIsRun(ops, b, jumps);
    RunIsUsable(Run(ops));
  }

  // Steps of the object, from what it relies on.

  lemma ReachesFlushAfterJump(ops: seq<Op>, b: Buffer, jumps: seq<Jump>, isForced: bool)
    requires Reaches(ops, b, jumps) && CanFlush(b) && |b.reusable| == |b.pool|
    ensures Reaches(ops + [FlushAfterJump(isForced)], FlushWithoutBarrier(b, isForced), jumps)
  {
    ReachesThen(ops, b, jumps, FlushAfterJump(isForced), FlushWithoutBarrier(b, isForced), jumps);
  }

  lemma ReachesReserve(ops: seq<Op>, b: Buffer, jumps: seq<Jump>, insnSpace: nat, constSpace: nat)
    requires Reaches(ops, b, jumps) && CanFlush(b) && |b.reusable| == |b.pool|
    ensures Reaches(ops + [Reserve(insnSpace, constSpace)], EnsureSpace(b, insnSpace, constSpace), jumps)
  {
    ReachesThen(ops, b, jumps, Reserve(insnSpace, constSpace), EnsureSpace(b, insnSpace, constSpace), jumps);
  }

  lemma ReachesPlantJump(ops: seq<Op>, b: Buffer, jumps: seq<Jump>, cond: Bits4, useConstantPool: bool, r: Buffer)
    requires Reaches(ops, b, jumps) && CanFlush(b) && |b.reusable| == |b.pool|
    requires r == EnsureSpace(b, WORD_SIZE, WORD_SIZE) && CanFlush(r) && |r.reusable| == |r.pool|
    ensures Reaches(ops + [PlantJump(cond, useConstantPool)],
                    PutIntWithConstantInt(r, JumpInsn(cond), INVALID_BRANCH_TARGET, false),
                    jumps + [Jump(|r.code|, cond, useConstantPool)])
  {
    ReachesThen(ops, b, jumps, PlantJump(cond, useConstantPool),
                PutIntWithConstantInt(r, JumpInsn(cond), INVALID_BRANCH_TARGET, false),
                jumps + [Jump(|r.code|, cond, useConstantPool)]);
  }

  /** The code after the last flush and the padding, just before the jumps are resolved. */
  function FinishedCode(b: Buffer): (r: seq<Word>)
    requires CanFlush(b)
  {
    var f := Flush(b, false);
    if |f.code| % 2 == 0 then f.code else f.code + [BKPT]
  }

  lemma ReachedCanBeCopied(ops: seq<Op>, b: Buffer, jumps: seq<Jump>, to: UInt32)
    requires Reaches(ops, b, jumps)
    ensures CanFlush(b) && Ready(FinishedCode(b), jumps)
    ensures ExecutableCopy(Run(ops), to) == ResolveJumps(FinishedCode(b), jumps, to)
  {
    ReachesIsRun(ops, b, jumps);
    FinishIsFinished(Run(ops), to);
  }

  lemma FinishIsFinished(a: Assembler, to: UInt32)
    requires AInv(a)
    ensures CanFlush(a.s.b) && Finish(a).s.b.code == FinishedCode(a.s.b)
    ensures Ready(FinishedCode(a.s.b), a.jumps)
    ensures ExecutableCopy(a, to) == ResolveJumps(FinishedCode(a.s.b), a.jumps, to)
  {
    PlantedJumpsAreReady(Finish(a));
  }
}
