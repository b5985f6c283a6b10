/**
  Sharing of constants: a reusable constant that is waiting already gets no second entry, and no other load shares one.
 */
module PoolSharing {
  import opened ArmWord
  import opened ConstantPool
  import opened PoolRuns
  import opened ArmRuns
  import opened PoolTheorems
  import opened PoolReservations

  /** Later loads may share an entry with this constant. */
  predicate IsShareable(b: Buffer, constant: Word) {
    exists i :: 0 <= i < |b.pool| && i < |b.reusable| && b.reusable[i] && b.pool[i] == constant
  }

  /** No two entries that may be shared hold the same constant. */
  predicate NoneTwice(b: Buffer) {
    forall i, j :: 0 <= i < j < |b.pool| && j < |b.reusable| && b.reusable[i] && b.reusable[j] ==> b.pool[i] != b.pool[j]
  }

  // ----- one load -----

  lemma EntryOfShareable(b: Buffer, constant: Word, isReusable: bool)
    requires |b.reusable| == |b.pool|
    ensures var entry := EntryFor(b, constant, isReusable);
            && (entry < |b.pool| <==> isReusable && IsShareable(b, constant))
            && (entry < |b.pool| ==> b.pool[entry] == constant)
  {
  }

  /** A load adds an entry for its constant, unless it shares one that is there. */
  predicate SharesOrAdds(b: Buffer, constant: Word, isReusable: bool, after: Buffer) {
    if isReusable && IsShareable(b, constant) then after.pool == b.pool && after.reusable == b.reusable
    else after.pool == b.pool + [constant] && after.reusable == b.reusable + [isReusable]
  }

  lemma AppendSharesOrAdds(b: Buffer, insn: Word, constant: Word, isReusable: bool)
    requires |b.reusable| == |b.pool| < 0x200
    ensures SharesOrAdds(b, constant, isReusable, AppendLoad(b, insn, constant, isReusable))
  {
    EntryOfShareable(b, constant, isReusable);
  }

  lemma SharesOrAddsKeeps(b: Buffer, constant: Word, isReusable: bool, after: Buffer)
    requires |b.reusable| == |b.pool| && NoneTwice(b) && SharesOrAdds(b, constant, isReusable, after)
    ensures NoneTwice(after)
  {
  }

  // ----- whole runs -----

  lemma FlushKeepsNoneTwice(b: Buffer, useBarrier: bool)
    requires CanFlush(b) && NoneTwice(b)
    ensures NoneTwice(Flush(b, useBarrier))
  {
  }

  /** The buffer a constant is put into: as it was, or with its pool placed. */
  lemma BeforeLoadPool(b: Buffer)
    requires CanFlush(b) && |b.reusable| == |b.pool|
    ensures var r := BeforeLoad(b);
            |r.reusable| == |r.pool| && ((r.pool == b.pool && r.reusable == b.reusable) || r.pool == [])
  {
  }

  lemma PutLoadKeepsNoneTwice(b: Buffer, insn: Word, constant: Word, isReusable: bool)
    requires CanFlush(b) && |b.reusable| == |b.pool| < 0x200 && NoneTwice(b)
    ensures NoneTwice(PutIntWithConstantInt(b, insn, constant, isReusable))
  {
    var r := BeforeLoad(b);
    BeforeLoadPool(b);
    AppendSharesOrAdds(r, insn, constant, isReusable);
    SharesOrAddsKeeps(r, constant, isReusable, AppendLoad(r, insn, constant, isReusable));
  }

  lemma WaitingLinkKeeps(s: State, l: Load, target: Word)
    requires Waits(s, l) && !l.isReusable && CanLink(s.b, l.at) && NoneTwice(s.b)
    ensures NoneTwice(LinkJump(s.b, l.at, target))
  {
    UnsharedWriteKeeps(s.b, l.slot, target);
  }

  lemma PlacedLinkKeeps(s: State, l: Load, target: Word)
    requires Reads(s, l) && CanLink(s.b, l.at) && NoneTwice(s.b)
    ensures NoneTwice(LinkJump(s.b, l.at, target))
  {
  }

  lemma UniqueLinkKeeps(s: State, at: nat, target: Word)
    requires Loads(s) && HasUniqueLoad(s, at) && CanLink(s.b, at) && NoneTwice(s.b)
    ensures NoneTwice(LinkJump(s.b, at, target))
  {
    if i: nat :| IsUniqueLoad(s.waiting, i, at) {
      WaitingLinkKeeps(s, s.waiting[i], target);
    } else {
      var i: nat :| IsUniqueLoad(s.placed, i, at);
      PlacedLinkKeeps(s, s.placed[i], target);
    }
  }

  /** Linking writes only entries that are not shared. */
  lemma LinkKeepsNoneTwice(s: State, at: nat, target: Word)
    requires Inv(s) && NoneTwice(s.b)
    ensures NoneTwice(LinkAt(s, at, target).b)
  {
    var t := LinkAt(s, at, target);
    if HasUniqueLoad(s, at) {
      UniqueLinkKeeps(s, at, target);
    }
  }

  lemma UnsharedWriteKeeps(b: Buffer, entry: nat, target: Word)
    requires NoneTwice(b) && entry < |b.pool| == |b.reusable| && !b.reusable[entry]
    ensures NoneTwice(b.(pool := b.pool[entry := target]))
  {
  }

  lemma StepKeepsNoneTwice(a: Assembler, op: Op)
    requires AInv(a) && NoneTwice(a.s.b)
    ensures NoneTwice(Step(a, op).s.b)
  {
    if op.Link? {
      StepIsLink(a, op.at, op.target);
      LinkKeepsNoneTwice(a.s, op.at, op.target);
    } else {
      StepIsBufferStep(a, op);
      BufferStepKeepsNoneTwice(a.s.b, a.jumps, op, Step(a, op).s.b, Step(a, op).jumps);
    }
  }

  lemma BufferStepKeepsNoneTwice(b: Buffer, jumps: seq<Jump>, op: Op, b': Buffer, jumps': seq<Jump>)
    requires BufferStep(b, jumps, op, b', jumps') && NoneTwice(b) && !op.Link?
    ensures NoneTwice(b')
  {
    FlushKeepsNoneTwice(b, true);
    FlushKeepsNoneTwice(b, false);
    match op {
      case Put(_) =>
      case PutWithConstant(insn, constant, isReusable) => PutLoadKeepsNoneTwice(b, insn, constant, isReusable);
      case PlantJump(cond, _) =>
        PutLoadKeepsNoneTwice(EnsureSpace(b, WORD_SIZE, WORD_SIZE), JumpInsn(cond), INVALID_BRANCH_TARGET, false);
      case _ =>
    }
  }

  ghost predicate RunHasNoneTwice(ops: seq<Op>) {
    NoneTwice(Run(ops).s.b)
  }

  lemma OneMoreHasNoneTwice(ops: seq<Op>)
    requires ops != [] && RunHasNoneTwice(ops[..|ops| - 1])
    ensures RunHasNoneTwice(ops)
  {
    RunUnfolds(ops, ops[..|ops| - 1], ops[|ops| - 1]);
    StepKeepsNoneTwice(Run(ops[..|ops| - 1]), ops[|ops| - 1]);
  }

  /** In every run, no two entries that may be shared hold the same constant. */
  lemma {:induction false} NoConstantWaitsTwice(ops: seq<Op>)
    ensures RunHasNoneTwice(ops)
    decreases |ops|
  {
    if ops != [] {
      NoConstantWaitsTwice(ops[..|ops| - 1]);
      OneMoreHasNoneTwice(ops);
    }
  }

  /** What a load that does not flush does to the pool, and that its word is stamped with the entry of its constant. */
  ghost predicate LoadShares(b: Buffer, insn: LoadInsn, constant: Word, isReusable: bool, after: Buffer) {
    && SharesOrAdds(b, constant, isReusable, after)
    && exists entry :: 0 <= entry < |after.pool| <= 0x200 && after.pool[entry] == constant
                       && (entry < |b.pool| <==> isReusable && IsShareable(b, constant))
                       && after.code == b.code + [StampIndex(insn, entry)]
  }

  lemma AppendShares(b: Buffer, insn: LoadInsn, constant: Word, isReusable: bool)
    requires |b.reusable| == |b.pool| < 0x200
    ensures LoadShares(b, insn, constant, isReusable, AppendLoad(b, insn, constant, isReusable))
  {
    var entry := EntryFor(b, constant, isReusable);
    EntryOfShareable(b, constant, isReusable);
    AppendSharesOrAdds(b, insn, constant, isReusable);
    assert AppendLoad(b, insn, constant, isReusable).code == b.code + [StampIndex(insn, entry)];
  }

  /** The distance does not matter to sharing. */
  lemma ResetShares(b: Buffer, insn: LoadInsn, constant: Word, isReusable: bool, after: Buffer)
    requires LoadShares(Reset(b), insn, constant, isReusable, after)
    ensures LoadShares(b, insn, constant, isReusable, after)
  {
  }

  /**
    In every run, a load that does not flush shares the entry of its constant if both are reusable, leaving the pool as
    it is, and otherwise adds one.
   */
  lemma EveryLoadShares(ops: seq<Op>, insn: LoadInsn, constant: Word, isReusable: bool)
    requires !FlushesOn(Run(ops).s.b, WithConstant(insn, constant, isReusable))
    ensures LoadShares(Run(ops).s.b, insn, constant, isReusable,
                       Run(ops + [PutWithConstant(insn, constant, isReusable)]).s.b)
  {
    var b, request := Run(ops).s.b, WithConstant(insn, constant, isReusable);
    RunThen(ops, PutOp(request));
    PutStepEmits(Run(ops), request);
    QuietRequestLandsNext(b, request);
    AppendShares(Reset(b), insn, constant, isReusable);
    ResetShares(b, insn, constant, isReusable, Emit(b, request));
  }
}
