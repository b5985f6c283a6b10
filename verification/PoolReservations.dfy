/**
  Reservations: after asking for room, how many instructions are sure to be emitted without a flush in between, so that
  an offset noted now is where the next instruction lands.
 */
module PoolReservations {
  import opened ArmWord
  import opened ConstantPool
  import opened PoolRuns
  import opened ArmRuns

  /** What runs guarantee of the counters of a buffer. */
  predicate Budgeted(b: Buffer) {
    |b.reusable| == |b.pool| < 0x200 && b.lastConstDelta in {0, 4} && b.maxDistance <= MAX_POOL_SIZE
  }

  function Reset(b: Buffer): (r: Buffer) {
    if b.pool == [] then b.(maxDistance := MAX_POOL_SIZE) else b
  }

  predicate FlushesOn(b: Buffer, request: Request) {
    match request
    case Plain(_) => NeedsFlush(b, WORD_SIZE)
    case WithConstant(_, _, _) => NeedsFlushForConstant(Reset(b), WORD_SIZE, WORD_SIZE)
  }

  function Appended(b: Buffer, request: Request): (r: Buffer)
    requires |b.reusable| == |b.pool| < 0x200
  {
    match request
    case Plain(word) => AppendPlain(b, word)
    case WithConstant(insn, constant, isReusable) => AppendLoad(Reset(b), insn, constant, isReusable)
  }

  /** The requests are emitted one after the other, and none of them flushes the pool. */
  predicate Quiet(b: Buffer, requests: seq<Request>)
    decreases |requests|
  {
    requests != [] ==>
      && |b.reusable| == |b.pool| < 0x200
      && !FlushesOn(b, requests[0])
      && Quiet(Appended(b, requests[0]), requests[1..])
  }

  /** The word a request becomes: itself, or a load stamped with its entry in the pool. */
  function Emitted(b: Buffer, request: Request): (r: Word)
    requires |b.reusable| == |b.pool| < 0x200
  {
    match request
    case Plain(word) => word
    case WithConstant(insn, constant, isReusable) => StampIndex(insn, EntryFor(b, constant, isReusable))
  }

  /** The request's word is all that was added to the code, right at its end. */
  predicate LandsNext(b: Buffer, request: Request, after: Buffer) {
    |b.reusable| == |b.pool| < 0x200 && after.code == b.code + [Emitted(b, request)]
  }

  lemma {:induction false} AppendedLandsNext(b: Buffer, request: Request)
    requires |b.reusable| == |b.pool| < 0x200
    ensures LandsNext(b, request, Appended(b, request))
  {
    match request
    case Plain(_) =>
    case WithConstant(insn, constant, isReusable) =>
      SameEntry(b, Reset(b), constant, 0);
  }

  /** Where a constant is found does not depend on the distances. */
  lemma {:induction false} SameEntry(b: Buffer, c: Buffer, constant: Word, from: nat)
    requires b.pool == c.pool && b.reusable == c.reusable && |b.reusable| == |b.pool| && from <= |b.pool|
    ensures SharedEntry(b, constant, from) == SharedEntry(c, constant, from)
    decreases |b.pool| - from
  {
    if from < |b.pool| { SameEntry(b, c, constant, from + 1); }
  }

  /** The buffer after a request. */
  function Emit(b: Buffer, request: Request): (r: Buffer)
    requires Budgeted(b) && CanFlush(b)
  {
    match request
    case Plain(word) => PutInt(b, word)
    case WithConstant(insn, constant, isReusable) => PutIntWithConstantInt(b, insn, constant, isReusable)
  }

  /** A quiet request lands exactly at the end of the code that was there before it. */
  lemma QuietRequestLandsNext(b: Buffer, request: Request)
    requires Budgeted(b) && CanFlush(b) && !FlushesOn(b, request)
    ensures Emit(b, request) == Appended(b, request) && LandsNext(b, request, Emit(b, request))
  {
    AppendedLandsNext(b, request);
  }

  /** Room for `n` more requests of any kind. */
  predicate Room(b: Buffer, n: nat) {
    && Budgeted(b)
    && if b.pool == [] then n <= 508 else n > 0 ==> b.maxDistance >= 4 * n + 16 && |b.pool| + n <= 511
  }

  lemma {:induction false} RoomIsQuiet(b: Buffer, requests: seq<Request>)
    requires Room(b, |requests|)
    ensures Quiet(b, requests)
    decreases |requests|
  {
    if requests != [] {
      RoomShrinks(b, requests[0], |requests|);
      RoomIsQuiet(Appended(b, requests[0]), requests[1..]);
    }
  }

  lemma RoomShrinks(b: Buffer, request: Request, n: nat)
    requires Room(b, n) && n > 0
    ensures !FlushesOn(b, request) && Room(Appended(b, request), n - 1)
  {
  }

  /** `n` loads, each of a constant of its own. */
  function UniqueLoads(insn: LoadInsn, constant: Word, n: nat): (r: seq<Request>)
    ensures |r| == n
  {
    if n == 0 then [] else [WithConstant(insn, constant, false)] + UniqueLoads(insn, constant, n - 1)
  }

  lemma {:induction false} NoRoomForLoads(b: Buffer, insn: LoadInsn, constant: Word, n: nat)
    requires Budgeted(b) && b.pool != [] && b.lastConstDelta == 4
    requires n > 0 && b.maxDistance < 4 * n + 16
    ensures !Quiet(b, UniqueLoads(insn, constant, n))
    decreases n
  {
    var loads := UniqueLoads(insn, constant, n);
    assert loads[1..] == UniqueLoads(insn, constant, n - 1);
    if !FlushesOn(b, loads[0]) {
      NoRoomForLoads(Appended(b, loads[0]), insn, constant, n - 1);
    }
  }

  /** Right behind a load, `n` more loads of constants of their own do without a flush just when they have this much room. */
  lemma LoadsFitExactly(b: Buffer, insn: LoadInsn, constant: Word, n: nat)
    requires Budgeted(b) && b.pool != [] && b.lastConstDelta == 4
    ensures Quiet(b, UniqueLoads(insn, constant, n)) <==> n == 0 || (b.maxDistance >= 4 * n + 16 && |b.pool| + n <= 511)
  {
    if n > 0 && b.maxDistance < 4 * n + 16 {
      NoRoomForLoads(b, insn, constant, n);
    } else if n > 0 && |b.pool| + n > 511 {
      NoEntriesForLoads(b, insn, constant, n);
    } else {
      RoomIsQuiet(b, UniqueLoads(insn, constant, n));
    }
  }

  lemma {:induction false} NoEntriesForLoads(b: Buffer, insn: LoadInsn, constant: Word, n: nat)
    requires Budgeted(b) && b.pool != [] && n > 0 && |b.pool| + n > 511
    ensures !Quiet(b, UniqueLoads(insn, constant, n))
    decreases n
  {
    var loads := UniqueLoads(insn, constant, n);
    assert loads[1..] == UniqueLoads(insn, constant, n - 1);
    if !FlushesOn(b, loads[0]) {
      NoEntriesForLoads(Appended(b, loads[0]), insn, constant, n - 1);
    }
  }

  /** `n` instructions without constants. */
  function Plains(word: Word, n: nat): (r: seq<Request>)
    ensures |r| == n
  {
    if n == 0 then [] else [Plain(word)] + Plains(word, n - 1)
  }

  /** While constants wait, `n` instructions without any do without a flush just when they have this much room. */
  lemma {:induction false} PlainsFitExactly(b: Buffer, word: Word, n: nat)
    requires Budgeted(b) && b.pool != []
    ensures Quiet(b, Plains(word, n)) <==> n == 0 || b.maxDistance >= 4 * n + 8
    decreases n
  {
    if n > 0 {
      var plains := Plains(word, n);
      assert plains[1..] == Plains(word, n - 1);
      if !FlushesOn(b, plains[0]) {
        PlainsFitExactly(Appended(b, plains[0]), word, n - 1);
      }
    }
  }

  /**
    Making room for `i` words of code and `c` constants flushes only where `i + c + 1` loads of constants of their own would
    have. A reservation for `n` instructions of any kind is one for `n` words and `2 n` constants.
   */
  lemma ReservationFlushesWhenShort(b: Buffer, insnSpace: nat, constSpace: nat, insn: LoadInsn, constant: Word, i: nat, c: nat)
    requires Budgeted(b) && CanFlush(b) && insnSpace <= 4 * i && constSpace <= 4 * c
    requires EnsureSpace(b, insnSpace, constSpace) != b
    ensures !Quiet(b, UniqueLoads(insn, constant, i + c + 1))
  {
    var loads := UniqueLoads(insn, constant, i + c + 1);
    assert loads[1..] == UniqueLoads(insn, constant, i + c);
    assert NeedsFlushForConstant(b, insnSpace, constSpace);
    if !FlushesOn(b, loads[0]) {
      LoadsFitExactly(Appended(b, loads[0]), insn, constant, i + c);
    }
  }

  lemma AnyIsReservation(b: Buffer, n: nat)
    requires CanFlush(b)
    ensures EnsureSpaceForAnyInstruction(b, n) == EnsureSpace(b, 4 * n, 4 * (2 * n))
  {
  }

  lemma LoadsOverflowEmptyPool(b: Buffer, insn: LoadInsn, constant: Word, n: nat)
    requires Budgeted(b) && b.pool == [] && n > 508
    ensures !Quiet(b, UniqueLoads(insn, constant, n))
  {
    var loads := UniqueLoads(insn, constant, n);
    assert loads[1..] == UniqueLoads(insn, constant, n - 1);
    NoRoomForLoads(Appended(b, loads[0]), insn, constant, n - 1);
  }

  /** After `EnsureSpaceForAnyInstruction(amount)`: the pool is empty, or the reservation was already met. */
  predicate Reserved(b: Buffer, amount: nat) {
    !NeedsFlushForConstant(b, amount * WORD_SIZE, amount * 8)
  }

  lemma EnsureSpaceReserves(b: Buffer, amount: nat)
    requires CanFlush(b)
    ensures Reserved(EnsureSpaceForAnyInstruction(b, amount), amount)
  {
  }

  /**
    A reservation for `amount` instructions holds for all of them exactly when constants are waiting or `amount` is at
    most 508: with nothing waiting the source checks nothing, and 509 constant loads do not fit one pool.
   */
  lemma ReservationHolds(b: Buffer, amount: nat)
    requires Budgeted(b) && Reserved(b, amount)
    ensures (forall requests :: |requests| == amount ==> Quiet(b, requests)) <==> (b.pool != [] || amount <= 508)
  {
    if b.pool != [] || amount <= 508 {
      forall requests: seq<Request> | |requests| == amount ensures Quiet(b, requests) {
        RoomIsQuiet(b, requests);
      }
    } else {
      LoadsOverflowEmptyPool(b, JumpInsn(ALWAYS), INVALID_BRANCH_TARGET, amount);
    }
  }

  lemma InvIsBudgeted(s: State)
    requires Inv(s)
    ensures Budgeted(s.b)
  {
  }

  lemma ReservedOneIsQuiet(b: Buffer, request: Request)
    requires Budgeted(b) && Reserved(b, 1)
    ensures !FlushesOn(b, request)
  {
    RoomIsQuiet(b, [request]);
  }

  function PutOp(request: Request): (r: Op) {
    match request
    case Plain(word) => Put(word)
    case WithConstant(insn, constant, isReusable) => PutWithConstant(insn, constant, isReusable)
  }

  lemma PutStepEmits(a: Assembler, request: Request)
    requires AInv(a)
    ensures Budgeted(a.s.b) && CanFlush(a.s.b) && Step(a, PutOp(request)).s.b == Emit(a.s.b, request)
  {
    StepIsBufferStep(a, PutOp(request));
    InvIsBudgeted(a.s);
  }

  lemma QuietStepLandsNext(a: Assembler, request: Request)
    requires AInv(a) && !FlushesOn(a.s.b, request)
    ensures LandsNext(a.s.b, request, Step(a, PutOp(request)).s.b)
  {
    PutStepEmits(a, request);
    QuietRequestLandsNext(a.s.b, request);
  }

  /** In every run: a label asks for one instruction, and the next instruction, whatever it is, lands on it. */
  lemma LabelIsWhereNextLands(ops: seq<Op>, request: Request)
    ensures LandsNext(Run(ops + [ReserveAny(1)]).s.b, request, Run(ops + [ReserveAny(1)] + [PutOp(request)]).s.b)
  {
    var labelled := ops + [ReserveAny(1)];
    LabelReserves(ops);
    ReservedOneIsQuiet(Run(labelled).s.b, request);
    QuietStepLandsNext(Run(labelled), request);
    RunThen(labelled, PutOp(request));
  }

  lemma LabelReserves(ops: seq<Op>)
    ensures var b := Run(ops + [ReserveAny(1)]).s.b; Budgeted(b) && Reserved(b, 1)
  {
    RunThen(ops, ReserveAny(1));
    ReserveAnyReserves(Run(ops), 1);
    InvIsBudgeted(Run(ops + [ReserveAny(1)]).s);
  }

  /** In every run: a jump planted at a label is recorded there and lands there. */
  lemma LabelIsWhereJumpLands(ops: seq<Op>, cond: Bits4, useConstantPool: bool)
    ensures var a, t := Run(ops + [ReserveAny(1)]), Run(ops + [ReserveAny(1)] + [PlantJump(cond, useConstantPool)]);
            && LandsNext(a.s.b, JumpRequest(cond), t.s.b)
            && t.jumps == a.jumps + [Jump(|a.s.b.code|, cond, useConstantPool)]
  {
    var labelled := ops + [ReserveAny(1)];
    LabelReserves(ops);
    ReservedForLoad(Run(labelled).s.b);
    QuietJumpLandsNext(Run(labelled), cond, useConstantPool);
    RunThen(labelled, PlantJump(cond, useConstantPool));
  }

  lemma ReservedForLoad(b: Buffer)
    requires Reserved(b, 1)
    ensures !NeedsFlushForConstant(b, WORD_SIZE, WORD_SIZE)
  {
  }

  lemma QuietJumpLandsNext(a: Assembler, cond: Bits4, useConstantPool: bool)
    requires AInv(a) && !NeedsFlushForConstant(a.s.b, WORD_SIZE, WORD_SIZE)
    ensures var t := Step(a, PlantJump(cond, useConstantPool));
            && LandsNext(a.s.b, JumpRequest(cond), t.s.b)
            && t.jumps == a.jumps + [Jump(|a.s.b.code|, cond, useConstantPool)]
  {
    StepIsBufferStep(a, PlantJump(cond, useConstantPool));
    InvIsBudgeted(a.s);
    ReservedLoadIsQuiet(a.s.b, JumpInsn(cond), INVALID_BRANCH_TARGET, false);
    QuietRequestLandsNext(a.s.b, JumpRequest(cond));
  }

  lemma ReserveAnyReserves(a: Assembler, amount: nat)
    requires AInv(a)
    ensures Reserved(Step(a, ReserveAny(amount)).s.b, amount)
  {
    StepIsBufferStep(a, ReserveAny(amount));
    EnsureSpaceReserves(a.s.b, amount);
  }

  /** In every run: after room for one load and its constant is reserved, as a jump does, the load lands right there. */
  lemma ReservedLoadLandsNext(ops: seq<Op>, insn: LoadInsn, constant: Word, isReusable: bool)
    ensures var request := WithConstant(insn, constant, isReusable);
            var reserve := Reserve(WORD_SIZE, WORD_SIZE);
            LandsNext(Run(ops + [reserve]).s.b, request, Run(ops + [reserve] + [PutOp(request)]).s.b)
  {
    var reserved, request := ops + [Reserve(WORD_SIZE, WORD_SIZE)], WithConstant(insn, constant, isReusable);
    RunThen(ops, Reserve(WORD_SIZE, WORD_SIZE));
    ReserveReserves(Run(ops));
    ReservedLoadIsQuiet(Run(reserved).s.b, insn, constant, isReusable);
    QuietStepLandsNext(Run(reserved), request);
    RunThen(reserved, PutOp(request));
  }

  lemma ReservedLoadIsQuiet(b: Buffer, insn: LoadInsn, constant: Word, isReusable: bool)
    requires !NeedsFlushForConstant(b, WORD_SIZE, WORD_SIZE)
    ensures !FlushesOn(b, WithConstant(insn, constant, isReusable))
  {
  }

  lemma ReserveReserves(a: Assembler)
    requires AInv(a)
    ensures !NeedsFlushForConstant(Step(a, Reserve(WORD_SIZE, WORD_SIZE)).s.b, WORD_SIZE, WORD_SIZE)
  {
    StepIsBufferStep(a, Reserve(WORD_SIZE, WORD_SIZE));
  }

  // ----- flushing after a jump -----

  /**
    In every run: the flush offered after a jump places the pool, without a barrier, if it is forced or if more than 60% of
    its 2048 bytes are taken, and otherwise changes nothing.
   */
  lemma FlushAfterJumpWhenFull(ops: seq<Op>, isForced: bool)
    ensures var b, t := Run(ops).s.b, Run(ops + [FlushAfterJump(isForced)]).s.b;
            if b.pool != [] && (isForced || 100 * (WORD_SIZE * |b.pool|) > 60 * MAX_POOL_SIZE)
            then t.pool == [] && |t.code| == |b.code| + |b.code| % 2 + |b.pool|
            else t == b
  {
    RunThen(ops, FlushAfterJump(isForced));
    FlushStepWhenFull(Run(ops), isForced);
  }

  lemma FlushStepWhenFull(a: Assembler, isForced: bool)
    requires AInv(a)
    ensures var b, t := a.s.b, Step(a, FlushAfterJump(isForced)).s.b;
            if b.pool != [] && (isForced || 100 * (WORD_SIZE * |b.pool|) > 60 * MAX_POOL_SIZE)
            then t.pool == [] && |t.code| == |b.code| + |b.code| % 2 + |b.pool|
            else t == b
  {
    StepIsBufferStep(a, FlushAfterJump(isForced));
    if a.s.b.pool != [] { FlushedCode(a.s.b, false); }
  }

  // ----- how stale the distance gets -----

  lemma LoadLowersDistance(b: Buffer, insn: LoadInsn, constant: Word)
    requires Budgeted(b) && CanFlush(b)
    ensures var after := PutIntWithConstantInt(b, insn, constant, false);
            after.pool != [] && after.maxDistance == Reset(b).maxDistance - 4
  {
  }

  function LoadOps(insn: LoadInsn, constant: Word, n: nat): (r: seq<Op>) {
    if n == 0 then [] else LoadOps(insn, constant, n - 1) + [PutWithConstant(insn, constant, false)]
  }

  /**
    A run of nothing but constant loads lowers the distance by four each time, through every flush: it gets as negative
    as one likes while loads are waiting.
   */
  lemma {:induction false} DistanceGoesNegative(insn: LoadInsn, constant: Word, n: nat)
    requires n > 0
    ensures var b := Run(LoadOps(insn, constant, n)).s.b;
            b.pool != [] && b.maxDistance == MAX_POOL_SIZE - 4 * n
  {
    var ops := LoadOps(insn, constant, n - 1);
    if n > 1 { DistanceGoesNegative(insn, constant, n - 1); }
    var op := PutWithConstant(insn, constant, false);
    RunThen(ops, op);
    StepIsBufferStep(Run(ops), op);
    InvIsBudgeted(Run(ops).s);
    LoadLowersDistance(Run(ops).s.b, insn, constant);
  }
}
