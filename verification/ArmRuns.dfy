/**
  Whole runs of the ARM assembler's buffer: instructions, constant loads, jumps, flushes, reservations and links, in any
  order. Every run keeps the invariant of the buffer and emits the instructions asked for.
 */
module ArmRuns {
  import opened ArmWord
  import opened ConstantPool
  import opened PoolRuns

  /** `useConstantPool`: the jump must stay a load of the pc. */
  datatype Jump = Jump(at: nat, cond: Bits4, useConstantPool: bool)

  datatype Assembler = Assembler(s: State, jumps: seq<Jump>)

  const START := Assembler(State(EMPTY, [], [], [], map[]), [])

  datatype Op =
    | Put(word: Word)
    | PutWithConstant(insn: LoadInsn, constant: Word, isReusable: bool)
    | PlantJump(cond: Bits4, useConstantPool: bool)
    | FlushPool(useBarrier: bool)
    | FlushAfterJump(isForced: bool)
    | Reserve(insnSpace: nat, constSpace: nat)
    | ReserveAny(amount: nat)
    | Link(at: nat, target: Word)

  /** `ldr pc, [pc, #...]`: the load a jump is planted as. */
  function JumpInsn(cond: Bits4): (r: LoadInsn) {
    Word(cond, 5, true, 0x1f, 15, 0)
  }

  function JumpRequest(cond: Bits4): (r: Request) {
    WithConstant(JumpInsn(cond), INVALID_BRANCH_TARGET, false)
  }

  /** The instructions an operation asks for. */
  function Asked(op: Op): (r: seq<Request>) {
    match op
    case Put(word) => [Plain(word)]
    case PutWithConstant(insn, constant, isReusable) => [WithConstant(insn, constant, isReusable)]
    case PlantJump(cond, _) => [JumpRequest(cond)]
    case FlushPool(_) => []
    case FlushAfterJump(_) => []
    case Reserve(_, _) => []
    case ReserveAny(_) => []
    case Link(_, _) => []
  }

  /** The instructions in the code: barriers, padding and pools are left out. */
  function Instructions(roles: seq<Role>): (r: seq<Request>) {
    if roles == [] then []
    else
      var last := roles[|roles| - 1];
      Instructions(roles[..|roles| - 1]) + if last.Insn? then [last.request] else []
  }

  lemma InstructionsAppend(roles: seq<Role>, role: Role)
    ensures Instructions(roles + [role]) == Instructions(roles) + if role.Insn? then [role.request] else []
  {
    assert (roles + [role])[..|roles|] == roles;
  }

  lemma {:induction false} InstructionsSkip(roles: seq<Role>, more: seq<Role>)
    requires forall i :: 0 <= i < |more| ==> !more[i].Insn?
    ensures Instructions(roles + more) == Instructions(roles)
  {
    if more == [] {
      assert roles + more == roles;
    } else {
      var front, last := more[..|more| - 1], more[|more| - 1];
      InstructionsSkip(roles, front);
      InstructionsAppend(roles + front, last);
      assert roles + more == (roles + front) + [last];
    }
  }

  // ----- the steps -----

  /** What an operation does to the buffer and to the recorded jumps. Only planted jumps are linked. */
  ghost predicate BufferStep(b: Buffer, jumps: seq<Jump>, op: Op, b': Buffer, jumps': seq<Jump>) {
    && CanFlush(b) && |b.reusable| == |b.pool|
    && (!op.PlantJump? ==> jumps' == jumps)
    && match op
       case Put(word) => b' == PutInt(b, word)
       case PutWithConstant(insn, constant, isReusable) => b' == PutIntWithConstantInt(b, insn, constant, isReusable)
       case PlantJump(cond, useConstantPool) =>
         var r := EnsureSpace(b, WORD_SIZE, WORD_SIZE);
         && CanFlush(r) && |r.reusable| == |r.pool|
         && b' == PutIntWithConstantInt(r, JumpInsn(cond), INVALID_BRANCH_TARGET, false)
         && jumps' == jumps + [Jump(|r.code|, cond, useConstantPool)]
       case FlushPool(useBarrier) => b' == Flush(b, useBarrier)
       case FlushAfterJump(isForced) => b' == FlushWithoutBarrier(b, isForced)
       case Reserve(insnSpace, constSpace) => b' == EnsureSpace(b, insnSpace, constSpace)
       case ReserveAny(amount) => b' == EnsureSpaceForAnyInstruction(b, amount)
       case Link(at, target) =>
         && (exists i :: 0 <= i < |jumps| && jumps[i].at == at)
         && CanLink(b, at) && b' == LinkJump(b, at, target)
  }

  ghost predicate AInv(a: Assembler) {
    Inv(a.s) && JumpsPlanted(a.s.roles, a.jumps)
  }

  /** Every recorded offset is where a jump was planted. */
  ghost predicate JumpsPlanted(roles: seq<Role>, jumps: seq<Jump>) {
    && (forall i :: 0 <= i < |jumps| ==>
                      jumps[i].at < |roles| && roles[jumps[i].at] == Insn(JumpRequest(jumps[i].cond)))
    && (forall i, j :: 0 <= i < j < |jumps| ==> jumps[i].at < jumps[j].at)
  }

  /** `t` follows `a` with the given instructions and nothing else that executes. */
  ghost predicate Follows(a: Assembler, asked: seq<Request>, t: Assembler) {
    && AInv(t)
    && a.s.roles <= t.s.roles
    && Instructions(t.s.roles) == Instructions(a.s.roles) + asked
  }

  /** The assembler with its buffer further along. */
  ghost function Advance(a: Assembler, s: State, asked: seq<Request>): (t: Assembler)
    requires AInv(a) && Inv(s) && a.s.roles <= s.roles
    requires Instructions(s.roles) == Instructions(a.s.roles) + asked
    ensures Follows(a, asked, t) && t.s == s && t.jumps == a.jumps
  {
    a.(s := s)
  }

  ghost function FlushIf(s: State, needed: bool, useBarrier: bool): (t: State)
    requires Inv(s)
    ensures Inv(t) && CanFlush(s.b)
    ensures t.b == if needed then Flush(s.b, useBarrier) else s.b
    ensures s.roles <= t.roles && Instructions(t.roles) == Instructions(s.roles)
  {
    InvCanFlush(s);
    if needed then
      FlushFollows(s, useBarrier);
      DoFlush(s, useBarrier)
    else s
  }

  lemma FlushFollows(s: State, useBarrier: bool)
    requires Inv(s)
    ensures CanFlush(s.b)
    ensures var t := DoFlush(s, useBarrier);
            Inv(t) && t.b == Flush(s.b, useBarrier) && s.roles <= t.roles && Instructions(t.roles) == Instructions(s.roles)
  {
    InvCanFlush(s);
    FlushKeepsInv(s, useBarrier);
    FlushAddsNoInstruction(s, useBarrier);
  }

  lemma FlushAddsNoInstruction(s: State, useBarrier: bool)
    requires |s.roles| == |s.b.code|
    ensures var r := FlushedRoles(s, useBarrier); s.roles <= r && Instructions(r) == Instructions(s.roles)
  {
    var r := FlushedRoles(s, useBarrier);
    var more := r[|s.roles|..];
    forall i | 0 <= i < |more| ensures !more[i].Insn? { assert more[i] == r[|s.roles| + i]; }
    InstructionsSkip(s.roles, more);
    assert r == s.roles + more;
  }

  ghost function PutPlain(s: State, word: Word): (t: State)
    requires Inv(s)
    ensures Inv(t) && CanFlush(s.b) && t.b == PutInt(s.b, word)
    ensures s.roles <= t.roles && Instructions(t.roles) == Instructions(s.roles) + [Plain(word)]
  {
    var f := FlushIf(s, NeedsFlush(s.b, WORD_SIZE), true);
    AppendPlainKeepsInv(f, word);
    InstructionsAppend(f.roles, Insn(Plain(word)));
    DoAppendPlain(f, word)
  }

  ghost function PutLoad(s: State, insn: LoadInsn, constant: Word, isReusable: bool): (t: State)
    requires Inv(s)
    ensures Inv(t) && CanFlush(s.b) && t.b == PutIntWithConstantInt(s.b, insn, constant, isReusable)
    ensures s.roles <= t.roles
    ensures Instructions(t.roles) == Instructions(s.roles) + [WithConstant(insn, constant, isReusable)]
    ensures t.roles[|t.roles| - 1] == Insn(WithConstant(insn, constant, isReusable))
    ensures !NeedsFlushForConstant(s.b, WORD_SIZE, WORD_SIZE) ==> |t.roles| == |s.roles| + 1
  {
    var r := if s.b.pool == [] then s.(b := s.b.(maxDistance := MAX_POOL_SIZE)) else s;
    assert Inv(r) by { if s.b.pool == [] { ResetKeepsInv(s); } }
    var f := FlushIf(r, NeedsFlushForConstant(r.b, WORD_SIZE, WORD_SIZE), true);
    AppendLoadKeepsInv(f, insn, constant, isReusable);
    InstructionsAppend(f.roles, Insn(WithConstant(insn, constant, isReusable)));
    InvCanFlush(s);
    DoAppendLoad(f, insn, constant, isReusable)
  }

  lemma ResetKeepsInv(s: State)
    requires Inv(s) && s.b.pool == []
    ensures Inv(s.(b := s.b.(maxDistance := MAX_POOL_SIZE)))
  {
    var t := s.(b := s.b.(maxDistance := MAX_POOL_SIZE));
    forall i | 0 <= i < |t.placed| ensures Reads(t, t.placed[i]) { assert Reads(s, s.placed[i]); }
    forall k | 0 <= k < |t.roles| ensures RoleOk(t, k) { SameInstructionsKeepRole(s, t, k); }
  }

  /** The position of the load at word `at` in a list of loads, if its constant is its own. */
  ghost predicate IsUniqueLoad(loads: seq<Load>, i: nat, at: nat) {
    i < |loads| && loads[i].at == at && !loads[i].isReusable
  }

  ghost predicate HasUniqueLoad(s: State, at: nat) {
    || (exists i :: IsUniqueLoad(s.waiting, i, at))
    || (exists i :: IsUniqueLoad(s.placed, i, at))
  }

  /** The state with the load at `at` given a target. */
  ghost predicate IsLinkedAt(s: State, at: nat, target: Word, t: State) {
    Inv(t) && t.roles == s.roles && t.linked == s.linked[at := target] && CanLink(s.b, at) && t.b == LinkJump(s.b, at, target)
  }

  lemma LinksWaiting(s: State, i: nat, at: nat, target: Word)
    requires Inv(s) && IsUniqueLoad(s.waiting, i, at)
    ensures CanLink(s.b, at) && IsLinkedAt(s, at, target, DoLinkWaiting(s, i, target))
  {
    CanLinkLoads(s);
    LinkWaitingKeepsInv(s, i, target);
  }

  lemma LinksPlaced(s: State, i: nat, at: nat, target: Word)
    requires Inv(s) && IsUniqueLoad(s.placed, i, at)
    ensures CanLink(s.b, at) && IsLinkedAt(s, at, target, DoLinkPlaced(s, i, target))
  {
    CanLinkLoads(s);
    LinkPlacedKeepsInv(s, i, target);
  }

  /** Linking a load that does not exist, or whose constant is shared, is not something the source does: it is skipped. */
  ghost function LinkAt(s: State, at: nat, target: Word): (t: State)
    requires Inv(s)
    ensures if HasUniqueLoad(s, at) then IsLinkedAt(s, at, target, t) else t == s
  {
    if i :| IsUniqueLoad(s.waiting, i, at) then
      LinksWaiting(s, i, at, target);
      DoLinkWaiting(s, i, target)
    else if i :| IsUniqueLoad(s.placed, i, at) then
      LinksPlaced(s, i, at, target);
      DoLinkPlaced(s, i, target)
    else s
  }

  ghost function PutJump(a: Assembler, cond: Bits4, useConstantPool: bool): (t: Assembler)
    requires AInv(a)
    ensures Follows(a, [JumpRequest(cond)], t)
    ensures BufferStep(a.s.b, a.jumps, PlantJump(cond, useConstantPool), t.s.b, t.jumps)
  {
    var f := FlushIf(a.s, NeedsFlushForConstant(a.s.b, WORD_SIZE, WORD_SIZE), true);
    var s := PutLoad(f, JumpInsn(cond), INVALID_BRANCH_TARGET, false);
    JumpPlanted(a.s.roles, f.roles, s.roles, a.jumps, Jump(|f.roles|, cond, useConstantPool));
    InvCanFlush(f);
    Assembler(s, a.jumps + [Jump(|f.roles|, cond, useConstantPool)])
  }

  lemma JumpPlanted(roles: seq<Role>, before: seq<Role>, after: seq<Role>, jumps: seq<Jump>, jump: Jump)
    requires JumpsPlanted(roles, jumps) && roles <= before <= after
    requires |after| == |before| + 1 && jump.at == |before| && after[jump.at] == Insn(JumpRequest(jump.cond))
    ensures JumpsPlanted(after, jumps + [jump])
  {
  }

  ghost function FlushStep(a: Assembler, needed: bool, useBarrier: bool): (t: Assembler)
    requires AInv(a)
    ensures Follows(a, [], t)
    ensures CanFlush(a.s.b) && t.s.b == if needed then Flush(a.s.b, useBarrier) else a.s.b
  {
    Advance(a, FlushIf(a.s, needed, useBarrier), [])
  }

  ghost function PutStep(a: Assembler, request: Request): (t: Assembler)
    requires AInv(a)
    ensures Follows(a, [request], t)
  {
    match request
    case Plain(word) => Advance(a, PutPlain(a.s, word), [request])
    case WithConstant(insn, constant, isReusable) => Advance(a, PutLoad(a.s, insn, constant, isReusable), [request])
  }

  ghost function LinkStep(a: Assembler, at: nat, target: Word): (t: Assembler)
    requires AInv(a)
    ensures Follows(a, [], t)
  {
    Advance(a, LinkAt(a.s, at, target), [])
  }

  /** Whether an operation that emits no instruction flushes the pool. */
  predicate Flushes(b: Buffer, op: Op) {
    match op
    case FlushPool(_) => true
    case FlushAfterJump(isForced) => WantsFlush(b, isForced)
    case Reserve(insnSpace, constSpace) => NeedsFlushForConstant(b, insnSpace, constSpace)
    case ReserveAny(amount) => NeedsFlushForConstant(b, amount * WORD_SIZE, amount * 8)
    case _ => false
  }

  predicate UsesBarrier(op: Op) {
    !op.FlushAfterJump? && (op.FlushPool? ==> op.useBarrier)
  }

  ghost function EmittingStep(a: Assembler, op: Op): (t: Assembler)
    requires AInv(a) && (op.Put? || op.PutWithConstant? || op.PlantJump?)
    ensures Follows(a, Asked(op), t)
  {
    match op
    case Put(word) => PutStep(a, Plain(word))
    case PutWithConstant(insn, constant, isReusable) => PutStep(a, WithConstant(insn, constant, isReusable))
    case PlantJump(cond, useConstantPool) => PutJump(a, cond, useConstantPool)
  }

  ghost function Step(a: Assembler, op: Op): (t: Assembler)
    requires AInv(a)
    ensures Follows(a, Asked(op), t)
  {
    match op
    case Link(at, target) => LinkStep(a, at, target)
    case FlushPool(_) => FlushStep(a, Flushes(a.s.b, op), UsesBarrier(op))
    case FlushAfterJump(_) => FlushStep(a, Flushes(a.s.b, op), UsesBarrier(op))
    case Reserve(_, _) => FlushStep(a, Flushes(a.s.b, op), UsesBarrier(op))
    case ReserveAny(_) => FlushStep(a, Flushes(a.s.b, op), UsesBarrier(op))
    case _ => EmittingStep(a, op)
  }

  /** Steps take the buffer where the operations take it. */
  lemma StepIsBufferStep(a: Assembler, op: Op)
    requires AInv(a)
    requires op.Link? ==> exists i :: 0 <= i < |a.jumps| && a.jumps[i].at == op.at
    ensures var t := Step(a, op);
            BufferStep(a.s.b, a.jumps, op, t.s.b, t.jumps)
  {
    InvCanFlush(a.s);
    if op.Link? { JumpHasUniqueLoad(a, op.at); }
  }

  lemma JumpHasUniqueLoad(a: Assembler, at: nat)
    requires AInv(a) && exists i :: 0 <= i < |a.jumps| && a.jumps[i].at == at
    ensures HasUniqueLoad(a.s, at)
  {
    assert RoleOk(a.s, at);
    if i :| 0 <= i < |a.s.waiting| && a.s.waiting[i].at == at {
      assert Waits(a.s, a.s.waiting[i]) && IsUniqueLoad(a.s.waiting, i, at);
    } else {
      var i :| 0 <= i < |a.s.placed| && a.s.placed[i].at == at;
      assert Reads(a.s, a.s.placed[i]) && IsUniqueLoad(a.s.placed, i, at);
    }
  }

  function AllAsked(ops: seq<Op>): (r: seq<Request>) {
    if ops == [] then [] else AllAsked(ops[..|ops| - 1]) + Asked(ops[|ops| - 1])
  }

  ghost function Run(ops: seq<Op>): (t: Assembler)
    ensures AInv(t) && Instructions(t.s.roles) == AllAsked(ops)
  {
    if ops == [] then START else Step(Run(ops[..|ops| - 1]), ops[|ops| - 1])
  }

  lemma RunUnfolds(all: seq<Op>, ops: seq<Op>, op: Op)
    requires all != [] && ops == all[..|all| - 1] && op == all[|all| - 1]
    ensures Run(all) == Step(Run(ops), op)
  {
  }

  lemma RunThen(ops: seq<Op>, op: Op)
    ensures Run(ops + [op]) == Step(Run(ops), op)
  {
    RunUnfolds(ops + [op], ops, op);
  }
}
