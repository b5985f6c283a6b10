/**
  Execution of the code with its pools in it, by following its words: every pool is jumped over, or stands behind an
  instruction that never goes on to the next word.
 */
module PoolExecution {
  import opened ArmWord
  import opened ConstantPool
  import opened PoolRuns
  import opened ArmRuns
  import opened PoolTheorems

  /** A word of a pool follows an instruction only if that instruction leaves: it never goes on to the next word. */
  ghost predicate Guarded(roles: seq<Role>, leaves: Request -> bool) {
    forall k :: 0 < k < |roles| && InPool(roles[k]) && roles[k - 1].Insn? ==> leaves(roles[k - 1].request)
  }

  /** If this flush places a pool and no barrier, the last instruction before it leaves. */
  predicate FlushIsSafe(s: State, needed: bool, useBarrier: bool, leaves: Request -> bool) {
    needed && s.b.pool != [] && !useBarrier ==>
      s.roles != [] && s.roles[|s.roles| - 1].Insn? && leaves(s.roles[|s.roles| - 1].request)
  }

  lemma FlushGuards(s: State, roles: seq<Role>, useBarrier: bool, start: nat, leaves: Request -> bool)
    requires HasFlushedRoles(s, useBarrier, start, roles) && s.b.pool != []
    requires s.roles != [] && s.roles[|s.roles| - 1].Insn? && (useBarrier ==> |s.roles| < start)
    ensures Guarded(roles, leaves) <==> Guarded(s.roles, leaves) && FlushIsSafe(s, true, useBarrier, leaves)
  {
    var n := |s.roles|;
    if Guarded(roles, leaves) {
      assert roles[n - 1] == s.roles[n - 1];
      assert !useBarrier ==> InPool(roles[n]);
      forall k | 0 < k < n && InPool(s.roles[k]) && s.roles[k - 1].Insn? ensures leaves(s.roles[k - 1].request) {
        assert roles[k] == s.roles[k] && roles[k - 1] == s.roles[k - 1];
      }
    }
  }

  lemma FlushIfGuards(s: State, needed: bool, useBarrier: bool, leaves: Request -> bool)
    requires Inv(s)
    ensures Guarded(FlushIf(s, needed, useBarrier).roles, leaves)
       <==> Guarded(s.roles, leaves) && FlushIsSafe(s, needed, useBarrier, leaves)
  {
    if needed && s.b.pool != [] {
      FlushHasRoles(s, useBarrier);
      FlushFollowsInstruction(s);
      FlushGuards(s, FlushedRoles(s, useBarrier), useBarrier, PoolStart(s.b, useBarrier), leaves);
    }
  }

  lemma InsnGuards(roles: seq<Role>, request: Request, leaves: Request -> bool)
    ensures Guarded(roles + [Insn(request)], leaves) <==> Guarded(roles, leaves)
  {
    var all := roles + [Insn(request)];
    assert forall k :: 0 <= k < |roles| ==> all[k] == roles[k];
    if Guarded(all, leaves) {
      forall k | 0 < k < |roles| && InPool(roles[k]) && roles[k - 1].Insn? ensures leaves(roles[k - 1].request) {
        assert all[k] == roles[k] && all[k - 1] == roles[k - 1];
      }
    }
  }

  lemma PutPlainRoles(s: State, word: Word)
    requires Inv(s)
    ensures PutPlain(s, word).roles == FlushIf(s, NeedsFlush(s.b, WORD_SIZE), true).roles + [Insn(Plain(word))]
  {
  }

  lemma PutPlainGuards(s: State, word: Word, leaves: Request -> bool)
    requires Inv(s)
    ensures Guarded(PutPlain(s, word).roles, leaves) <==> Guarded(s.roles, leaves)
  {
    var needed := NeedsFlush(s.b, WORD_SIZE);
    PutPlainRoles(s, word);
    FlushIfGuards(s, needed, true, leaves);
    InsnGuards(FlushIf(s, needed, true).roles, Plain(word), leaves);
  }

  /** The state a constant load is put into, before any flush. */
  ghost function BeforePut(s: State): (r: State)
    requires Inv(s)
    ensures Inv(r) && r.roles == s.roles
  {
    if s.b.pool == [] then
      ResetKeepsInv(s);
      s.(b := s.b.(maxDistance := MAX_POOL_SIZE))
    else s
  }

  lemma PutLoadRoles(s: State, insn: LoadInsn, constant: Word, isReusable: bool)
    requires Inv(s)
    ensures var r := BeforePut(s);
            PutLoad(s, insn, constant, isReusable).roles
            == FlushIf(r, NeedsFlushForConstant(r.b, WORD_SIZE, WORD_SIZE), true).roles
               + [Insn(WithConstant(insn, constant, isReusable))]
  {
  }

  lemma PutLoadGuards(s: State, insn: LoadInsn, constant: Word, isReusable: bool, leaves: Request -> bool)
    requires Inv(s)
    ensures Guarded(PutLoad(s, insn, constant, isReusable).roles, leaves) <==> Guarded(s.roles, leaves)
  {
    var r := BeforePut(s);
    var needed := NeedsFlushForConstant(r.b, WORD_SIZE, WORD_SIZE);
    PutLoadRoles(s, insn, constant, isReusable);
    FlushIfGuards(r, needed, true, leaves);
    InsnGuards(FlushIf(r, needed, true).roles, WithConstant(insn, constant, isReusable), leaves);
  }

  lemma PutJumpGuards(a: Assembler, cond: Bits4, useConstantPool: bool, leaves: Request -> bool)
    requires AInv(a)
    ensures Guarded(PutJump(a, cond, useConstantPool).s.roles, leaves) <==> Guarded(a.s.roles, leaves)
  {
    var needed := NeedsFlushForConstant(a.s.b, WORD_SIZE, WORD_SIZE);
    FlushIfGuards(a.s, needed, true, leaves);
    PutLoadGuards(FlushIf(a.s, needed, true), JumpInsn(cond), INVALID_BRANCH_TARGET, false, leaves);
  }

  lemma PutGuards(a: Assembler, request: Request, leaves: Request -> bool)
    requires AInv(a)
    ensures Guarded(PutStep(a, request).s.roles, leaves) <==> Guarded(a.s.roles, leaves)
  {
    match request
    case Plain(word) => PutPlainGuards(a.s, word, leaves);
    case WithConstant(insn, constant, isReusable) => PutLoadGuards(a.s, insn, constant, isReusable, leaves);
  }

  lemma EmittingGuards(a: Assembler, op: Op, leaves: Request -> bool)
    requires AInv(a) && (op.Put? || op.PutWithConstant? || op.PlantJump?)
    ensures Guarded(EmittingStep(a, op).s.roles, leaves) <==> Guarded(a.s.roles, leaves)
  {
    match op
    case Put(word) => PutGuards(a, Plain(word), leaves);
    case PutWithConstant(insn, constant, isReusable) => PutGuards(a, WithConstant(insn, constant, isReusable), leaves);
    case PlantJump(cond, useConstantPool) => PutJumpGuards(a, cond, useConstantPool, leaves);
  }

  /** The operation places no pool without a barrier, unless behind an instruction that leaves. */
  predicate OpIsSafe(s: State, op: Op, leaves: Request -> bool) {
    FlushIsSafe(s, Flushes(s.b, op), UsesBarrier(op), leaves)
  }

  lemma StepGuards(a: Assembler, op: Op, leaves: Request -> bool)
    requires AInv(a)
    ensures Guarded(Step(a, op).s.roles, leaves) <==> Guarded(a.s.roles, leaves) && OpIsSafe(a.s, op, leaves)
  {
    if op.Put? || op.PutWithConstant? || op.PlantJump? {
      StepIsEmitting(a, op);
      EmittingGuards(a, op, leaves);
    } else if op.Link? {
      LinkGuards(a, op.at, op.target, leaves);
    } else {
      StepIsFlush(a, op);
      FlushIfGuards(a.s, Flushes(a.s.b, op), UsesBarrier(op), leaves);
    }
  }

  lemma LinkGuards(a: Assembler, at: nat, target: Word, leaves: Request -> bool)
    requires AInv(a)
    ensures Guarded(Step(a, Link(at, target)).s.roles, leaves) <==> Guarded(a.s.roles, leaves)
  {
    StepIsLink(a, at, target);
    assert LinkAt(a.s, at, target).roles == a.s.roles;
  }

  lemma StepIsEmitting(a: Assembler, op: Op)
    requires AInv(a) && (op.Put? || op.PutWithConstant? || op.PlantJump?)
    ensures Step(a, op) == EmittingStep(a, op)
  {
  }

  lemma StepIsFlush(a: Assembler, op: Op)
    requires AInv(a) && (op.FlushPool? || op.FlushAfterJump? || op.Reserve? || op.ReserveAny?)
    ensures Step(a, op).s == FlushIf(a.s, Flushes(a.s.b, op), UsesBarrier(op))
  {
  }

  ghost predicate RunsGuarded(ops: seq<Op>, leaves: Request -> bool) {
    Guarded(Run(ops).s.roles, leaves)
  }

  ghost predicate SafeAfter(ops: seq<Op>, op: Op, leaves: Request -> bool) {
    OpIsSafe(Run(ops).s, op, leaves)
  }

  /** Pools without a barrier are placed only behind instructions that leave. */
  ghost predicate FlushesSafely(ops: seq<Op>, leaves: Request -> bool) {
    ops == [] || (FlushesSafely(ops[..|ops| - 1], leaves) && SafeAfter(ops[..|ops| - 1], ops[|ops| - 1], leaves))
  }

  lemma OneMoreGuards(ops: seq<Op>, leaves: Request -> bool)
    requires ops != []
    ensures var before := ops[..|ops| - 1];
            RunsGuarded(ops, leaves) <==> RunsGuarded(before, leaves) && SafeAfter(before, ops[|ops| - 1], leaves)
  {
    RunUnfolds(ops, ops[..|ops| - 1], ops[|ops| - 1]);
    StepGuards(Run(ops[..|ops| - 1]), ops[|ops| - 1], leaves);
  }

  /** Pools are guarded in a run if and only if those without a barrier were placed behind instructions that leave. */
  lemma {:induction false} RunIsGuarded(ops: seq<Op>, leaves: Request -> bool)
    ensures RunsGuarded(ops, leaves) <==> FlushesSafely(ops, leaves)
    decreases |ops|
  {
    if ops != [] {
      RunIsGuarded(ops[..|ops| - 1], leaves);
      OneMoreGuards(ops, leaves);
    }
  }

  // ----- execution -----

  /**
    The words executed from word `k` on, until an instruction leaves. An instruction that was asked for goes on to the
    next word. Any other word is decoded: an unconditional branch forward is followed, and nothing else is.
   */
  function Walk(code: seq<Word>, roles: seq<Role>, leaves: Request -> bool, k: nat): (path: seq<nat>)
    requires |code| == |roles|
    ensures forall i :: 0 <= i < |path| ==> path[i] < |roles|
    decreases |roles| - k
  {
    if k >= |roles| then []
    else if roles[k].Insn? then [k] + if leaves(roles[k].request) then [] else Walk(code, roles, leaves, k + 1)
    else
      var to := BranchAddress(code[k], WORD_SIZE * k) / WORD_SIZE;
      [k] + if IsBranch(code[k]) && code[k].cond == ALWAYS && to > k then Walk(code, roles, leaves, to) else []
  }

  function RolesAt(roles: seq<Role>, path: seq<nat>): (r: seq<Role>)
    requires forall i :: 0 <= i < |path| ==> path[i] < |roles|
    ensures |r| == |path|
  {
    seq(|path|, i requires 0 <= i < |path| => roles[path[i]])
  }

  /** The requests up to the first that leaves. */
  function UpToLeaving(requests: seq<Request>, leaves: Request -> bool): (r: seq<Request>) {
    if requests == [] then []
    else [requests[0]] + if leaves(requests[0]) then [] else UpToLeaving(requests[1..], leaves)
  }

  /** The path has no word of a pool in it, and its instructions are those of the code from `k` until one leaves. */
  ghost predicate IsPath(roles: seq<Role>, leaves: Request -> bool, k: nat, path: seq<nat>)
    requires k <= |roles|
  {
    && (forall i :: 0 <= i < |path| ==> path[i] < |roles| && !InPool(roles[path[i]]))
    && Instructions(RolesAt(roles, path)) == UpToLeaving(Instructions(roles[k..]), leaves)
  }

  ghost predicate ExecutesFrom(code: seq<Word>, roles: seq<Role>, leaves: Request -> bool, k: nat)
    requires |code| == |roles| && k <= |roles|
  {
    IsPath(roles, leaves, k, Walk(code, roles, leaves, k))
  }

  lemma {:induction false} InstructionsConcat(a: seq<Role>, b: seq<Role>)
    ensures Instructions(a + b) == Instructions(a) + Instructions(b)
    decreases |b|
  {
    if b == [] {
      assert a + b == a;
    } else {
      var front, last := b[..|b| - 1], b[|b| - 1];
      InstructionsConcat(a, front);
      InstructionsAppend(a + front, last);
      InstructionsAppend(front, last);
      assert a + b == (a + front) + [last] && b == front + [last];
    }
  }

  lemma NoInstructions(roles: seq<Role>)
    requires forall i :: 0 <= i < |roles| ==> !roles[i].Insn?
    ensures Instructions(roles) == []
  {
    InstructionsSkip([], roles);
    assert [] + roles == roles;
  }

  lemma SplitInstructions(roles: seq<Role>, k: nat, end: nat)
    requires k <= end <= |roles|
    ensures Instructions(roles[k..]) == Instructions(roles[k..end]) + Instructions(roles[end..])
  {
    assert roles[k..] == roles[k..end] + roles[end..];
    InstructionsConcat(roles[k..end], roles[end..]);
  }

  lemma OneInstruction(one: seq<Role>, role: Role)
    requires |one| == 1 && one[0] == role
    ensures Instructions(one) == if role.Insn? then [role.request] else []
  {
    assert Instructions(one[..0]) == [];
  }

  lemma PathInstructions(roles: seq<Role>, k: nat, rest: seq<nat>)
    requires k < |roles| && forall i :: 0 <= i < |rest| ==> rest[i] < |roles|
    ensures var path := [k] + rest;
            (forall i :: 0 <= i < |path| ==> path[i] < |roles|)
            && Instructions(RolesAt(roles, path))
            == (if roles[k].Insn? then [roles[k].request] else []) + Instructions(RolesAt(roles, rest))
  {
    OneInstruction([roles[k]], roles[k]);
    InstructionsConcat([roles[k]], RolesAt(roles, rest));
    assert RolesAt(roles, [k] + rest) == [roles[k]] + RolesAt(roles, rest);
  }

  lemma NextInstructions(roles: seq<Role>, k: nat)
    requires k < |roles| && roles[k].Insn?
    ensures Instructions(roles[k..]) == [roles[k].request] + Instructions(roles[k + 1..])
  {
    SplitInstructions(roles, k, k + 1);
    OneInstruction(roles[k..k + 1], roles[k]);
  }

  lemma SkippedInstructions(roles: seq<Role>, k: nat, end: nat)
    requires k <= end <= |roles| && forall i :: k <= i < end ==> !roles[i].Insn?
    ensures Instructions(roles[k..]) == Instructions(roles[end..])
  {
    NoInstructions(roles[k..end]);
    SplitInstructions(roles, k, end);
  }

  lemma UpToUnfolds(first: Request, rest: seq<Request>, leaves: Request -> bool)
    ensures UpToLeaving([first] + rest, leaves) == [first] + if leaves(first) then [] else UpToLeaving(rest, leaves)
  {
    assert ([first] + rest)[1..] == rest;
  }

  lemma PathFromInsn(roles: seq<Role>, leaves: Request -> bool, k: nat, rest: seq<nat>)
    requires k < |roles| && roles[k].Insn?
    requires if leaves(roles[k].request) then rest == [] else IsPath(roles, leaves, k + 1, rest)
    ensures IsPath(roles, leaves, k, [k] + rest)
  {
    PathInstructions(roles, k, rest);
    NextInstructions(roles, k);
    UpToUnfolds(roles[k].request, Instructions(roles[k + 1..]), leaves);
    if leaves(roles[k].request) { NoInstructions(RolesAt(roles, rest)); }
  }

  lemma PathFromBarrier(roles: seq<Role>, leaves: Request -> bool, k: nat, end: nat, rest: seq<nat>)
    requires k < end <= |roles| && roles[k].Barrier? && forall i :: k <= i < end ==> !roles[i].Insn?
    requires IsPath(roles, leaves, end, rest)
    ensures IsPath(roles, leaves, k, [k] + rest)
  {
    PathInstructions(roles, k, rest);
    SkippedInstructions(roles, k, end);
  }

  lemma ExecutesInsn(code: seq<Word>, roles: seq<Role>, leaves: Request -> bool, k: nat)
    requires |code| == |roles| && k < |roles| && roles[k].Insn?
    requires leaves(roles[k].request) || ExecutesFrom(code, roles, leaves, k + 1)
    ensures ExecutesFrom(code, roles, leaves, k)
  {
    PathFromInsn(roles, leaves, k, if leaves(roles[k].request) then [] else Walk(code, roles, leaves, k + 1));
  }

  /** The word at `k` is an unconditional branch to `end`, past words that are no instructions. */
  predicate BranchesPast(code: seq<Word>, roles: seq<Role>, k: nat, end: nat) {
    && k < end <= |roles| == |code| && roles[k].Barrier?
    && IsBranch(code[k]) && code[k].cond == ALWAYS && BranchAddress(code[k], WORD_SIZE * k) == WORD_SIZE * end
    && forall i :: k <= i < end ==> !roles[i].Insn?
  }

  lemma ExecutesBarrier(code: seq<Word>, roles: seq<Role>, leaves: Request -> bool, k: nat, end: nat)
    requires BranchesPast(code, roles, k, end) && ExecutesFrom(code, roles, leaves, end)
    ensures ExecutesFrom(code, roles, leaves, k)
  {
    assert BranchAddress(code[k], WORD_SIZE * k) / WORD_SIZE == end;
    PathFromBarrier(roles, leaves, k, end, Walk(code, roles, leaves, end));
  }

  lemma LaidOutBarrierBranches(s: State, k: nat)
    requires WellLaidOut(s) && k < |s.roles| && s.roles[k].Barrier?
    ensures var end := s.roles[k].end;
            BranchesPast(s.b.code, s.roles, k, end) && (end < |s.roles| ==> s.roles[end].Insn?)
  {
    assert BarrierOk(s, k);
    forall i | k < i < s.roles[k].end ensures !s.roles[i].Insn? { assert InPool(s.roles[i]); }
  }

  lemma ExecutesAtEnd(code: seq<Word>, roles: seq<Role>, leaves: Request -> bool)
    requires |code| == |roles|
    ensures ExecutesFrom(code, roles, leaves, |roles|)
  {
    assert roles[|roles|..] == [] && RolesAt(roles, []) == [];
  }

  /** From every word outside the pools, execution is the instructions from there on, until one leaves. */
  lemma {:induction false} ExecutesEverywhere(s: State, leaves: Request -> bool, k: nat)
    requires WellLaidOut(s) && Guarded(s.roles, leaves) && k <= |s.roles| && (k < |s.roles| ==> !InPool(s.roles[k]))
    ensures ExecutesFrom(s.b.code, s.roles, leaves, k)
    decreases |s.roles| - k
  {
    if k == |s.roles| {
      ExecutesAtEnd(s.b.code, s.roles, leaves);
    } else if s.roles[k].Barrier? {
      LaidOutBarrierBranches(s, k);
      ExecutesEverywhere(s, leaves, s.roles[k].end);
      ExecutesBarrier(s.b.code, s.roles, leaves, k, s.roles[k].end);
    } else {
      if !leaves(s.roles[k].request) { ExecutesEverywhere(s, leaves, k + 1); }
      ExecutesInsn(s.b.code, s.roles, leaves, k);
    }
  }

  /** From every instruction of the code. */
  ghost predicate Executes(s: State, leaves: Request -> bool)
    requires |s.b.code| == |s.roles|
  {
    forall k :: 0 <= k < |s.roles| && s.roles[k].Insn? ==> ExecutesFrom(s.b.code, s.roles, leaves, k)
  }

  /** An instruction that goes on into a pool executes a word of it. */
  lemma UnguardedRunsPool(code: seq<Word>, roles: seq<Role>, leaves: Request -> bool, k: nat)
    requires |code| == |roles| && 0 < k < |roles| && InPool(roles[k])
    requires roles[k - 1].Insn? && !leaves(roles[k - 1].request)
    ensures !ExecutesFrom(code, roles, leaves, k - 1)
  {
    var path := Walk(code, roles, leaves, k - 1);
    assert path == [k - 1] + Walk(code, roles, leaves, k);
    assert path[1] == k;
  }

  lemma ExecutesIfGuarded(s: State, leaves: Request -> bool)
    requires WellLaidOut(s)
    ensures Executes(s, leaves) <==> Guarded(s.roles, leaves)
  {
    if Guarded(s.roles, leaves) {
      forall k | 0 <= k < |s.roles| && s.roles[k].Insn? ensures ExecutesFrom(s.b.code, s.roles, leaves, k) {
        ExecutesEverywhere(s, leaves, k);
      }
    } else {
      var k :| 0 < k < |s.roles| && InPool(s.roles[k]) && s.roles[k - 1].Insn? && !leaves(s.roles[k - 1].request);
      UnguardedRunsPool(s.b.code, s.roles, leaves, k);
    }
  }

  /** The word is the instruction asked for, and if that is a constant load, it finds its constant. */
  ghost predicate IsAsked(s: State, k: nat)
    requires |s.b.code| == |s.roles| && k < |s.roles| && s.roles[k].Insn?
  {
    match s.roles[k].request
    case Plain(word) => s.b.code[k] == word
    case WithConstant(_, _, _) => FindsItsConstant(s, k)
  }

  lemma WordsAreAsked(ops: seq<Op>)
    ensures var s := Run(ops).s;
            |s.b.code| == |s.roles| && forall k :: 0 <= k < |s.roles| && s.roles[k].Insn? ==> IsAsked(s, k)
  {
    CodeRefinesRequests(ops);
    EveryLoadFindsItsConstant(ops);
    LaidOutIsAsked(Run(ops).s);
  }

  lemma LaidOutIsAsked(s: State)
    requires WellLaidOut(s) && forall k :: IsLoadAt(s, k) ==> FindsItsConstant(s, k)
    ensures forall k :: 0 <= k < |s.roles| && s.roles[k].Insn? ==> IsAsked(s, k)
  {
    forall k | 0 <= k < |s.roles| && s.roles[k].Insn? ensures IsAsked(s, k) {
      if s.roles[k].request.WithConstant? { assert IsLoadAt(s, k); }
    }
  }

  /**
    In every run, whichever instructions are taken to leave: following the words from any instruction executes the
    requested instructions in order, up to one that leaves, and no word of a pool, if and only if pools without a barrier
    were placed only behind instructions that leave.
   */
  lemma ExecutionIsRequests(ops: seq<Op>, leaves: Request -> bool)
    ensures WellLaidOut(Run(ops).s)
    ensures Executes(Run(ops).s, leaves) <==> FlushesSafely(ops, leaves)
  {
    CodeRefinesRequests(ops);
    RunIsGuarded(ops, leaves);
    ExecutesIfGuarded(Run(ops).s, leaves);
  }

  lemma {:induction false} NothingLeaves(requests: seq<Request>, leaves: Request -> bool)
    requires forall r :: !leaves(r)
    ensures UpToLeaving(requests, leaves) == requests
  {
    if requests != [] {
      NothingLeaves(requests[1..], leaves);
    }
  }

  lemma BarrierIsSafe(ops: seq<Op>, op: Op, leaves: Request -> bool)
    requires UsesBarrier(op)
    ensures SafeAfter(ops, op, leaves)
  {
  }

  lemma SafelyThen(ops: seq<Op>, op: Op, leaves: Request -> bool)
    ensures FlushesSafely(ops + [op], leaves) <==> FlushesSafely(ops, leaves) && SafeAfter(ops, op, leaves)
  {
    var all := ops + [op];
    assert all[..|all| - 1] == ops && all[|all| - 1] == op;
  }

  predicate EndsWith(roles: seq<Role>, request: Request) {
    roles != [] && roles[|roles| - 1] == Insn(request)
  }

  lemma PlantIsPutJump(a: Assembler, cond: Bits4, useConstantPool: bool)
    requires AInv(a)
    ensures Step(a, PlantJump(cond, useConstantPool)) == PutJump(a, cond, useConstantPool)
  {
    StepIsEmitting(a, PlantJump(cond, useConstantPool));
    EmittingIsPutJump(a, cond, useConstantPool);
  }

  lemma EmittingIsPutJump(a: Assembler, cond: Bits4, useConstantPool: bool)
    requires AInv(a)
    ensures EmittingStep(a, PlantJump(cond, useConstantPool)) == PutJump(a, cond, useConstantPool)
  {
  }

  lemma PutJumpIsLast(a: Assembler, cond: Bits4, useConstantPool: bool)
    requires AInv(a)
    ensures EndsWith(PutJump(a, cond, useConstantPool).s.roles, JumpRequest(cond))
  {
  }

  lemma JumpIsLast(a: Assembler, cond: Bits4, useConstantPool: bool)
    requires AInv(a)
    ensures EndsWith(Step(a, PlantJump(cond, useConstantPool)).s.roles, JumpRequest(cond))
  {
    PlantIsPutJump(a, cond, useConstantPool);
    PutJumpIsLast(a, cond, useConstantPool);
  }

  lemma LeavingIsSafe(s: State, request: Request, op: Op, leaves: Request -> bool)
    requires EndsWith(s.roles, request) && leaves(request)
    ensures OpIsSafe(s, op, leaves)
  {
  }

  lemma SafeAfterJump(ops: seq<Op>, useConstantPool: bool, op: Op, leaves: Request -> bool)
    requires leaves(JumpRequest(ALWAYS))
    ensures SafeAfter(ops + [PlantJump(ALWAYS, useConstantPool)], op, leaves)
  {
    RunThen(ops, PlantJump(ALWAYS, useConstantPool));
    JumpIsLast(Run(ops), ALWAYS, useConstantPool);
    LeavingIsSafe(Run(ops + [PlantJump(ALWAYS, useConstantPool)]).s, JumpRequest(ALWAYS), op, leaves);
  }

  /** Right after an unconditional jump the pool may be placed without a barrier, as the source promises. */
  lemma FlushAfterJumpIsSafe(ops: seq<Op>, useConstantPool: bool, isForced: bool, leaves: Request -> bool)
    requires leaves(JumpRequest(ALWAYS))
    ensures FlushesSafely(ops + [PlantJump(ALWAYS, useConstantPool)] + [FlushAfterJump(isForced)], leaves)
       <==> FlushesSafely(ops, leaves)
  {
    var jump := PlantJump(ALWAYS, useConstantPool);
    SafelyThen(ops + [jump], FlushAfterJump(isForced), leaves);
    SafelyThen(ops, jump, leaves);
    BarrierIsSafe(ops, jump, leaves);
    SafeAfterJump(ops, useConstantPool, FlushAfterJump(isForced), leaves);
  }

  lemma {:induction false} BarriersAreSafe(ops: seq<Op>, leaves: Request -> bool)
    requires forall i :: 0 <= i < |ops| ==> UsesBarrier(ops[i])
    ensures FlushesSafely(ops, leaves)
    decreases |ops|
  {
    if ops != [] {
      BarriersAreSafe(ops[..|ops| - 1], leaves);
      BarrierIsSafe(ops[..|ops| - 1], ops[|ops| - 1], leaves);
    }
  }

  lemma ExecutesFromStart(s: State, leaves: Request -> bool)
    requires WellLaidOut(s) && Executes(s, leaves)
    ensures Instructions(RolesAt(s.roles, Walk(s.b.code, s.roles, leaves, 0)))
         == UpToLeaving(Instructions(s.roles), leaves)
  {
    assert s.roles[0..] == s.roles;
    if s.roles == [] {
      assert RolesAt(s.roles, []) == [];
    } else {
      assert ExecutesFrom(s.b.code, s.roles, leaves, 0);
    }
  }

  /** A run that uses barriers only is executed, from its first word to its end, as everything that was asked for. */
  lemma BarriersAloneExecute(ops: seq<Op>, leaves: Request -> bool)
    requires (forall i :: 0 <= i < |ops| ==> UsesBarrier(ops[i])) && forall r :: !leaves(r)
    ensures var s := Run(ops).s;
            |s.b.code| == |s.roles|
            && Instructions(RolesAt(s.roles, Walk(s.b.code, s.roles, leaves, 0))) == AllAsked(ops)
  {
    BarriersAreSafe(ops, leaves);
    ExecutionIsRequests(ops, leaves);
    ExecutesFromStart(Run(ops).s, leaves);
    NothingLeaves(AllAsked(ops), leaves);
  }
}
