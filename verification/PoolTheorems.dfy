/**
  What every run of the constant-pool buffer guarantees, stated on the words of the buffer alone.
 */
module PoolTheorems {
  import opened ArmWord
  import opened ConstantPool
  import opened PoolRuns
  import opened ArmRuns

  predicate IsLoadAt(s: State, k: nat) {
    k < |s.roles| && s.roles[k].Insn? && s.roles[k].request.WithConstant?
  }

  /** The constant the load at word `k` stands for: the one it was emitted with, or its last target. */
  function Meant(s: State, k: nat): (r: Word)
    requires IsLoadAt(s, k)
  {
    if k in s.linked then s.linked[k] else s.roles[k].request.constant
  }

  /**
    The word at `k` is the requested load. While it waits it names a pool entry holding its constant; once placed it
    addresses a word inside a pool holding its constant.
   */
  ghost predicate FindsItsConstant(s: State, k: nat)
    requires IsLoadAt(s, k) && |s.b.code| == |s.roles|
  {
    var w := s.b.code[k];
    var address := LiteralAddress(w, WORD_SIZE * k);
    && SameButAddress(w, s.roles[k].request.insn)
    && if k in s.b.loads then
         w.offset % 2 == 1 && StampedIndex(w) < |s.b.pool| && s.b.pool[StampedIndex(w)] == Meant(s, k)
       else
         && w.offset % 2 == 0 && address % WORD_SIZE == 0 && 0 <= address < s.b.CodeSize()
         && s.roles[address / WORD_SIZE].Constant? && s.b.code[address / WORD_SIZE] == Meant(s, k)
  }

  lemma WaitingLoadFindsItsConstant(s: State, l: Load)
    requires Waits(s, l) && l.at in s.b.loads
    ensures FindsItsConstant(s, l.at)
  {
  }

  lemma PlacedLoadFindsItsConstant(s: State, l: Load)
    requires Reads(s, l) && l.at !in s.b.loads
    ensures FindsItsConstant(s, l.at)
  {
    assert LiteralAddress(s.b.code[l.at], WORD_SIZE * l.at) / WORD_SIZE == l.slot;
  }

  lemma LoadFindsItsConstant(s: State, k: nat)
    requires Shape(s) && Loads(s) && IsLoadAt(s, k) && HasLoad(s, k)
    ensures FindsItsConstant(s, k)
  {
    if i :| 0 <= i < |s.waiting| && s.waiting[i].at == k {
      assert Waits(s, s.waiting[i]) && s.b.loads[i] == k;
      WaitingLoadFindsItsConstant(s, s.waiting[i]);
    } else {
      var i :| 0 <= i < |s.placed| && s.placed[i].at == k;
      assert Reads(s, s.placed[i]);
      PlacedLoadFindsItsConstant(s, s.placed[i]);
    }
  }

  /** In every run, every load finds exactly its own constant, before and after its pool is placed. */
  lemma EveryLoadFindsItsConstant(ops: seq<Op>)
    ensures var s := Run(ops).s;
            |s.b.code| == |s.roles| && forall k :: IsLoadAt(s, k) ==> FindsItsConstant(s, k)
  {
    LoadsFindTheirConstants(Run(ops).s);
  }

  lemma LoadsFindTheirConstants(s: State)
    requires Inv(s)
    ensures forall k :: IsLoadAt(s, k) ==> FindsItsConstant(s, k)
  {
    forall k | IsLoadAt(s, k) ensures FindsItsConstant(s, k) {
      assert RoleOk(s, k);
      LoadFindsItsConstant(s, k);
    }
  }

  /**
    The code starts with an instruction, plain instructions are the words asked for, every barrier jumps past its pool,
    every constant stands in an unbroken pool that starts at an eight-byte boundary, and padding is a single word.
   */
  ghost predicate WellLaidOut(s: State) {
    && |s.b.code| == |s.roles| && (s.roles != [] ==> s.roles[0].Insn?)
    && (forall k :: 0 <= k < |s.roles| && s.roles[k].Insn? && s.roles[k].request.Plain? ==>
                      s.b.code[k] == s.roles[k].request.word)
    && (forall k :: 0 <= k < |s.roles| && s.roles[k].Barrier? ==> BarrierOk(s, k))
    && (forall k :: 0 <= k < |s.roles| && s.roles[k].Constant? ==> PoolOk(s.roles, k))
    && (forall k :: 0 <= k < |s.roles| && s.roles[k].Padding? ==> IsPadding(s, k))
  }

  /** One breakpoint in front of a pool. */
  predicate IsPadding(s: State, k: nat) {
    k < |s.b.code| && s.b.code[k] == PAD && k + 1 < |s.roles| && s.roles[k + 1].Constant?
  }

  lemma LayoutIsGood(s: State)
    requires |s.b.code| == |s.roles| && Layout(s)
    ensures WellLaidOut(s)
  {
    forall k | 0 <= k < |s.roles|
      ensures k == 0 ==> s.roles[k].Insn?
      ensures s.roles[k].Insn? && s.roles[k].request.Plain? ==> s.b.code[k] == s.roles[k].request.word
      ensures s.roles[k].Barrier? ==> BarrierOk(s, k)
      ensures s.roles[k].Constant? ==> PoolOk(s.roles, k)
      ensures s.roles[k].Padding? ==> IsPadding(s, k)
    {
      assert RoleOk(s, k);
    }
  }

  /** In every run, the code is the requested instructions in order, once barriers, padding and pools are left out. */
  lemma CodeRefinesRequests(ops: seq<Op>)
    ensures Instructions(Run(ops).s.roles) == AllAsked(ops)
    ensures WellLaidOut(Run(ops).s)
  {
    LayoutIsGood(Run(ops).s);
  }

  /** Wherever constants begin, they begin at an even word, which is an eight-byte boundary, and not with the code. */
  predicate PoolsAligned(roles: seq<Role>) {
    forall k :: 0 <= k < |roles| && roles[k].Constant? && (k == 0 || !roles[k - 1].Constant?) ==>
                  k > 0 && k % 2 == 0
  }

  lemma LaidOutIsAligned(s: State)
    requires WellLaidOut(s)
    ensures PoolsAligned(s.roles)
  {
    forall k | 0 <= k < |s.roles| && s.roles[k].Constant? && (k == 0 || !s.roles[k - 1].Constant?)
      ensures k > 0 && k % 2 == 0
    {
      assert PoolOk(s.roles, k);
    }
  }

  lemma PoolsAreAligned(ops: seq<Op>)
    ensures PoolsAligned(Run(ops).s.roles)
  {
    CodeRefinesRequests(ops);
    LaidOutIsAligned(Run(ops).s);
  }

  /** The states before and after linking the load at `at`. */
  ghost predicate OnlyLinks(s: State, at: nat, target: Word, t: State) {
    && t.roles == s.roles && |t.b.code| == |t.roles|
    && forall k :: IsLoadAt(s, k) ==>
                     FindsItsConstant(t, k) && Meant(t, k) == if k == at then target else Meant(s, k)
  }

  lemma LinkAtChangesOneLoad(s: State, at: nat, target: Word)
    requires Inv(s) && IsLoadAt(s, at) && !s.roles[at].request.isReusable
    ensures OnlyLinks(s, at, target, LinkAt(s, at, target))
  {
    assert HasUniqueLoad(s, at) by {
      assert RoleOk(s, at);
      HasItsUniqueLoad(s, at);
    }
    LoadsFindTheirConstants(LinkAt(s, at, target));
  }

  lemma HasItsUniqueLoad(s: State, at: nat)
    requires Loads(s) && HasLoad(s, at) && IsLoadAt(s, at) && !s.roles[at].request.isReusable
    ensures HasUniqueLoad(s, at)
  {
    if i :| 0 <= i < |s.waiting| && s.waiting[i].at == at {
      assert Waits(s, s.waiting[i]) && IsUniqueLoad(s.waiting, i, at);
    } else {
      var i :| 0 <= i < |s.placed| && s.placed[i].at == at;
      assert Reads(s, s.placed[i]) && IsUniqueLoad(s.placed, i, at);
    }
  }

  lemma LinkStepChangesOneLoad(a: Assembler, at: nat, target: Word)
    requires AInv(a) && IsLoadAt(a.s, at) && !a.s.roles[at].request.isReusable
    ensures OnlyLinks(a.s, at, target, Step(a, Link(at, target)).s)
  {
    StepIsLink(a, at, target);
    LinkAtChangesOneLoad(a.s, at, target);
  }

  lemma StepIsLink(a: Assembler, at: nat, target: Word)
    requires AInv(a)
    ensures Step(a, Link(at, target)).s == LinkAt(a.s, at, target)
  {
  }

  /** Linking the jump at `at` gives that jump its target and leaves every other load the constant it had. */
  lemma LinkChangesOneLoad(ops: seq<Op>, at: nat, target: Word)
    requires IsLoadAt(Run(ops).s, at) && !Run(ops).s.roles[at].request.isReusable
    ensures OnlyLinks(Run(ops).s, at, target, Run(ops + [Link(at, target)]).s)
  {
    RunThen(ops, Link(at, target));
    LinkStepChangesOneLoad(Run(ops), at, target);
  }

  /** A flush of the buffer would patch only offsets that fit, and the pool is below its 2048 bytes. */
  ghost predicate FlushFits(b: Buffer) {
    && WORD_SIZE * |b.pool| < MAX_POOL_SIZE
    && forall k, useBarrier :: k in b.loads ==>
         var start := PoolStart(b, useBarrier);
         k < |b.code| && k < start && WORD_SIZE * (start - k + StampedIndex(b.code[k]) - 2) <= MAX_POOL_SIZE
  }

  lemma InvFlushFits(s: State)
    requires Inv(s)
    ensures FlushFits(s.b)
  {
    forall k, useBarrier | k in s.b.loads
      ensures k < |s.b.code| && k < PoolStart(s.b, useBarrier)
      ensures WORD_SIZE * (PoolStart(s.b, useBarrier) - k + StampedIndex(s.b.code[k]) - 2) <= MAX_POOL_SIZE
    {
      var i :| 0 <= i < |s.b.loads| && s.b.loads[i] == k;
      assert Waits(s, s.waiting[i]);
    }
  }

  /** In every run: although a flush inside a constant load leaves the distance stale, no flush is ever too late. */
  lemma EveryFlushFits(ops: seq<Op>)
    ensures FlushFits(Run(ops).s.b)
  {
    InvFlushFits(Run(ops).s);
  }
}
