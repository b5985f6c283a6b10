/**
  Making the code executable: the pool is placed, and every linked jump becomes a direct branch, or a load of the
  absolute address of its target in the copy.
 */
module ArmCopy {
  import opened ArmWord
  import opened ConstantPool
  import opened PoolRuns
  import opened ArmRuns
  import opened PoolTheorems

  const MIN_BRANCH := -0x80_0000
  const MAX_BRANCH := 0x7f_ffff

  /** The word position a planted jump loads its target from. */
  function TargetSlot(code: seq<Word>, at: nat): (r: int)
    requires at < |code|
  {
    LiteralAddress(code[at], WORD_SIZE * at) / WORD_SIZE
  }

  /** The jump's word is a literal load of the pc, from a word of the code. */
  predicate IsPlanted(code: seq<Word>, jump: Jump) {
    && jump.at < |code|
    && var w := code[jump.at];
       && IsLoadLiteral(w) && w.rd == 15 && w.cond == jump.cond
       && LiteralAddress(w, WORD_SIZE * jump.at) % WORD_SIZE == 0
       && 0 <= TargetSlot(code, jump.at) < |code|
  }

  /** How far, in words, a branch at word `at` has to go to reach byte offset `target`. */
  function Difference(target: nat, at: nat): (r: int) {
    target / WORD_SIZE - (at + 2)
  }

  /** One jump of the loop in `prepareExecutableCopy`. The copy will be at address `to`. */
  function ResolveJump(code: seq<Word>, jump: Jump, to: UInt32): (r: seq<Word>)
    requires IsPlanted(code, jump)
    ensures |r| == |code|
  {
    var slot := TargetSlot(code, jump.at);
    if code[slot] == INVALID_BRANCH_TARGET then code
    else
      var difference := Difference(code[slot].Value(), jump.at);
      if !jump.useConstantPool && MIN_BRANCH <= difference <= MAX_BRANCH then
        code[jump.at := Branch(code[jump.at].cond, difference)]
      else
        code[slot := FromInt((to + code[slot].Value()) % 0x1_0000_0000)]
  }

  /** Planted jumps share neither words nor slots. */
  ghost predicate Ready(code: seq<Word>, jumps: seq<Jump>) {
    && (forall i :: 0 <= i < |jumps| ==> IsPlanted(code, jumps[i]))
    && (forall i, j :: 0 <= i < |jumps| && 0 <= j < |jumps| ==>
                         TargetSlot(code, jumps[i].at) != jumps[j].at)
    && (forall i, j :: 0 <= i < j < |jumps| ==>
                         jumps[i].at != jumps[j].at && TargetSlot(code, jumps[i].at) != TargetSlot(code, jumps[j].at))
  }

  lemma ResolvingOneKeepsReady(code: seq<Word>, jumps: seq<Jump>, to: UInt32)
    requires jumps != [] && Ready(code, jumps)
    ensures var after, rest := ResolveJump(code, jumps[0], to), jumps[1..];
            && Ready(after, rest)
            && forall i :: 0 <= i < |rest| ==>
                             && after[rest[i].at] == code[rest[i].at]
                             && TargetSlot(after, rest[i].at) == TargetSlot(code, rest[i].at)
                             && after[TargetSlot(code, rest[i].at)] == code[TargetSlot(code, rest[i].at)]
  {
  }

  /** The loop. */
  ghost function ResolveJumps(code: seq<Word>, jumps: seq<Jump>, to: UInt32): (r: seq<Word>)
    requires Ready(code, jumps)
    ensures |r| == |code|
    decreases |jumps|
  {
    if jumps == [] then code
    else
      ResolvingOneKeepsReady(code, jumps, to);
      ResolveJumps(ResolveJump(code, jumps[0], to), jumps[1..], to)
  }

  /** Where executing word `at` of the copy at address `to` transfers control, and under which condition. */
  datatype Transfer = Transfer(cond: Bits4, address: UInt32)

  function Execute(code: seq<Word>, at: nat, to: UInt32): (r: Transfer)
    requires at < |code|
    requires IsBranch(code[at]) || (0 <= TargetSlot(code, at) < |code|)
  {
    var w := code[at];
    Transfer(w.cond, if IsBranch(w) then BranchAddress(w, to + WORD_SIZE * at) % 0x1_0000_0000
                     else code[TargetSlot(code, at)].Value())
  }

  /** Some branch at word `at` goes to byte offset `target`. */
  ghost predicate BranchCanReach(at: nat, target: int) {
    exists w: Word :: IsBranch(w) && BranchAddress(w, WORD_SIZE * at) == target
  }

  /** The bounds are those of the branch's displacement field. */
  lemma BranchBounds(target: nat, at: nat)
    requires target % WORD_SIZE == 0
    ensures MIN_BRANCH <= Difference(target, at) <= MAX_BRANCH <==> BranchCanReach(at, target)
  {
    var difference := Difference(target, at);
    if MIN_BRANCH <= difference <= MAX_BRANCH {
      BranchReaches(ALWAYS, difference, WORD_SIZE * at);
      assert BranchAddress(Branch(ALWAYS, difference), WORD_SIZE * at) == target;
    }
  }

  /**
    The jump goes to byte offset `target` of the copy, under its condition. It is a branch just when one can reach the
    target and the jump need not keep its constant.
   */
  ghost predicate GoesTo(code: seq<Word>, jump: Jump, to: UInt32, target: UInt32) {
    && jump.at < |code|
    && var w := code[jump.at];
       && (IsBranch(w) || IsPlanted(code, jump))
       && (IsBranch(w) <==> !jump.useConstantPool && BranchCanReach(jump.at, target))
       && Execute(code, jump.at, to) == Transfer(jump.cond, (to + target) % 0x1_0000_0000)
  }

  lemma ResolvedJumpGoesToItsTarget(code: seq<Word>, jump: Jump, to: UInt32)
    requires IsPlanted(code, jump) && TargetSlot(code, jump.at) != jump.at
    requires var target := code[TargetSlot(code, jump.at)];
             target != INVALID_BRANCH_TARGET && target.Value() % WORD_SIZE == 0
    ensures GoesTo(ResolveJump(code, jump, to), jump, to, code[TargetSlot(code, jump.at)].Value())
  {
    var target := code[TargetSlot(code, jump.at)].Value();
    var difference := Difference(target, jump.at);
    BranchBounds(target, jump.at);
    if !jump.useConstantPool && MIN_BRANCH <= difference <= MAX_BRANCH {
      BranchReaches(jump.cond, difference, to + WORD_SIZE * jump.at);
      assert to + WORD_SIZE * jump.at + 8 + 4 * difference == to + target;
    }
  }

  lemma {:induction false} ResolveFrame(code: seq<Word>, jumps: seq<Jump>, to: UInt32, k: nat)
    requires Ready(code, jumps) && k < |code|
    requires forall i :: 0 <= i < |jumps| ==> k != jumps[i].at && k != TargetSlot(code, jumps[i].at)
    ensures ResolveJumps(code, jumps, to)[k] == code[k]
    decreases |jumps|
  {
    if jumps != [] {
      ResolvingOneKeepsReady(code, jumps, to);
      ResolveFrame(ResolveJump(code, jumps[0], to), jumps[1..], to, k);
    }
  }

  /** After the loop every jump that was linked goes to its target in the copy. */
  lemma {:induction false} ResolvedJumpsGoToTheirTargets(code: seq<Word>, jumps: seq<Jump>, to: UInt32, i: nat)
    requires Ready(code, jumps) && i < |jumps|
    requires var target := code[TargetSlot(code, jumps[i].at)];
             target != INVALID_BRANCH_TARGET && target.Value() % WORD_SIZE == 0
    ensures GoesTo(ResolveJumps(code, jumps, to), jumps[i], to, code[TargetSlot(code, jumps[i].at)].Value())
    decreases |jumps|
  {
    ResolvingOneKeepsReady(code, jumps, to);
    var after := ResolveJump(code, jumps[0], to);
    if i > 0 {
      assert jumps[1..][i - 1] == jumps[i];
      ResolvedJumpsGoToTheirTargets(after, jumps[1..], to, i - 1);
    } else {
      ResolvedJumpGoesToItsTarget(code, jumps[0], to);
      ResolveFrame(after, jumps[1..], to, jumps[0].at);
      ResolveFrame(after, jumps[1..], to, TargetSlot(code, jumps[0].at));
    }
  }

  /** A jump that was not linked keeps its word and its slot: it can still be linked in the copy. */
  lemma {:induction false} UnlinkedIsLeft(code: seq<Word>, jumps: seq<Jump>, to: UInt32, i: nat)
    requires Ready(code, jumps) && i < |jumps| && code[TargetSlot(code, jumps[i].at)] == INVALID_BRANCH_TARGET
    ensures var r, at := ResolveJumps(code, jumps, to), jumps[i].at;
            r[at] == code[at] && r[TargetSlot(code, at)] == INVALID_BRANCH_TARGET
    decreases |jumps|
  {
    ResolvingOneKeepsReady(code, jumps, to);
    if i > 0 {
      assert jumps[1..][i - 1] == jumps[i];
      UnlinkedIsLeft(ResolveJump(code, jumps[0], to), jumps[1..], to, i - 1);
    } else {
      assert ResolveJump(code, jumps[0], to)[jumps[0].at] == code[jumps[0].at];
      ResolveFrame(ResolveJump(code, jumps[0], to), jumps[1..], to, jumps[0].at);
      ResolveFrame(ResolveJump(code, jumps[0], to), jumps[1..], to, TargetSlot(code, jumps[0].at));
    }
  }

  // ----- linking in the copy -----

  /** `patchPointerInternal`: writes the target of the load at `at` into the copy. */
  function PatchPointer(code: seq<Word>, at: nat, target: Word): (r: seq<Word>)
    requires at < |code| && 0 <= TargetSlot(code, at) < |code|
  {
    code[TargetSlot(code, at) := target]
  }

  /** A jump that is still a load goes to the absolute address it is linked to, under its condition. */
  lemma LinkedInCopyGoesThere(code: seq<Word>, jump: Jump, to: UInt32, target: Word)
    requires IsPlanted(code, jump) && TargetSlot(code, jump.at) != jump.at
    ensures var r := PatchPointer(code, jump.at, target);
            IsPlanted(r, jump) && Execute(r, jump.at, to) == Transfer(jump.cond, target.Value())
  {
  }

  // ----- whole runs -----

  /** All pools are placed. */
  ghost predicate AllPlaced(s: State) {
    Inv(s) && s.waiting == []
  }

  lemma LoadSlot(s: State, k: nat) returns (i: nat)
    requires AllPlaced(s) && IsLoadAt(s, k)
    ensures i < |s.placed| && s.placed[i].at == k && Reads(s, s.placed[i])
    ensures TargetSlot(s.b.code, k) == s.placed[i].slot
    ensures s.placed[i].isReusable == s.roles[k].request.isReusable
  {
    assert RoleOk(s, k);
    i :| 0 <= i < |s.placed| && s.placed[i].at == k;
    assert Reads(s, s.placed[i]);
  }

  /** A load with a constant of its own shares its slot with no other load. */
  lemma SlotsDiffer(s: State, j: nat, k: nat)
    requires AllPlaced(s) && IsLoadAt(s, j) && IsLoadAt(s, k) && j != k && !s.roles[j].request.isReusable
    ensures TargetSlot(s.b.code, j) != TargetSlot(s.b.code, k)
  {
    var i := LoadSlot(s, j);
    var i' := LoadSlot(s, k);
    assert Separate(s.placed);
  }

  lemma JumpIsPlanted(s: State, jump: Jump)
    requires AllPlaced(s) && jump.at < |s.roles| && s.roles[jump.at] == Insn(JumpRequest(jump.cond))
    ensures IsPlanted(s.b.code, jump)
    ensures s.roles[TargetSlot(s.b.code, jump.at)].Constant?
    ensures s.b.code[TargetSlot(s.b.code, jump.at)] == Meant(s, jump.at)
  {
    var i := LoadSlot(s, jump.at);
  }

  lemma PlantedJumpsAreReady(a: Assembler)
    requires AInv(a) && AllPlaced(a.s)
    ensures Ready(a.s.b.code, a.jumps)
  {
    var code, jumps := a.s.b.code, a.jumps;
    forall i | 0 <= i < |jumps| ensures IsPlanted(code, jumps[i]) && a.s.roles[TargetSlot(code, jumps[i].at)].Constant? {
      JumpIsPlanted(a.s, jumps[i]);
    }
    forall i, j | 0 <= i < j < |jumps| ensures TargetSlot(code, jumps[i].at) != TargetSlot(code, jumps[j].at) {
      SlotsDiffer(a.s, jumps[i].at, jumps[j].at);
    }
  }

  /** The last operations of a run: the pool is placed, and the code padded to eight bytes. */
  ghost function Finish(a: Assembler): (t: Assembler)
    requires AInv(a)
    ensures AInv(t) && AllPlaced(t.s) && a.s.roles <= t.s.roles && |t.s.b.code| % 2 == 0
    ensures t.jumps == a.jumps && t.s.linked == a.s.linked
    ensures CanFlush(a.s.b)
    ensures var f := Flush(a.s.b, false);
            t.s.b.code == if |f.code| % 2 == 0 then f.code else f.code + [BKPT]
  {
    var f := FlushStep(a, true, false);
    FlushPlacesAll(a);
    if |f.s.b.code| % 2 == 0 then f
    else
      PadsOne(f);
      PutStep(f, Plain(BKPT))
  }

  lemma FlushPlacesAll(a: Assembler)
    requires AInv(a)
    ensures var f := FlushStep(a, true, false);
            CanFlush(a.s.b) && AllPlaced(f.s) && f.s.linked == a.s.linked && f.s.b.pool == []
  {
  }

  lemma PadsOne(f: Assembler)
    requires AInv(f) && AllPlaced(f.s) && f.s.b.pool == []
    ensures var t := PutStep(f, Plain(BKPT));
            AllPlaced(t.s) && t.s.linked == f.s.linked && t.s.b.code == f.s.b.code + [BKPT]
  {
  }

  ghost function ExecutableCopy(a: Assembler, to: UInt32): (code: seq<Word>)
    requires AInv(a)
    ensures |code| == |Finish(a).s.b.code|
  {
    var f := Finish(a);
    PlantedJumpsAreReady(f);
    ResolveJumps(f.s.b.code, f.jumps, to)
  }

  /** In every run, every jump that was linked goes, in the copy, to its last target under its own condition. */
  lemma EveryLinkedJumpGoesToItsTarget(ops: seq<Op>, to: UInt32, i: nat)
    requires i < |Run(ops).jumps|
    requires var a := Run(ops);
             var at := a.jumps[i].at;
             && at in a.s.linked
             && a.s.linked[at] != INVALID_BRANCH_TARGET && a.s.linked[at].Value() % WORD_SIZE == 0
    ensures var a := Run(ops);
            GoesTo(ExecutableCopy(a, to), a.jumps[i], to, a.s.linked[a.jumps[i].at].Value())
  {
    LinkedJumpGoesToItsTarget(Run(ops), to, i);
  }

  lemma LinkedJumpGoesToItsTarget(a: Assembler, to: UInt32, i: nat)
    requires AInv(a) && i < |a.jumps|
    requires var at := a.jumps[i].at;
             && at in a.s.linked
             && a.s.linked[at] != INVALID_BRANCH_TARGET && a.s.linked[at].Value() % WORD_SIZE == 0
    ensures GoesTo(ExecutableCopy(a, to), a.jumps[i], to, a.s.linked[a.jumps[i].at].Value())
  {
    var f := Finish(a);
    PlantedJumpsAreReady(f);
    JumpIsPlanted(f.s, f.jumps[i]);
    ResolvedJumpsGoToTheirTargets(f.s.b.code, f.jumps, to, i);
  }

  /** A load that is no jump still reads its constant in the copy. */
  lemma OtherLoadsAreUntouched(a: Assembler, to: UInt32, k: nat)
    requires AInv(a) && IsLoadAt(Finish(a).s, k) && forall i :: 0 <= i < |a.jumps| ==> a.jumps[i].at != k
    ensures var f := Finish(a).s;
            var copy := ExecutableCopy(a, to);
            && copy[k] == f.b.code[k] && 0 <= TargetSlot(copy, k) < |copy|
            && copy[TargetSlot(copy, k)] == Meant(f, k)
  {
    var f := Finish(a);
    var code := f.s.b.code;
    PlantedJumpsAreReady(f);
    var p := LoadSlot(f.s, k);
    forall i | 0 <= i < |f.jumps|
      ensures TargetSlot(code, f.jumps[i].at) != k && TargetSlot(code, k) != f.jumps[i].at
      ensures TargetSlot(code, f.jumps[i].at) != TargetSlot(code, k)
    {
      JumpIsPlanted(f.s, f.jumps[i]);
      SlotsDiffer(f.s, f.jumps[i].at, k);
    }
    ResolveFrame(code, f.jumps, to, k);
    ResolveFrame(code, f.jumps, to, TargetSlot(code, k));
  }

  /** No target was given to the jump at word `at`, or one that says so. */
  ghost predicate IsUnlinked(s: State, at: nat) {
    at !in s.linked || s.linked[at] == INVALID_BRANCH_TARGET
  }

  /** In the copy the jump is the load it was, its constant says that it has no target, and it goes where it is linked then. */
  ghost predicate CanStillBeLinked(finished: seq<Word>, copy: seq<Word>, jump: Jump, to: UInt32) {
    && IsPlanted(copy, jump) && |finished| == |copy| && copy[jump.at] == finished[jump.at]
    && copy[TargetSlot(copy, jump.at)] == INVALID_BRANCH_TARGET
    && forall target: Word ::
         Execute(PatchPointer(copy, jump.at, target), jump.at, to) == Transfer(jump.cond, target.Value())
  }

  /** In every run, every jump that was not linked is left alone, and can still be linked in the copy. */
  lemma EveryUnlinkedJumpIsLeft(ops: seq<Op>, to: UInt32, i: nat)
    requires i < |Run(ops).jumps| && IsUnlinked(Run(ops).s, Run(ops).jumps[i].at)
    ensures var a := Run(ops);
            CanStillBeLinked(Finish(a).s.b.code, ExecutableCopy(a, to), a.jumps[i], to)
  {
    UnlinkedJumpIsLeft(Run(ops), to, i);
  }

  lemma UnlinkedJumpIsLeft(a: Assembler, to: UInt32, i: nat)
    requires AInv(a) && i < |a.jumps| && IsUnlinked(a.s, a.jumps[i].at)
    ensures CanStillBeLinked(Finish(a).s.b.code, ExecutableCopy(a, to), a.jumps[i], to)
  {
    var f := Finish(a);
    PlantedJumpsAreReady(f);
    JumpIsPlanted(f.s, f.jumps[i]);
    UnlinkedIsLeft(f.s.b.code, f.jumps, to, i);
    LeftCanBeLinked(f.s.b.code, f.jumps, to, i);
  }

  lemma LeftCanBeLinked(code: seq<Word>, jumps: seq<Jump>, to: UInt32, i: nat)
    requires Ready(code, jumps) && i < |jumps|
    requires var copy, at := ResolveJumps(code, jumps, to), jumps[i].at;
             copy[at] == code[at] && copy[TargetSlot(code, at)] == INVALID_BRANCH_TARGET
    ensures CanStillBeLinked(code, ResolveJumps(code, jumps, to), jumps[i], to)
  {
    var copy := ResolveJumps(code, jumps, to);
    forall target: Word
      ensures Execute(PatchPointer(copy, jumps[i].at, target), jumps[i].at, to) == Transfer(jumps[i].cond, target.Value())
    {
      LinkedInCopyGoesThere(copy, jumps[i], to, target);
    }
  }
}
