/**
  Thumb-2 jumps: which form `computeJumpType` picks, and what the linked code does when it runs.
  A location is the address just after the jump, as in the assembler.
 */
module ThumbJumps {
  import opened ThumbCode
  import opened ThumbWords

  datatype JumpType = Fixed | NoCondition | Condition | NoConditionFixedSize | ConditionFixedSize

  datatype LinkType = Invalid | T1 | T2 | T3 | T4 | ConditionalT4 | BX | ConditionalBX

  function JumpSize(j: JumpType): (r: bv32) {
    match j
    case Fixed => 0
    case NoCondition => 10
    case Condition => 12
    case NoConditionFixedSize => 10
    case ConditionFixedSize => 12
  }

  function LinkSize(l: LinkType): (r: bv32) {
    match l
    case Invalid => 0
    case T1 => 2
    case T2 => 2
    case T3 => 4
    case T4 => 4
    case ConditionalT4 => 6
    case BX => 10
    case ConditionalBX => 12
  }

  function JumpSizeDelta(j: JumpType, l: LinkType): (r: bv32) {
    JumpSize(j) - LinkSize(l)
  }

  predicate CanBeJumpT1(location: bv32, to: bv32) { Fits(Minus(Minus(to, location), 2), 0xffff_ff00) }
  predicate CanBeJumpT2(location: bv32, to: bv32) { Fits(Minus(Minus(to, location), 2), 0xffff_f800) }
  predicate CanBeJumpT3(location: bv32, to: bv32) { Fits(Minus(to, location), 0xfff0_0000) }
  predicate CanBeJumpT4(location: bv32, to: bv32) { Fits(Minus(to, location), 0xff00_0000) }

  function ComputeJumpType(j: JumpType, from: bv32, to: bv32): (l: LinkType) {
    match j
    case Fixed => Invalid
    case NoConditionFixedSize => BX
    case ConditionFixedSize => ConditionalBX
    case Condition =>
      if CanBeJumpT1(Minus(from, 10), to) then T1
      else if CanBeJumpT3(Minus(from, 8), to) then T3
      else if CanBeJumpT4(Minus(from, 6), to) then ConditionalT4
      else ConditionalBX
    case NoCondition =>
      if CanBeJumpT2(Minus(from, 8), to) then T2
      else if CanBeJumpT4(Minus(from, 6), to) then T4
      else BX
  }

  // ----- linking -----

  function LinkJumpT4(location: bv32, to: bv32): (code: seq<bv16>) {
    var r := Peculiar(Minus(to, location));
    [FirstT4(r), SecondT4(r)]
  }

  /** Both halves into the scratch register, and a branch to it. */
  function Moves(low: bv32, high: bv32): (code: seq<bv16>) {
    [MoveFirst(MOVW, low), MoveSecond(IP, low), MoveFirst(MOVT, high), MoveSecond(IP, high), BX_IP]
  }

  function LinkBX(to: bv32): (code: seq<bv16>) {
    Moves(LowHalf(to + 1), to >> 16)
  }

  function LowHalf(x: bv32): (r: bv32) { x & 0xffff }

  /** The halfwords that end at `location`. */
  function Link(l: LinkType, cond: bv32, location: bv32, to: bv32): (code: seq<bv16>) {
    match l
    case Invalid => []
    case T1 => [WordT1(cond, Minus(Minus(to, location), 2))]
    case T2 => [WordT2(Minus(Minus(to, location), 2))]
    case T3 => [FirstT3(cond, Minus(to, location)), SecondT3(Minus(to, location))]
    case T4 => LinkJumpT4(location, to)
    case ConditionalT4 => [IfThenOne(cond)] + LinkJumpT4(location, to)
    case BX => LinkBX(to)
    case ConditionalBX => [IfThenThree(cond)] + LinkBX(to)
  }

  /** What the linker asserts of the place it links at. */
  predicate CanLink(l: LinkType, location: bv32, to: bv32) {
    match l
    case T1 => CanBeJumpT1(location, to)
    case T2 => CanBeJumpT2(location, to)
    case T3 => CanBeJumpT3(location, to)
    case T4 => CanBeJumpT4(location, to)
    case ConditionalT4 => CanBeJumpT4(location, to)
    case _ => true
  }

  predicate IsConditional(l: LinkType) {
    l.T1? || l.T3? || l.ConditionalT4? || l.ConditionalBX?
  }

  // ----- running linked code -----

  lemma RunNarrow(code: seq<bv16>, at: bv32, it: seq<bv32>, m: Machine, i: Insn)
    requires code != [] && !IsWide(Wide(code[0])) && DecodeNarrow(Wide(code[0])) == i
    ensures var (taken, target) := Target(i, at, it, m);
            Run(code, at, it, m) == if taken then target else Run(code[1..], Plus(at, 2), Pending(i, it), After(i, it, m))
  {
  }

  lemma RunWide(code: seq<bv16>, at: bv32, it: seq<bv32>, m: Machine, i: Insn)
    requires |code| >= 2 && IsWide(Wide(code[0])) && DecodeWide(Wide(code[0]), Wide(code[1])) == i
    ensures var (taken, target) := Target(i, at, it, m);
            Run(code, at, it, m) == if taken then target else Run(code[2..], Plus(at, 4), Pending(i, it), After(i, it, m))
  {
  }

  lemma GoesBack(p: bv32, to: bv32)
    ensures Plus(p, Minus(to, p)) == to
  {
    assert Minus(to, p) == to - p;
    assert Plus(p, to - p) == to;
  }

  lemma NarrowDistance(at: bv32, to: bv32)
    ensures Minus(Minus(to, Plus(at, 2)), 2) == Minus(to, Plus(at, 4))
  {
    assert Plus(at, 2) == at + 2 && Plus(at, 4) == at + 4;
    assert Minus(to, at + 2) == to - (at + 2);
    assert Minus(to - (at + 2), 2) == Minus(to, at + 4);
  }

  /** An instruction counts from four bytes after its start, the linker from its end. */
  lemma Distances(at: bv32, to: bv32)
    ensures Plus(Plus(at, 4), Minus(Minus(to, Plus(at, 2)), 2)) == to
    ensures Plus(Plus(at, 4), Minus(to, Plus(at, 4))) == to
  {
    NarrowDistance(at, to);
    GoesBack(Plus(at, 4), to);
  }

  predicate IsEven(x: bv32) { x & 1 == 0 }

  lemma EvenDistance(p: bv32, to: bv32)
    requires IsEven(p) && IsEven(to)
    ensures IsEven(Minus(to, p)) && IsEven(Minus(Minus(to, p), 2))
  {
    assert Minus(to, p) == to - p;
    assert IsEven(to - p);
  }

  lemma RunsT1(cond: bv32, at: bv32, location: bv32, to: bv32, m: Machine)
    requires cond < 14 && location == Plus(at, 2) && CanBeJumpT1(location, to) && IsEven(location) && IsEven(to)
    ensures Run(Link(T1, cond, location, to), at, [], m) == if Holds(cond, m) then to else location
  {
    var relative := Minus(Minus(to, location), 2);
    var code := [WordT1(cond, relative)];
    EvenDistance(location, to);
    DecodesT1(cond, relative);
    Distances(at, to);
    RunNarrow(code, at, [], m, BranchIf(cond, relative));
    assert code[1..] == [];
  }

  lemma RunsT2(cond: bv32, at: bv32, location: bv32, to: bv32, m: Machine)
    requires location == Plus(at, 2) && CanBeJumpT2(location, to) && IsEven(location) && IsEven(to)
    ensures Run(Link(T2, cond, location, to), at, [], m) == to
  {
    var relative := Minus(Minus(to, location), 2);
    EvenDistance(location, to);
    DecodesT2(relative);
    Distances(at, to);
    RunNarrow([WordT2(relative)], at, [], m, Branch(relative));
  }

  lemma RunsT3(cond: bv32, at: bv32, location: bv32, to: bv32, m: Machine)
    requires cond < 14 && location == Plus(at, 4) && CanBeJumpT3(location, to) && IsEven(location) && IsEven(to)
    ensures Run(Link(T3, cond, location, to), at, [], m) == if Holds(cond, m) then to else location
  {
    var relative := Minus(to, location);
    var code := [FirstT3(cond, relative), SecondT3(relative)];
    EvenDistance(location, to);
    DecodesT3(cond, relative);
    Distances(at, to);
    RunWide(code, at, [], m, BranchIf(cond, relative));
    assert code[2..] == [];
  }

  /** A jump of form T4 at the end of some code, possibly the last of an if-then block. */
  lemma RunsT4(at: bv32, location: bv32, to: bv32, it: seq<bv32>, m: Machine)
    requires location == Plus(at, 4) && CanBeJumpT4(location, to) && IsEven(location) && IsEven(to)
    ensures Run(LinkJumpT4(location, to), at, it, m) == if it == [] || Holds(it[0], m) then to else location
  {
    var relative := Minus(to, location);
    var code := LinkJumpT4(location, to);
    EvenDistance(location, to);
    DecodesT4(relative);
    Distances(at, to);
    RunWide(code, at, it, m, Branch(relative));
    assert code[2..] == [];
  }

  lemma PlusUnfolds(at: bv32, a: bv32, b: bv32)
    ensures Plus(Plus(at, a), b) == Plus(at + a, b)
  {
    assert Plus(at, a) == at + a;
  }

  lemma PlusJoins(at: bv32, a: bv32, b: bv32, c: bv32)
    requires c == a + b
    ensures Plus(at + a, b) == Plus(at, c)
  {
    assert Plus(at + a, b) == Plus(at, a + b);
  }

  lemma PlusTwice(at: bv32, a: bv32, b: bv32, c: bv32)
    requires c == a + b
    ensures Plus(Plus(at, a), b) == Plus(at, c)
  {
    PlusUnfolds(at, a, b);
    PlusJoins(at, a, b, c);
  }

  lemma RunsConditionalT4(cond: bv32, at: bv32, location: bv32, to: bv32, m: Machine)
    requires cond < 14 && location == Plus(at, 6) && CanBeJumpT4(location, to) && IsEven(location) && IsEven(to)
    ensures Run(Link(ConditionalT4, cond, location, to), at, [], m) == if Holds(cond, m) then to else location
  {
    var code := [IfThenOne(cond)] + LinkJumpT4(location, to);
    DecodesIfThen(cond);
    RunNarrow(code, at, [], m, IfThen([cond]));
    assert code[1..] == LinkJumpT4(location, to);
    PlusTwice(at, 2, 4, 6);
    RunsT4(Plus(at, 2), location, to, [cond], m);
  }

  lemma LowPart(to: bv32, low: bv32, high: bv32)
    requires IsEven(to) && low == LowHalf(to + 1) && high == to >> 16
    ensures low <= 0xffff && high <= 0xffff && ((low & 0xffff) | (high << 16)) & 0xffff_fffe == to
  {
  }

  lemma TargetIsKept(to: bv32, low: bv32, high: bv32)
    requires IsEven(to) && low == LowHalf(to + 1) && high == to >> 16
    ensures low <= 0xffff && high <= 0xffff && WithoutThumbBit(WithTop(low, high)) == to
  {
    LowPart(to, low, high);
    assert WithTop(low, high) == (low & 0xffff) | (high << 16);
  }

  /** The same condition for the next three instructions, or none. */
  predicate IsBlock(it: seq<bv32>) {
    it == [] || it == [it[0], it[0], it[0]]
  }

  /** The machine after both moves. */
  function Moved(low: bv32, high: bv32, it: seq<bv32>, m: Machine): (r: Machine)
    requires IsBlock(it)
  {
    var m1 := After(Move(IP, low), it, m);
    After(MoveTop(IP, high), Pending(Move(IP, low), it), m1)
  }

  lemma MovedHas(low: bv32, high: bv32, it: seq<bv32>, m: Machine)
    requires IsBlock(it)
    ensures var m' := Moved(low, high, it, m);
            m'.flags == m.flags && (it == [] || Holds(it[0], m) ==> m'.regs(IP) == WithTop(low, high))
  {
    var m1 := After(Move(IP, low), it, m);
    if it == [] || Holds(it[0], m) {
      assert m1 == SetReg(m, IP, low) && m1.regs(IP) == low && m1.flags == m.flags;
      assert Moved(low, high, it, m) == SetReg(m1, IP, WithTop(low, high));
    } else {
      assert m1 == m && Moved(low, high, it, m) == m;
    }
  }

  /** The two moves run, whatever they move. */
  lemma RunsMoves(low: bv32, high: bv32, at: bv32, it: seq<bv32>, m: Machine)
    requires low <= 0xffff && high <= 0xffff && IsBlock(it)
    ensures Run(Moves(low, high), at, it, m)
         == Run([BX_IP], Plus(at, 8), if it == [] then [] else [it[0]], Moved(low, high, it, m))
  {
    var code := Moves(low, high);
    DecodesMove(IP, low);
    DecodesMoveTop(IP, high);
    RunWide(code, at, it, m, Move(IP, low));
    var m1, it1 := After(Move(IP, low), it, m), Pending(Move(IP, low), it);
    RunWide(code[2..], Plus(at, 4), it1, m1, MoveTop(IP, high));
    assert code[2..][2..] == [BX_IP];
    assert Pending(MoveTop(IP, high), it1) == if it == [] then [] else [it[0]];
    PlusTwice(at, 4, 4, 8);
  }

  lemma RunsLast(at: bv32, it: seq<bv32>, m: Machine)
    requires |it| <= 1
    ensures Run([BX_IP], Plus(at, 8), it, m) == if it == [] || Holds(it[0], m) then WithoutThumbBit(m.regs(IP)) else Plus(at, 10)
  {
    DecodesFixed();
    RunNarrow([BX_IP], Plus(at, 8), it, m, BranchTo(IP));
    assert [BX_IP][1..] == [];
    PlusTwice(at, 8, 2, 10);
  }

  lemma RunsBX(to: bv32, at: bv32, it: seq<bv32>, m: Machine)
    requires IsEven(to) && IsBlock(it)
    ensures Run(LinkBX(to), at, it, m) == if it == [] || Holds(it[0], m) then to else Plus(at, 10)
  {
    var low, high := LowHalf(to + 1), to >> 16;
    TargetIsKept(to, low, high);
    RunsMoves(low, high, at, it, m);
    MovedHas(low, high, it, m);
    RunsLast(at, if it == [] then [] else [it[0]], Moved(low, high, it, m));
  }

  lemma RunsConditionalBX(cond: bv32, at: bv32, to: bv32, m: Machine)
    requires cond < 14 && IsEven(to)
    ensures Run([IfThenThree(cond)] + LinkBX(to), at, [], m) == if Holds(cond, m) then to else Plus(at, 12)
  {
    var code := [IfThenThree(cond)] + LinkBX(to);
    DecodesIfThen(cond);
    RunNarrow(code, at, [], m, IfThen([cond, cond, cond]));
    assert code[1..] == LinkBX(to);
    RunsBX(to, Plus(at, 2), [cond, cond, cond], m);
    PlusTwice(at, 2, 10, 12);
  }

  // ----- the form that is picked -----

  lemma PlusAfterMinus(from: bv32, a: bv32, b: bv32, c: bv32)
    requires c == a - b
    ensures Plus(Minus(from, a), b) == Minus(from, c)
  {
    assert Minus(from, a) == from - a;
    assert Plus(from - a, b) == Minus(from, a - b);
  }

  lemma StillEven(from: bv32, c: bv32)
    requires IsEven(from) && IsEven(c)
    ensures IsEven(Minus(from, c))
  {
    assert Minus(from, c) == from - c;
    assert IsEven(from - c);
  }

  /** A jump of `size` bytes that starts where one of `room` bytes started. */
  lemma EndsThere(from: bv32, room: bv32, size: bv32, delta: bv32)
    requires delta == room - size && IsEven(from) && IsEven(delta)
    ensures Minus(from, delta) == Plus(Minus(from, room), size) && IsEven(Minus(from, delta))
  {
    PlusAfterMinus(from, room, size, delta);
    StillEven(from, delta);
  }

  /** What it takes for a form to be right in the room of a jump. */
  ghost predicate Reaches(j: JumpType, l: LinkType, cond: bv32, from: bv32, to: bv32, m: Machine) {
    var location := Minus(from, JumpSizeDelta(j, l));
    && CanLink(l, location, to)
    && Run(Link(l, cond, location, to), Minus(from, JumpSize(j)), [], m)
       == if !IsConditional(l) || Holds(cond, m) then to else location
  }

  lemma ReachesT1(cond: bv32, from: bv32, to: bv32, m: Machine)
    requires cond < 14 && IsEven(from) && IsEven(to) && CanBeJumpT1(Minus(from, 10), to)
    ensures Reaches(Condition, T1, cond, from, to, m)
  {
    EndsThere(from, 12, 2, 10);
    RunsT1(cond, Minus(from, 12), Minus(from, 10), to, m);
  }

  lemma ReachesT3(cond: bv32, from: bv32, to: bv32, m: Machine)
    requires cond < 14 && IsEven(from) && IsEven(to) && CanBeJumpT3(Minus(from, 8), to)
    ensures Reaches(Condition, T3, cond, from, to, m)
  {
    EndsThere(from, 12, 4, 8);
    RunsT3(cond, Minus(from, 12), Minus(from, 8), to, m);
  }

  lemma ReachesConditionalT4(cond: bv32, from: bv32, to: bv32, m: Machine)
    requires cond < 14 && IsEven(from) && IsEven(to) && CanBeJumpT4(Minus(from, 6), to)
    ensures Reaches(Condition, ConditionalT4, cond, from, to, m)
  {
    EndsThere(from, 12, 6, 6);
    RunsConditionalT4(cond, Minus(from, 12), Minus(from, 6), to, m);
  }

  lemma ReachesConditionalBX(j: JumpType, cond: bv32, from: bv32, to: bv32, m: Machine)
    requires (j.Condition? || j.ConditionFixedSize?) && cond < 14 && IsEven(from) && IsEven(to)
    ensures Reaches(j, ConditionalBX, cond, from, to, m)
  {
    EndsThere(from, 12, 12, 0);
    RunsConditionalBX(cond, Minus(from, 12), to, m);
  }

  lemma ReachesT2(cond: bv32, from: bv32, to: bv32, m: Machine)
    requires IsEven(from) && IsEven(to) && CanBeJumpT2(Minus(from, 8), to)
    ensures Reaches(NoCondition, T2, cond, from, to, m)
  {
    EndsThere(from, 10, 2, 8);
    RunsT2(cond, Minus(from, 10), Minus(from, 8), to, m);
  }

  lemma ReachesT4(cond: bv32, from: bv32, to: bv32, m: Machine)
    requires IsEven(from) && IsEven(to) && CanBeJumpT4(Minus(from, 6), to)
    ensures Reaches(NoCondition, T4, cond, from, to, m)
  {
    EndsThere(from, 10, 4, 6);
    RunsT4(Minus(from, 10), Minus(from, 6), to, [], m);
  }

  lemma ReachesBX(j: JumpType, cond: bv32, from: bv32, to: bv32, m: Machine)
    requires (j.NoCondition? || j.NoConditionFixedSize?) && IsEven(from) && IsEven(to)
    ensures Reaches(j, BX, cond, from, to, m)
  {
    EndsThere(from, 10, 10, 0);
    RunsBX(to, Minus(from, 10), [], m);
  }

  lemma ConditionReaches(cond: bv32, from: bv32, to: bv32, m: Machine)
    requires cond < 14 && IsEven(from) && IsEven(to)
    ensures Reaches(Condition, ComputeJumpType(Condition, from, to), cond, from, to, m)
  {
    if CanBeJumpT1(Minus(from, 10), to) {
      ReachesT1(cond, from, to, m);
    } else if CanBeJumpT3(Minus(from, 8), to) {
      ReachesT3(cond, from, to, m);
    } else if CanBeJumpT4(Minus(from, 6), to) {
      ReachesConditionalT4(cond, from, to, m);
    } else {
      ReachesConditionalBX(Condition, cond, from, to, m);
    }
  }

  lemma NoConditionReaches(cond: bv32, from: bv32, to: bv32, m: Machine)
    requires IsEven(from) && IsEven(to)
    ensures Reaches(NoCondition, ComputeJumpType(NoCondition, from, to), cond, from, to, m)
  {
    if CanBeJumpT2(Minus(from, 8), to) {
      ReachesT2(cond, from, to, m);
    } else if CanBeJumpT4(Minus(from, 6), to) {
      ReachesT4(cond, from, to, m);
    } else {
      ReachesBX(NoCondition, cond, from, to, m);
    }
  }

  /**
    Whatever form `computeJumpType` picks, the jump moved back by `jumpSizeDelta` passes that form's range check, and
    running it from where the original started reaches the target under the condition, and otherwise goes past the jump.
    Jumps without a condition are recorded with one that is no condition at all, so nothing is asked of theirs.
   */
  lemma LinkedJumpReachesTarget(j: JumpType, cond: bv32, from: bv32, to: bv32, m: Machine)
    requires !j.Fixed? && IsEven(from) && IsEven(to) && (j.Condition? || j.ConditionFixedSize? ==> cond < 14)
    ensures Reaches(j, ComputeJumpType(j, from, to), cond, from, to, m)
    ensures IsConditional(ComputeJumpType(j, from, to)) <==> j.Condition? || j.ConditionFixedSize?
  {
    ConditionIsKept(j, from, to);
    if j.Condition? {
      ConditionReaches(cond, from, to, m);
    } else if j.NoCondition? {
      NoConditionReaches(cond, from, to, m);
    } else {
      FixedSizeReaches(j, cond, from, to, m);
    }
  }

  lemma FixedSizeReaches(j: JumpType, cond: bv32, from: bv32, to: bv32, m: Machine)
    requires IsEven(from) && IsEven(to) && ((j.ConditionFixedSize? && cond < 14) || j.NoConditionFixedSize?)
    ensures Reaches(j, ComputeJumpType(j, from, to), cond, from, to, m)
  {
    if j.ConditionFixedSize? {
      ReachesConditionalBX(j, cond, from, to, m);
    } else {
      ReachesBX(j, cond, from, to, m);
    }
  }

  lemma ConditionIsKept(j: JumpType, from: bv32, to: bv32)
    requires !j.Fixed?
    ensures IsConditional(ComputeJumpType(j, from, to)) <==> j.Condition? || j.ConditionFixedSize?
  {
  }
}
