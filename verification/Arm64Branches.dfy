/**
  Conditional branches of ARM64 in their two-word slots: a short form, with a no-op in the second word, and a long form
  that branches around an unconditional branch. The meaning of a slot is decoded from its two words.
  Addresses and displacements count words.
 */
module Arm64Branches {
  const NOP: bv32 := 0xd503_201f

  datatype Words = Words(first: bv32, second: bv32)

  /** What a branch tests: the flags, or whether a register is zero. */
  datatype Test = Flags(cond: bv32) | Register(is64: bool, nonZero: bool, rt: bv32)

  /** The flags, as the truth of each pair of opposite conditions, and which registers are zero. */
  datatype Machine = Machine(flags: bv32 -> bool, isZero: (bool, bv32) -> bool)

  predicate IsTest(t: Test) {
    match t
    case Flags(cond) => cond < 16
    case Register(_, _, rt) => rt < 31
  }

  /** `ConditionHolds` of the Arm Architecture Reference Manual: both 14 and 15 always hold. */
  predicate Holds(t: Test, m: Machine) {
    match t
    case Flags(cond) => cond == 14 || cond == 15 || m.flags(cond >> 1) != (cond & 1 == 1)
    case Register(is64, nonZero, rt) => m.isZero(is64, rt) != nonZero
  }

  function Inverted(t: Test): (r: Test) {
    match t
    case Flags(cond) => Flags(cond ^ 1)
    case Register(is64, nonZero, rt) => Register(is64, !nonZero, rt)
  }

  // ----- encoding and decoding -----

  function Plus(x: bv64, y: bv64): (r: bv64) { x + y }
  function Minus(x: bv64, y: bv64): (r: bv64) { x - y }

  /** `static_cast<int>` */
  function ToInt(offset: bv64): (r: bv32) { (offset & 0xffff_ffff) as bv32 }

  /** The bits above a signed field of that width are all equal. */
  predicate Fits19(offset: bv64) {
    var high := offset & 0xffff_ffff_fffc_0000;
    high == 0 || high == 0xffff_ffff_fffc_0000
  }

  predicate Fits26(offset: bv64) {
    var high := offset & 0xffff_ffff_fe00_0000;
    high == 0 || high == 0xffff_ffff_fe00_0000
  }

  function BranchWord(t: Test, imm19: bv32): (w: bv32)
    requires IsTest(t)
  {
    match t
    case Flags(cond) => 0x5400_0000 | ((imm19 & 0x7_ffff) << 5) | cond
    case Register(is64, nonZero, rt) =>
      0x3400_0000 | (if is64 then 0x8000_0000 else 0) | (if nonZero then 0x0100_0000 else 0) | ((imm19 & 0x7_ffff) << 5) | rt
  }

  function JumpWord(imm26: bv32): (w: bv32) {
    0x1400_0000 | (imm26 & 0x3ff_ffff)
  }

  predicate IsFlagsBranch(w: bv32) { w & 0xfe00_0000 == 0x5400_0000 }
  predicate IsRegisterBranch(w: bv32) { w & 0x7e00_0000 == 0x3400_0000 }
  predicate IsJump(w: bv32) { w & 0xfc00_0000 == 0x1400_0000 }

  function TestOf(w: bv32): (t: Test) {
    if IsFlagsBranch(w) then Flags(w & 0xf)
    else Register(w & 0x8000_0000 != 0, w & 0x0100_0000 != 0, w & 0x1f)
  }

  function Field19(w: bv32): (r: bv64) { ((w >> 5) & 0x7_ffff) as bv64 }
  function Field26(w: bv32): (r: bv64) { (w & 0x3ff_ffff) as bv64 }

  function Extend19(field: bv64): (r: bv64) {
    if field & 0x4_0000 != 0 then field | 0xffff_ffff_fff8_0000 else field
  }

  function Extend26(field: bv64): (r: bv64) {
    if field & 0x200_0000 != 0 then field | 0xffff_ffff_fc00_0000 else field
  }

  function Imm19(w: bv32): (r: bv64) { Extend19(Field19(w)) }
  function Imm26(w: bv32): (r: bv64) { Extend26(Field26(w)) }

  lemma Extends19(offset: bv64, field: bv64)
    requires Fits19(offset) && field == offset & 0x7_ffff
    ensures Extend19(field) == offset
  {
    if offset & 0xffff_ffff_fffc_0000 == 0 {
      assert field == offset && field & 0x4_0000 == 0;
    } else {
      assert field & 0x4_0000 != 0;
    }
  }

  lemma Extends26(offset: bv64, field: bv64)
    requires Fits26(offset) && field == offset & 0x3ff_ffff
    ensures Extend26(field) == offset
  {
    if offset & 0xffff_ffff_fe00_0000 == 0 {
      assert field == offset && field & 0x200_0000 == 0;
    } else {
      assert field & 0x200_0000 != 0;
    }
  }

  lemma JumpFields(imm: bv32, w: bv32)
    requires w == JumpWord(imm)
    ensures w & 0x3ff_ffff == imm & 0x3ff_ffff && IsJump(w) && w != NOP
  {
  }

  lemma Field26Of(offset: bv64, w: bv32)
    requires w & 0x3ff_ffff == ToInt(offset) & 0x3ff_ffff
    ensures Field26(w) == offset & 0x3ff_ffff
  {
  }

  lemma FlagsFields(cond: bv32, imm: bv32, w: bv32)
    requires cond < 16 && w == BranchWord(Flags(cond), imm)
    ensures (w >> 5) & 0x7_ffff == imm & 0x7_ffff && IsFlagsBranch(w) && !IsRegisterBranch(w) && w & 0xf == cond
  {
  }

  lemma RegisterFields(is64: bool, nonZero: bool, rt: bv32, imm: bv32, w: bv32)
    requires rt < 31 && w == BranchWord(Register(is64, nonZero, rt), imm)
    ensures (w >> 5) & 0x7_ffff == imm & 0x7_ffff && !IsFlagsBranch(w) && IsRegisterBranch(w) && w & 0x1f == rt
    ensures w & 0x8000_0000 != 0 <==> is64
    ensures w & 0x0100_0000 != 0 <==> nonZero
  {
  }

  lemma Field19Of(offset: bv64, imm: bv32, w: bv32, field: bv64)
    requires imm == ToInt(offset) && (w >> 5) & 0x7_ffff == imm & 0x7_ffff && field == Field19(w)
    ensures field == offset & 0x7_ffff
  {
  }

  lemma BranchFields(t: Test, imm: bv32, w: bv32)
    requires IsTest(t) && w == BranchWord(t, imm)
    ensures IsBranch(w) && TestOf(w) == t && (w >> 5) & 0x7_ffff == imm & 0x7_ffff
  {
    match t {
      case Flags(cond) => FlagsFields(cond, imm, w);
      case Register(is64, nonZero, rt) => RegisterFields(is64, nonZero, rt, imm, w);
    }
  }

  lemma DecodesImm19(offset: bv64, imm: bv32, w: bv32)
    requires Fits19(offset) && imm == ToInt(offset) && (w >> 5) & 0x7_ffff == imm & 0x7_ffff
    ensures Imm19(w) == offset
  {
    var field := Field19(w);
    Field19Of(offset, imm, w, field);
    Extends19(offset, field);
  }

  lemma DecodesBranch(t: Test, offset: bv64)
    requires IsTest(t) && Fits19(offset)
    ensures var w := BranchWord(t, ToInt(offset)); IsBranch(w) && TestOf(w) == t && Imm19(w) == offset
  {
    var imm := ToInt(offset);
    var w := BranchWord(t, imm);
    BranchFields(t, imm, w);
    DecodesImm19(offset, imm, w);
  }

  lemma DecodesJump(offset: bv64)
    requires Fits26(offset)
    ensures var w := JumpWord(ToInt(offset)); IsJump(w) && w != NOP && Imm26(w) == offset
  {
    var w := JumpWord(ToInt(offset));
    JumpFields(ToInt(offset), w);
    Field26Of(offset, w);
    Extends26(offset, Field26(w));
  }

  // ----- what a slot does -----

  predicate IsBranch(w: bv32) { IsFlagsBranch(w) || IsRegisterBranch(w) }

  /** `NOP`: the hint instruction 1101 0101 0000 0011 0010 0000 0001 1111. */
  predicate IsNop(w: bv32) { w == 0xd503_201f }

  /** Where execution goes from a slot at address `p`. */
  function Exit(ws: Words, p: bv64, m: Machine): (r: bv64) {
    if Holds(TestOf(ws.first), m) then Plus(p, Imm19(ws.first))
    else if IsNop(ws.second) then Plus(p, 2)
    else Plus(Plus(p, 1), Imm26(ws.second))
  }

  /** The slot goes to `to` when the test holds, and on to the code after it when not. */
  ghost predicate Means(ws: Words, p: bv64, t: Test, to: bv64) {
    forall m: Machine :: Exit(ws, p, m) == if Holds(t, m) then to else Plus(p, 2)
  }

  // ----- linking and relinking -----

  /** `linkConditionalBranch` and `linkCompareAndBranch`. */
  function Link(t: Test, p: bv64, to: bv64): (ws: Words)
    requires IsTest(t)
  {
    if Fits19(Minus(to, p)) then Words(BranchWord(t, ToInt(Minus(to, p))), NOP)
    else Words(BranchWord(Inverted(t), 2), JumpWord(ToInt(Minus(to, Plus(p, 1)))))
  }

  /** `relinkJumpOrCall`, for a jump from the second word of a slot. */
  function Relink(ws: Words, p: bv64, to: bv64): (r: Words)
    requires IsTest(TestOf(ws.first))
  {
    if ws.second == NOP then
      var t := TestOf(ws.first);
      Link(if Imm19(ws.first) == 8 then Inverted(t) else t, p, to)
    else Words(ws.first, JumpWord(ToInt(Minus(to, Plus(p, 1)))))
  }

  function RelinkAll(ws: Words, p: bv64, tos: seq<bv64>): (r: Words)
    requires IsTest(TestOf(ws.first))
  {
    if tos == [] then ws
    else
      var ws' := RelinkAll(ws, p, tos[..|tos| - 1]);
      if IsTest(TestOf(ws'.first)) then Relink(ws', p, tos[|tos| - 1]) else ws'
  }

  // ----- the states of a slot -----

  /** What a slot has come to test, where it goes, and in which form. */
  datatype State = Short(test: Test, to: bv64) | Long(test: Test, to: bv64)

  function WordsOf(s: State, p: bv64): (ws: Words)
    requires IsTest(s.test)
  {
    match s
    case Short(t, to) => Words(BranchWord(t, ToInt(Minus(to, p))), NOP)
    case Long(t, to) => Words(BranchWord(Inverted(t), 2), JumpWord(ToInt(Minus(to, Plus(p, 1)))))
  }

  /**
    What the unconditional branch of a long form asserts of its displacement, which counts from the second word. Targets
    of a short form pass it anyway, so every target that passes the source's assertions is in reach.
   */
  predicate InReach(p: bv64, to: bv64) {
    Fits26(Minus(to, Plus(p, 1)))
  }

  /** Both 14 and 15 hold on every machine, so that inverting them changes nothing. */
  predicate AlwaysHolds(t: Test) {
    t.Flags? && t.cond >= 14
  }

  predicate IsState(s: State, p: bv64) {
    && IsTest(s.test)
    && InReach(p, s.to)
    && (s.Short? ==> Fits19(Minus(s.to, p)))
  }

  function Linked(t: Test, p: bv64, to: bv64): (s: State) {
    if Fits19(Minus(to, p)) then Short(t, to) else Long(t, to)
  }

  /** A short branch eight words ahead is taken for one that had been inverted. */
  function Relinked(s: State, p: bv64, to: bv64): (r: State) {
    match s
    case Short(t, before) => Linked(if Minus(before, p) == 8 then Inverted(t) else t, p, to)
    case Long(t, _) => Long(t, to)
  }

  lemma InvertedIsTest(t: Test)
    requires IsTest(t)
    ensures IsTest(Inverted(t)) && Inverted(Inverted(t)) == t
  {
    match t {
      case Flags(cond) => FlipLowest(cond);
      case Register(_, _, _) =>
    }
  }

  lemma FlipLowest(cond: bv32)
    ensures (cond ^ 1) ^ 1 == cond && (cond < 16 ==> (cond ^ 1) < 16)
  {
  }

  lemma TwoAhead()
    ensures ToInt(2) == 2 && Fits19(2)
  {
  }

  /** The states describe what relinking does to the words. */
  lemma RelinkFollowsState(s: State, p: bv64, to: bv64)
    requires IsState(s, p)
    ensures IsTest(TestOf(WordsOf(s, p).first))
    ensures Relink(WordsOf(s, p), p, to) == WordsOf(Relinked(s, p, to), p)
    ensures IsTest(Relinked(s, p, to).test)
  {
    InvertedIsTest(s.test);
    match s {
      case Short(t, before) =>
        DecodesBranch(t, Minus(before, p));
      case Long(t, before) =>
        TwoAhead();
        DecodesBranch(Inverted(t), 2);
        DecodesJump(Minus(before, Plus(p, 1)));
    }
  }

  lemma GoesBack(p: bv64, to: bv64)
    ensures Plus(p, Minus(to, p)) == to
  {
    assert Minus(to, p) == to - p;
    assert Plus(p, to - p) == to;
  }

  lemma {:induction false} TestFlips(t: Test, m: Machine)
    requires IsTest(t) && !AlwaysHolds(t)
    ensures Holds(Inverted(t), m) <==> !Holds(t, m)
  {
    match t {
      case Flags(cond) => FlagsFlip(cond);
      case Register(_, _, _) =>
    }
  }

  lemma FlagsFlip(cond: bv32)
    requires cond < 14
    ensures cond ^ 1 != 14 && cond ^ 1 != 15 && (cond ^ 1) >> 1 == cond >> 1 && ((cond ^ 1) & 1 == 1 <==> cond & 1 != 1)
  {
  }

  lemma ShortIsMeant(t: Test, to: bv64, p: bv64)
    requires IsTest(t) && Fits19(Minus(to, p))
    ensures Means(WordsOf(Short(t, to), p), p, t, to)
  {
    DecodesBranch(t, Minus(to, p));
    GoesBack(p, to);
  }

  /** What a long form does, whatever its second word reaches. */
  lemma LongExit(t: Test, to: bv64, p: bv64, m: Machine)
    requires IsTest(t)
    ensures var ws := WordsOf(Long(t, to), p);
            Exit(ws, p, m) == if Holds(Inverted(t), m) then Plus(p, 2) else Plus(Plus(p, 1), Imm26(ws.second))
  {
    InvertedIsTest(t);
    TwoAhead();
    DecodesBranch(Inverted(t), 2);
    JumpFields(ToInt(Minus(to, Plus(p, 1))), WordsOf(Long(t, to), p).second);
  }

  lemma LongIsMeant(t: Test, to: bv64, p: bv64)
    requires IsTest(t) && !AlwaysHolds(t) && InReach(p, to)
    ensures Means(WordsOf(Long(t, to), p), p, t, to)
  {
    DecodesJump(Minus(to, Plus(p, 1)));
    GoesBack(Plus(p, 1), to);
    forall m: Machine ensures Exit(WordsOf(Long(t, to), p), p, m) == if Holds(t, m) then to else Plus(p, 2) {
      LongExit(t, to, p, m);
      TestFlips(t, m);
    }
  }

  lemma AlwaysInverts(t: Test, m: Machine)
    requires IsTest(t) && AlwaysHolds(t)
    ensures AlwaysHolds(Inverted(t)) && Holds(t, m) && Holds(Inverted(t), m)
  {
    FlipsAlways(t.cond);
  }

  lemma FlipsAlways(cond: bv32)
    requires 14 <= cond < 16
    ensures (cond == 14 || cond == 15) && 14 <= cond ^ 1 < 16 && (cond ^ 1 == 14 || cond ^ 1 == 15)
  {
  }

  /** The long form of a branch that always holds never branches: its inverse always holds too. */
  lemma AlwaysHasNoLongForm(t: Test, to: bv64, p: bv64, m: Machine)
    requires IsTest(t) && AlwaysHolds(t)
    ensures Exit(WordsOf(Long(t, to), p), p, m) == Plus(p, 2)
  {
    AlwaysInverts(t, m);
    LongExit(t, to, p, m);
  }

  /** A slot means its state, in either form; only "always" has no long form. */
  lemma StateIsMeant(s: State, p: bv64)
    requires IsState(s, p) && (s.Long? ==> !AlwaysHolds(s.test))
    ensures Means(WordsOf(s, p), p, s.test, s.to)
  {
    match s {
      case Short(t, to) => ShortIsMeant(t, to, p);
      case Long(t, to) => LongIsMeant(t, to, p);
    }
  }

  // ----- histories -----

  function StateAfter(t: Test, p: bv64, to: bv64, tos: seq<bv64>): (s: State) {
    if tos == [] then Linked(t, p, to) else Relinked(StateAfter(t, p, to, tos[..|tos| - 1]), p, tos[|tos| - 1])
  }

  function LastTarget(to: bv64, tos: seq<bv64>): (r: bv64) {
    if tos == [] then to else tos[|tos| - 1]
  }

  /** Whether the slot is still short after these targets. */
  predicate StillShort(p: bv64, to: bv64, tos: seq<bv64>) {
    Fits19(Minus(to, p)) && forall i :: 0 <= i < |tos| ==> Fits19(Minus(tos[i], p))
  }

  /** Whether the relinks so far have inverted the test an odd number of times: each does that left a short branch to p + 8. */
  predicate Drifted(p: bv64, to: bv64, tos: seq<bv64>) {
    if tos == [] then false
    else
      var before := tos[..|tos| - 1];
      Drifted(p, to, before) != (StillShort(p, to, before) && Minus(LastTarget(to, before), p) == 8)
  }

  function Turned(t: Test, odd: bool): (r: Test) {
    if odd then Inverted(t) else t
  }

  lemma TurnedOnceMore(t: Test, odd: bool)
    requires IsTest(t)
    ensures Inverted(Turned(t, odd)) == Turned(t, !odd)
  {
    InvertedIsTest(t);
  }

  lemma LinkedParts(t: Test, p: bv64, to: bv64)
    ensures var r := Linked(t, p, to); r.to == to && r.test == t && (r.Short? <==> Fits19(Minus(to, p)))
  {
  }

  /** Whether a relink from this state inverts the test. */
  predicate Inverts(s: State, p: bv64) {
    s.Short? && Minus(s.to, p) == 8
  }

  lemma RelinkedIs(t: Test, odd: bool, s: State, p: bv64, to: bv64)
    requires IsTest(t) && s.test == Turned(t, odd)
    ensures var r := Relinked(s, p, to);
            && r.to == to
            && r.test == Turned(t, odd != Inverts(s, p))
            && (r.Short? <==> s.Short? && Fits19(Minus(to, p)))
  {
    if s.Short? {
      TurnedOnceMore(t, odd);
      LinkedParts(Turned(t, odd != Inverts(s, p)), p, to);
      assert Relinked(s, p, to) == Linked(Turned(t, odd != Inverts(s, p)), p, to);
    }
  }

  lemma StillShortThen(p: bv64, to: bv64, tos: seq<bv64>)
    requires tos != []
    ensures StillShort(p, to, tos) <==> StillShort(p, to, tos[..|tos| - 1]) && Fits19(Minus(tos[|tos| - 1], p))
  {
    var before := tos[..|tos| - 1];
    assert forall i :: 0 <= i < |before| ==> before[i] == tos[i];
  }

  /** The state after a history, in closed form. */
  lemma {:induction false} StateAfterIs(t: Test, p: bv64, to: bv64, tos: seq<bv64>)
    requires IsTest(t)
    ensures var s := StateAfter(t, p, to, tos);
            && s.to == LastTarget(to, tos)
            && s.test == Turned(t, Drifted(p, to, tos))
            && (s.Short? <==> StillShort(p, to, tos))
    decreases |tos|
  {
    if tos != [] {
      var before := tos[..|tos| - 1];
      StateAfterIs(t, p, to, before);
      StillShortThen(p, to, tos);
      RelinkedIs(t, Drifted(p, to, before), StateAfter(t, p, to, before), p, tos[|tos| - 1]);
    }
  }

  lemma LinkedIsState(t: Test, p: bv64, to: bv64)
    requires IsTest(t) && InReach(p, to)
    ensures IsState(Linked(t, p, to), p) && Link(t, p, to) == WordsOf(Linked(t, p, to), p)
  {
    if Fits19(Minus(to, p)) {
      assert Linked(t, p, to) == Short(t, to);
    } else {
      assert Linked(t, p, to) == Long(t, to);
    }
  }

  lemma LinkedWordsTest(t: Test, p: bv64, to: bv64)
    requires IsTest(t) && InReach(p, to)
    ensures IsTest(TestOf(Link(t, p, to).first))
  {
    LinkedIsState(t, p, to);
    RelinkFollowsState(Linked(t, p, to), p, to);
  }

  lemma RelinkedIsState(s: State, p: bv64, to: bv64)
    requires IsState(s, p) && InReach(p, to)
    ensures IsState(Relinked(s, p, to), p)
  {
    InvertedIsTest(s.test);
    if s.Long? {
      assert Relinked(s, p, to) == Long(s.test, to);
    } else {
      RelinkedShortIsState(s.test, s.to, p, to);
    }
  }

  lemma RelinkedShortIsState(t: Test, before: bv64, p: bv64, to: bv64)
    requires IsTest(t) && InReach(p, to)
    ensures IsState(Relinked(Short(t, before), p, to), p)
  {
    InvertedIsTest(t);
    var t' := if Minus(before, p) == 8 then Inverted(t) else t;
    LinkedIsState(t', p, to);
    assert Relinked(Short(t, before), p, to) == Linked(t', p, to);
  }

  /** The words after a history are those of the state after it. */
  lemma {:induction false} WordsAfterHistory(t: Test, p: bv64, to: bv64, tos: seq<bv64>)
    requires IsTest(t) && InReach(p, to) && forall i :: 0 <= i < |tos| ==> InReach(p, tos[i])
    ensures IsState(StateAfter(t, p, to, tos), p)
    ensures IsTest(TestOf(Link(t, p, to).first))
    ensures RelinkAll(Link(t, p, to), p, tos) == WordsOf(StateAfter(t, p, to, tos), p)
    decreases |tos|
  {
    LinkedIsState(t, p, to);
    LinkedWordsTest(t, p, to);
    if tos != [] {
      var before, last := tos[..|tos| - 1], tos[|tos| - 1];
      WordsAfterHistory(t, p, to, before);
      var s := StateAfter(t, p, to, before);
      RelinkFollowsState(s, p, last);
      RelinkedIsState(s, p, last);
      assert RelinkAll(Link(t, p, to), p, tos) == Relink(WordsOf(s, p), p, last);
    }
  }

  /** Machines on which a test holds, and on which it does not. */
  lemma Outcomes(t: Test) returns (yes: Machine, no: Machine)
    requires IsTest(t) && !AlwaysHolds(t)
    ensures Holds(t, yes) && !Holds(t, no)
  {
    var on, off := Machine(c => true, (s, r) => true), Machine(c => false, (s, r) => false);
    if Holds(t, on) {
      yes, no := on, off;
    } else {
      yes, no := off, on;
    }
  }

  /** A slot has one meaning, unless it goes to the code after it anyway. */
  lemma MeaningIsUnique(ws: Words, p: bv64, t: Test, to: bv64)
    requires IsTest(t) && !AlwaysHolds(t) && Means(ws, p, Inverted(t), to)
    ensures Means(ws, p, t, to) <==> to == Plus(p, 2)
  {
    var yes, no := Outcomes(t);
    TestFlips(t, yes);
    forall m: Machine ensures Holds(Inverted(t), m) <==> !Holds(t, m) {
      TestFlips(t, m);
    }
    if Means(ws, p, t, to) {
      assert Exit(ws, p, yes) == to && Exit(ws, p, yes) == Plus(p, 2);
    }
  }

  lemma TurnedIsTest(t: Test, odd: bool)
    requires IsTest(t)
    ensures IsTest(Turned(t, odd)) && (AlwaysHolds(Turned(t, odd)) <==> AlwaysHolds(t))
  {
    InvertedIsTest(t);
    if t.Flags? {
      FlipKeepsAlways(t.cond);
    }
  }

  lemma FlipKeepsAlways(cond: bv32)
    requires cond < 16
    ensures cond ^ 1 >= 14 <==> cond >= 14
  {
  }

  /** A slot in a state whose test was turned means the test it had if and only if it was turned back. */
  lemma TurnedStateMeans(t: Test, odd: bool, s: State, p: bv64)
    requires IsTest(t) && !AlwaysHolds(t) && IsState(s, p) && s.test == Turned(t, odd)
    ensures Means(WordsOf(s, p), p, t, s.to) <==> !odd || s.to == Plus(p, 2)
  {
    TurnedIsTest(t, odd);
    StateIsMeant(s, p);
    if odd {
      MeaningIsUnique(WordsOf(s, p), p, t, s.to);
    }
  }

  lemma TestsAgree(ws: Words, p: bv64, t: Test, t': Test, to: bv64)
    requires Means(ws, p, t', to) && forall m: Machine :: Holds(t, m) && Holds(t', m)
    ensures Means(ws, p, t, to)
  {
  }

  lemma AlwaysStateMeans(t: Test, odd: bool, s: State, p: bv64)
    requires IsTest(t) && AlwaysHolds(t) && IsState(s, p) && s.test == Turned(t, odd)
    ensures Means(WordsOf(s, p), p, t, s.to) <==> s.Short? || s.to == Plus(p, 2)
  {
    TurnedIsTest(t, odd);
    forall m: Machine ensures Holds(t, m) && Holds(s.test, m) {
      AlwaysInverts(t, m);
    }
    if s.Short? {
      ShortIsMeant(s.test, s.to, p);
      TestsAgree(WordsOf(s, p), p, t, s.test, s.to);
    } else {
      LongAlwaysMeans(t, s.test, s.to, p);
    }
  }

  lemma LongAlwaysMeans(t: Test, t': Test, to: bv64, p: bv64)
    requires IsTest(t) && IsTest(t') && AlwaysHolds(t) && AlwaysHolds(t')
    ensures Means(WordsOf(Long(t', to), p), p, t, to) <==> to == Plus(p, 2)
  {
    var ws := WordsOf(Long(t', to), p);
    forall m: Machine ensures Holds(t, m) && Exit(ws, p, m) == Plus(p, 2) {
      AlwaysInverts(t, m);
      AlwaysHasNoLongForm(t', to, p, m);
    }
    var some := Machine(c => true, (s, r) => true);
    assert Exit(ws, p, some) == Plus(p, 2);
  }

  /**
    However often a slot is linked and relinked, it goes to the last target exactly when its test holds, if and only if
    the relinks that left a short branch to p + 8 are even in number; if the test always holds, if and only if the slot
    was never made long. (A target that is the code after the slot is reached in any case.)
   */
  lemma RelinkedSlotMeans(t: Test, p: bv64, to: bv64, tos: seq<bv64>)
    requires IsTest(t)
    requires InReach(p, to) && forall i :: 0 <= i < |tos| ==> InReach(p, tos[i])
    ensures IsTest(TestOf(Link(t, p, to).first))
    ensures var last := LastTarget(to, tos);
            Means(RelinkAll(Link(t, p, to), p, tos), p, t, last)
            <==> (if AlwaysHolds(t) then StillShort(p, to, tos) else !Drifted(p, to, tos)) || last == Plus(p, 2)
  {
    var s, odd := StateAfter(t, p, to, tos), Drifted(p, to, tos);
    WordsAfterHistory(t, p, to, tos);
    StateAfterIs(t, p, to, tos);
    if AlwaysHolds(t) {
      AlwaysStateMeans(t, odd, s, p);
    } else {
      TurnedStateMeans(t, odd, s, p);
    }
  }

  lemma Ahead(p: bv64, n: bv64)
    ensures Minus(Plus(p, n), p) == n && Minus(Plus(p, n), Plus(p, 1)) == n - 1
  {
    assert Plus(p, n) == p + n && Plus(p, 1) == p + 1;
    assert Minus(p + n, p) == n && Minus(p + n, p + 1) == n - 1;
  }

  lemma AheadInReach(p: bv64, n: bv64)
    requires n == 8 || n == 16
    ensures InReach(p, Plus(p, n)) && Fits19(Minus(Plus(p, n), p)) && Minus(Plus(p, n), p) == n
  {
    Ahead(p, n);
    if n == 8 {
      assert Fits26(7) && Fits19(8);
    } else {
      assert Fits26(15) && Fits19(16);
    }
  }

  /** Linked to p + 8 and then to p + 16, a slot no longer branches on its test. */
  lemma RelinkFromEightInverts(p: bv64, t: Test)
    requires IsTest(t) && !AlwaysHolds(t)
    ensures IsTest(TestOf(Link(t, p, Plus(p, 8)).first))
    ensures !Means(RelinkAll(Link(t, p, Plus(p, 8)), p, [Plus(p, 16)]), p, t, Plus(p, 16))
  {
    AheadInReach(p, 8);
    AheadInReach(p, 16);
    Ahead(p, 2);
    var tos := [Plus(p, 16)];
    assert tos[..0] == [] && !Drifted(p, Plus(p, 8), []);
    assert Drifted(p, Plus(p, 8), tos);
    RelinkedSlotMeans(t, p, Plus(p, 8), tos);
  }

  // ----- the edges of the reach -----

  lemma FromSecondWord(p: bv64, to: bv64)
    ensures Minus(to, Plus(p, 1)) == Minus(Minus(to, p), 1)
  {
    assert Plus(p, 1) == p + 1 && Minus(to, p) == to - p;
    assert Minus(to, p + 1) == Minus(to - p, 1);
  }

  lemma OneLess(offset: bv64)
    requires Fits26(offset)
    ensures Fits26(Minus(offset, 1)) <==> offset != 0xffff_ffff_fe00_0000
    ensures offset == 0xffff_ffff_fe00_0000 ==> Minus(offset, 1) == 0xffff_ffff_fdff_ffff && !Fits19(offset)
  {
  }

  lemma ShortFits(offset: bv64)
    requires Fits19(offset)
    ensures Fits26(offset) && offset != 0xffff_ffff_fe00_0000
  {
  }

  /** Targets of a short form are in reach. */
  lemma ShortIsInReach(p: bv64, to: bv64)
    requires Fits19(Minus(to, p))
    ensures InReach(p, to)
  {
    FromSecondWord(p, to);
    ShortFits(Minus(to, p));
    OneLess(Minus(to, p));
  }

  lemma LowestJumpWraps(w: bv32)
    requires w == JumpWord(ToInt(0xffff_ffff_fdff_ffff))
    ensures w != NOP && Imm26(w) == 0x1ff_ffff
  {
  }

  /**
    The lowest displacement that fits 26 bits from the first word does not fit them from the second, and without the
    assertion made there the slot would go as far forward instead.
   */
  lemma LowestWraps(t: Test, p: bv64, to: bv64)
    requires IsTest(t) && !AlwaysHolds(t) && Minus(to, p) == 0xffff_ffff_fe00_0000
    ensures Fits26(Minus(to, p)) && !InReach(p, to)
    ensures Means(Link(t, p, to), p, t, Plus(Plus(p, 1), 0x1ff_ffff)) && Plus(Plus(p, 1), 0x1ff_ffff) != to
  {
    var ws := Link(t, p, to);
    FromSecondWord(p, to);
    OneLess(Minus(to, p));
    LowestJumpWraps(ws.second);
    assert ws == WordsOf(Long(t, to), p);
    forall m: Machine ensures Exit(ws, p, m) == if Holds(t, m) then Plus(Plus(p, 1), 0x1ff_ffff) else Plus(p, 2) {
      LongExit(t, to, p, m);
      TestFlips(t, m);
    }
    Forward(p, to);
  }

  lemma Apart(p: bv64)
    ensures p + 0x200_0000 != p + 0xffff_ffff_fe00_0000
  {
  }

  lemma Forward(p: bv64, to: bv64)
    requires Minus(to, p) == 0xffff_ffff_fe00_0000
    ensures Plus(Plus(p, 1), 0x1ff_ffff) != to
  {
    var forward, back := p + 0x200_0000, p + 0xffff_ffff_fe00_0000;
    assert Plus(p, 1) == p + 1;
    assert Plus(p + 1, 0x1ff_ffff) == forward;
    GoesBack(p, to);
    assert Plus(p, 0xffff_ffff_fe00_0000) == back;
    Apart(p);
  }

  lemma Extended26Fits(field: bv64)
    requires field <= 0x3ff_ffff
    ensures Fits26(Extend26(field))
  {
  }

  lemma Field26IsSmall(w: bv32)
    ensures Field26(w) <= 0x3ff_ffff
  {
  }

  /** What a long form reaches is in reach. */
  lemma ReachedIsInReach(t: Test, p: bv64, to: bv64)
    requires IsTest(t) && !AlwaysHolds(t) && Means(WordsOf(Long(t, to), p), p, t, to)
    ensures InReach(p, to)
  {
    var yes, _ := Outcomes(t);
    var w := WordsOf(Long(t, to), p).second;
    LongExit(t, to, p, yes);
    TestFlips(t, yes);
    Ahead(Plus(p, 1), Imm26(w));
    Field26IsSmall(w);
    Extended26Fits(Field26(w));
  }

  lemma NextIsShort(p: bv64)
    ensures Fits19(Minus(Plus(p, 2), p))
  {
    Ahead(p, 2);
    TwoAhead();
  }

  lemma LongLinkMeans(t: Test, p: bv64, to: bv64)
    requires IsTest(t) && !Fits19(Minus(to, p))
    ensures Means(WordsOf(Long(t, to), p), p, t, to) <==> InReach(p, to) && !AlwaysHolds(t)
  {
    if AlwaysHolds(t) {
      LongAlwaysMeans(t, t, to, p);
      NextIsShort(p);
    } else if InReach(p, to) {
      LongIsMeant(t, to, p);
    } else if Means(WordsOf(Long(t, to), p), p, t, to) {
      ReachedIsInReach(t, p, to);
    }
  }

  /**
    For every test and every target at all, linking is right if and only if the short form reaches the target, or the
    long form does from its second word and the test is one that can fail.
   */
  lemma LinkMeans(t: Test, p: bv64, to: bv64)
    requires IsTest(t)
    ensures Means(Link(t, p, to), p, t, to) <==> Fits19(Minus(to, p)) || (InReach(p, to) && !AlwaysHolds(t))
  {
    if Fits19(Minus(to, p)) {
      ShortIsMeant(t, to, p);
    } else {
      LongLinkMeans(t, p, to);
    }
  }

  // ----- a slot in memory -----

  class Slot {
    const address: bv64
    var words: Words
    ghost const test: Test
    ghost const linkedTo: bv64
    ghost var relinkedTo: seq<bv64>

    /** The slot holds what linking and then relinking it, target by target, leaves. */
    ghost predicate Valid()
      reads this
    {
      && IsTest(test) && InReach(address, linkedTo) && (forall i :: 0 <= i < |relinkedTo| ==> InReach(address, relinkedTo[i]))
      && IsTest(TestOf(Link(test, address, linkedTo).first)) && IsTest(TestOf(words.first))
      && words == RelinkAll(Link(test, address, linkedTo), address, relinkedTo)
    }

    /** `linkConditionalBranch` or `linkCompareAndBranch`, according to the test. */
    constructor (address: bv64, test: Test, to: bv64)
      requires IsTest(test) && InReach(address, to)
      ensures Valid() && this.address == address && this.test == test && linkedTo == to && relinkedTo == []
    {
      this.address, this.test, linkedTo, relinkedTo := address, test, to, [];
      var offset := Minus(to, address);
      if Fits19(offset) {
        words := Words(BranchWord(test, ToInt(offset)), NOP);
      } else {
        words := Words(BranchWord(Inverted(test), 2), JumpWord(ToInt(Minus(to, Plus(address, 1)))));
      }
      new;
      WordsAfterHistory(test, address, to, []);
    }

    /** `relinkJump`. */
    method RelinkJump(to: bv64)
      requires Valid() && InReach(address, to)
      modifies this
      ensures Valid() && relinkedTo == old(relinkedTo) + [to]
    {
      if words.second == NOP {
        RelinkShort(to);
      } else {
        words := Words(words.first, JumpWord(ToInt(Minus(to, Plus(address, 1)))));
      }
      HistoryGrows(old(words), to);
      relinkedTo := relinkedTo + [to];
    }

    /** The part of `relinkJumpOrCall` for a slot with a no-op in its second word. */
    method RelinkShort(to: bv64)
      requires IsTest(TestOf(words.first)) && words.second == NOP
      modifies `words
      ensures words == Relink(old(words), address, to)
    {
      var t := TestOf(words.first);
      InvertedIsTest(t);
      if Imm19(words.first) == 8 {
        t := Inverted(t);
      }
      var offset := Minus(to, address);
      if Fits19(offset) {
        words := Words(BranchWord(t, ToInt(offset)), NOP);
      } else {
        InvertedIsTest(t);
        words := Words(BranchWord(Inverted(t), 2), JumpWord(ToInt(Minus(to, Plus(address, 1)))));
      }
    }

    lemma HistoryGrows(ws: Words, to: bv64)
      requires IsTest(test) && InReach(address, linkedTo) && forall i :: 0 <= i < |relinkedTo| ==> InReach(address, relinkedTo[i])
      requires IsTest(TestOf(Link(test, address, linkedTo).first)) && IsTest(TestOf(ws.first)) && InReach(address, to)
      requires ws == RelinkAll(Link(test, address, linkedTo), address, relinkedTo)
      ensures Relink(ws, address, to) == RelinkAll(Link(test, address, linkedTo), address, relinkedTo + [to])
      ensures IsTest(TestOf(Relink(ws, address, to).first))
    {
      var tos := relinkedTo + [to];
      assert tos[..|tos| - 1] == relinkedTo;
      WordsAfterHistory(test, address, linkedTo, tos);
      RelinkFollowsState(StateAfter(test, address, linkedTo, tos), address, to);
    }
  }
}
