/**
  Thumb-2 jumps and constants in code memory: linking in place, jump slots that are linked again and again, and
  move pairs whose 32-bit constant is replaced.
 */
module ThumbSlots {
  import opened ThumbCode
  import opened ThumbWords
  import opened ThumbJumps
  import opened ThumbForms

  // ----- linking in place -----

  /** The code with the halfwords before `end` replaced. */
  function Patched(code: seq<bv16>, end: nat, words: seq<bv16>): (r: seq<bv16>)
    requires |words| <= end <= |code|
  {
    code[..end - |words|] + words + code[end..]
  }

  lemma PatchedHolds(code: seq<bv16>, end: nat, words: seq<bv16>)
    requires |words| <= end <= |code|
    ensures Patched(code, end, words)[end - |words|..end] == words
  {
  }

  method WriteJumpT4(code: array<bv16>, end: nat, location: bv32, to: bv32)
    requires 2 <= end <= code.Length
    modifies code
    ensures code[..] == Patched(old(code[..]), end, LinkJumpT4(location, to))
  {
    var relative := Peculiar(Minus(to, location));
    code[end - 2], code[end - 1] := FirstT4(relative), SecondT4(relative);
  }

  method WriteBX(code: array<bv16>, end: nat, to: bv32)
    requires 5 <= end <= code.Length
    modifies code
    ensures code[..] == Patched(old(code[..]), end, LinkBX(to))
  {
    var low, high := LowHalf(to + 1), to >> 16;
    code[end - 5], code[end - 4] := MoveFirst(MOVW, low), MoveSecond(IP, low);
    code[end - 3], code[end - 2] := MoveFirst(MOVT, high), MoveSecond(IP, high);
    code[end - 1] := BX_IP;
  }

  method WriteConditionalT4(code: array<bv16>, end: nat, cond: bv32, location: bv32, to: bv32)
    requires 3 <= end <= code.Length
    modifies code
    ensures code[..] == Patched(old(code[..]), end, [IfThenOne(cond)] + LinkJumpT4(location, to))
  {
    code[end - 3] := IfThenOne(cond);
    WriteJumpT4(code, end, location, to);
  }

  method WriteConditionalBX(code: array<bv16>, end: nat, cond: bv32, to: bv32)
    requires 6 <= end <= code.Length
    modifies code
    ensures code[..] == Patched(old(code[..]), end, [IfThenThree(cond)] + LinkBX(to))
  {
    WriteBX(code, end, to);
    code[end - 6] := IfThenThree(cond);
  }

  method WriteOne(code: array<bv16>, end: nat, h: bv16)
    requires 1 <= end <= code.Length
    modifies code
    ensures code[..] == Patched(old(code[..]), end, [h])
  {
    code[end - 1] := h;
  }

  method WriteTwo(code: array<bv16>, end: nat, a: bv16, b: bv16)
    requires 2 <= end <= code.Length
    modifies code
    ensures code[..] == Patched(old(code[..]), end, [a, b])
  {
    code[end - 2], code[end - 1] := a, b;
  }

  /** `link`: writes the jump in the form that was picked, and nothing else. */
  method WriteJump(code: array<bv16>, end: nat, l: LinkType, cond: bv32, location: bv32, to: bv32)
    requires !l.Invalid? && 6 <= end <= code.Length
    modifies code
    ensures |Link(l, cond, location, to)| <= 6
    ensures code[..] == Patched(old(code[..]), end, Link(l, cond, location, to))
  {
    match l {
      case T1 => WriteOne(code, end, WordT1(cond, Minus(Minus(to, location), 2)));
      case T2 => WriteOne(code, end, WordT2(Minus(Minus(to, location), 2)));
      case T3 => WriteTwo(code, end, FirstT3(cond, Minus(to, location)), SecondT3(Minus(to, location)));
      case T4 => WriteJumpT4(code, end, location, to);
      case ConditionalT4 => WriteConditionalT4(code, end, cond, location, to);
      case BX => WriteBX(code, end, to);
      case ConditionalBX => WriteConditionalBX(code, end, cond, to);
    }
  }

  // ----- jump slots -----

  predicate IsB(a: bv16, b: bv16) { Wide(a) & 0xf800 == 0xf000 && Wide(b) & 0xd000 == 0x9000 }
  predicate IsBX(h: bv16) { Wide(h) & 0xff87 == 0x4700 }
  predicate IsMove(a: bv16, b: bv16) { Wide(a) & 0xfbf0 == MOVW && Wide(b) & 0x8000 == 0 }
  predicate IsMoveTop(a: bv16, b: bv16) { Wide(a) & 0xfbf0 == MOVT && Wide(b) & 0x8000 == 0 }

  /** The two shapes of a jump slot: moves and a branch to a register, or no-ops and a branch. */
  predicate IsSlot(s: seq<bv16>) {
    && |s| == 5
    && (|| (IsMove(s[0], s[1]) && IsMoveTop(s[2], s[3]) && IsBX(s[4]))
        || (s[0] == NOP_T1 && s[1] == NOP_T2A && s[2] == NOP_T2B && IsB(s[3], s[4])))
  }

  /** The five halfwords of a slot that ends at `location` and jumps to `to`. */
  function SlotTo(location: bv32, to: bv32): (s: seq<bv16>) {
    if CanBeJumpT4(location, to) then [NOP_T1, NOP_T2A, NOP_T2B] + LinkJumpT4(location, to) else LinkBX(to)
  }

  lemma BXIsSlot(to: bv32)
    requires IsEven(to)
    ensures IsSlot(LinkBX(to))
  {
    var low, high := LowHalf(to + 1), to >> 16;
    TargetIsKept(to, low, high);
    MoveWords(MOVW, IP, low);
    MoveWords(MOVT, IP, high);
    assert Wide(BX_IP) & 0xff87 == 0x4700;
  }

  lemma PaddedIsSlot(location: bv32, to: bv32)
    ensures IsSlot([NOP_T1, NOP_T2A, NOP_T2B] + LinkJumpT4(location, to))
  {
    WordsT4(Peculiar(Minus(to, location)));
  }

  lemma SlotToIsSlot(location: bv32, to: bv32)
    requires IsEven(to)
    ensures IsSlot(SlotTo(location, to))
  {
    if CanBeJumpT4(location, to) {
      PaddedIsSlot(location, to);
    } else {
      BXIsSlot(to);
    }
  }

  /** The slot is a branch just when some branch there goes to the target; a longer way round is taken only when none does. */
  lemma SlotIsBranchIfItCanBe(location: bv32, to: bv32)
    requires IsEven(location) && IsEven(to)
    ensures var s := SlotTo(location, to); (|s| == 5 && IsB(s[3], s[4])) <==> HasEncoding(T4, location, to)
  {
    ExactT4(location, to);
    if CanBeJumpT4(location, to) {
      WordsT4(Peculiar(Minus(to, location)));
    } else {
      BXIsNoBranch(LowHalf(to + 1), to >> 16);
    }
  }

  lemma BXIsNoBranch(low: bv32, high: bv32)
    ensures !IsB(Moves(low, high)[3], Moves(low, high)[4])
  {
    assert Wide(BX_IP) & 0xd000 == 0x4000;
  }

  /** No-ops before a branch, so that an if-then of three before the slot still covers the branch. */
  method WritePaddedJump(code: array<bv16>, end: nat, location: bv32, to: bv32)
    requires 5 <= end <= code.Length
    modifies code
    ensures code[..] == Patched(old(code[..]), end, [NOP_T1, NOP_T2A, NOP_T2B] + LinkJumpT4(location, to))
  {
    code[end - 5], code[end - 4], code[end - 3] := NOP_T1, NOP_T2A, NOP_T2B;
    WriteJumpT4(code, end, location, to);
  }

  /** `linkJumpAbsolute`: the slot jumps to `to` from now on, and nothing else changes. */
  method LinkJumpAbsolute(code: array<bv16>, end: nat, location: bv32, to: bv32)
    requires 5 <= end <= code.Length && IsSlot(code[end - 5..end]) && IsEven(to)
    modifies code
    ensures code[..] == Patched(old(code[..]), end, SlotTo(location, to)) && IsSlot(code[end - 5..end])
  {
    SlotToIsSlot(location, to);
    if CanBeJumpT4(location, to) {
      WritePaddedJump(code, end, location, to);
    } else {
      WriteBX(code, end, to);
    }
    PatchedHolds(old(code[..]), end, SlotTo(location, to));
    assert code[end - 5..end] == code[..][end - 5..end];
  }

  /** No-ops use up the first two conditions of an if-then block of three. */
  lemma RunsPadded(at: bv32, location: bv32, to: bv32, it: seq<bv32>, m: Machine)
    requires location == Plus(at, 10) && CanBeJumpT4(location, to) && IsEven(location) && IsEven(to) && IsBlock(it)
    ensures Run([NOP_T1, NOP_T2A, NOP_T2B] + LinkJumpT4(location, to), at, it, m)
         == if it == [] || Holds(it[0], m) then to else location
  {
    var jump := LinkJumpT4(location, to);
    var code := [NOP_T1, NOP_T2A, NOP_T2B] + jump;
    DecodesFixed();
    RunNarrow(code, at, it, m, Nop);
    RunWide(code[1..], Plus(at, 2), Pending(Nop, it), m, Nop);
    assert code[1..][2..] == jump;
    PlusTwice(at, 2, 4, 6);
    PlusTwice(at, 6, 4, 10);
    RunsT4(Plus(at, 6), location, to, Pending(Nop, Pending(Nop, it)), m);
  }

  /** A linked slot jumps to its target; after an if-then of three it does so under the condition, and else goes past. */
  lemma SlotJumps(at: bv32, location: bv32, to: bv32, it: seq<bv32>, m: Machine)
    requires location == Plus(at, 10) && IsEven(location) && IsEven(to) && IsBlock(it)
    ensures Run(SlotTo(location, to), at, it, m) == if it == [] || Holds(it[0], m) then to else location
  {
    if CanBeJumpT4(location, to) {
      RunsPadded(at, location, to, it, m);
    } else {
      RunsBX(to, at, it, m);
    }
  }

  /** Any number of links leaves a slot that goes to the last target, and leaves the code around it alone. */
  method LinkManyTimes(code: array<bv16>, end: nat, location: bv32, tos: seq<bv32>)
    requires 5 <= end <= code.Length && IsSlot(code[end - 5..end]) && forall i :: 0 <= i < |tos| ==> IsEven(tos[i])
    modifies code
    ensures IsSlot(code[end - 5..end])
    ensures code[..end - 5] == old(code[..end - 5]) && code[end..] == old(code[end..])
    ensures tos != [] ==> code[end - 5..end] == SlotTo(location, tos[|tos| - 1])
  {
    for i := 0 to |tos|
      invariant IsSlot(code[end - 5..end])
      invariant code[..end - 5] == old(code[..end - 5]) && code[end..] == old(code[end..])
      invariant i > 0 ==> code[end - 5..end] == SlotTo(location, tos[i - 1])
    {
      LinkJumpAbsolute(code, end, location, tos[i]);
    }
  }

  // ----- constants in move pairs -----

  /** A MOVW and a MOVT. */
  predicate IsMovePair(s: seq<bv16>) {
    |s| == 4 && IsMove(s[0], s[1]) && IsMoveTop(s[2], s[3])
  }

  function RegisterOf(b: bv16): (rd: bv32) { (Wide(b) >> 8) & 0xf }

  function Joined(low: bv32, high: bv32): (r: bv32) { (high << 16) | low }

  /** The constant of a move pair. */
  function ConstantOf(s: seq<bv16>): (r: bv32)
    requires |s| == 4
  {
    Joined(Imm16(Wide(s[0]), Wide(s[1])), Imm16(Wide(s[2]), Wide(s[3])))
  }

  function MovePair(low: bv32, high: bv32, rd: bv32, rd': bv32): (s: seq<bv16>) {
    [MoveFirst(MOVW, low), MoveSecond(rd, low), MoveFirst(MOVT, high), MoveSecond(rd', high)]
  }

  lemma JoinHalves(value: bv32, low: bv32, high: bv32)
    requires low == value & 0xffff && high == value >> 16
    ensures low <= 0xffff && high <= 0xffff && Joined(low, high) == value && WithTop(low, high) == value
  {
  }

  lemma RegisterIsSmall(b: bv16)
    ensures RegisterOf(b) < 16
  {
  }

  lemma PairHolds(value: bv32, low: bv32, high: bv32, rd: bv32, rd': bv32)
    requires low == value & 0xffff && high == value >> 16 && rd < 16 && rd' < 16
    ensures var s := MovePair(low, high, rd, rd');
            IsMovePair(s) && ConstantOf(s) == value && RegisterOf(s[1]) == rd && RegisterOf(s[3]) == rd'
  {
    JoinHalves(value, low, high);
    MoveWords(MOVW, rd, low);
    MoveWords(MOVT, rd', high);
  }

  /** The registers are the pair's own. */
  lemma PairKeepsRegisters(s: seq<bv16>, value: bv32)
    requires |s| == 4
    ensures var r := PairWith(s, value);
            IsMovePair(r) && ConstantOf(r) == value && RegisterOf(r[1]) == RegisterOf(s[1]) && RegisterOf(r[3]) == RegisterOf(s[3])
  {
    RegisterIsSmall(s[1]);
    RegisterIsSmall(s[3]);
    PairHolds(value, value & 0xffff, value >> 16, RegisterOf(s[1]), RegisterOf(s[3]));
  }

  /** A move pair with its constant replaced. */
  function PairWith(s: seq<bv16>, value: bv32): (r: seq<bv16>)
    requires |s| == 4
  {
    MovePair(value & 0xffff, value >> 16, RegisterOf(s[1]), RegisterOf(s[3]))
  }

  method WritePair(code: array<bv16>, end: nat, value: bv32)
    requires 4 <= end <= code.Length
    modifies code
    ensures code[..] == Patched(old(code[..]), end, PairWith(old(code[end - 4..end]), value))
  {
    var low, high := value & 0xffff, value >> 16;
    var rd, rd' := RegisterOf(code[end - 3]), RegisterOf(code[end - 1]);
    code[end - 4], code[end - 3] := MoveFirst(MOVW, low), MoveSecond(rd, low);
    code[end - 2], code[end - 1] := MoveFirst(MOVT, high), MoveSecond(rd', high);
  }

  /** `setInt32`: the pair holds the new constant, for the same registers. */
  method SetInt32(code: array<bv16>, end: nat, value: bv32)
    requires 4 <= end <= code.Length && IsMovePair(code[end - 4..end])
    modifies code
    ensures IsMovePair(code[end - 4..end]) && ConstantOf(code[end - 4..end]) == value
    ensures RegisterOf(code[end - 3]) == old(RegisterOf(code[end - 3])) && RegisterOf(code[end - 1]) == old(RegisterOf(code[end - 1]))
    ensures code[..end - 4] == old(code[..end - 4]) && code[end..] == old(code[end..])
  {
    ghost var was := code[end - 4..end];
    WritePair(code, end, value);
    PairKeepsRegisters(was, value);
    PatchedHolds(old(code[..]), end, PairWith(was, value));
    assert code[end - 4..end] == PairWith(was, value);
  }

  /** The fields in which the assembler keeps a sixteen-bit immediate. */
  datatype Fields = Fields(imm8: bv32, imm3: bv32, i: bv32, imm4: bv32)

  function AsUInt16(f: Fields): (r: bv32) {
    f.imm8 | (f.imm3 << 8) | (f.i << 11) | (f.imm4 << 12)
  }

  /** `decodeTwoWordOp5i6Imm4Reg4EncodedImmFirst` and `...Second` */
  function DecodeFields(a: bv32, b: bv32): (f: Fields) {
    Fields(b & 255, (b >> 12) & 7, (a >> 10) & 1, a & 15)
  }

  lemma FieldsAreImm16(a: bv32, b: bv32)
    ensures AsUInt16(DecodeFields(a, b)) == Imm16(a, b) && Imm16(a, b) <= 0xffff
  {
  }

  predicate IsHalves(value: bv32, low: bv32, high: bv32) {
    value & 0xffff == low && value >> 16 == high
  }

  lemma HalvesOf(low: bv32, high: bv32)
    requires low <= 0xffff && high <= 0xffff
    ensures IsHalves(Joined(low, high), low, high)
  {
  }

  lemma MoveFieldsRebuild(op: bv32, a: bv32, b: bv32, imm16: bv32)
    requires a <= 0xffff && b <= 0xffff && a & 0xfbf0 == op && b & 0x8000 == 0 && imm16 == Imm16(a, b)
    ensures op | ((imm16 & 0x800) >> 1) | ((imm16 & 0xf000) >> 12) == a
    ensures ((imm16 & 0x700) << 4) | (((b >> 8) & 0xf) << 8) | (imm16 & 0xff) == b
  {
  }

  lemma NarrowWide(h: bv16)
    ensures Narrow(Wide(h)) == h && Wide(h) <= 0xffff
  {
  }

  /** A move is the encoding of its own immediate and register. */
  lemma MoveRebuilds(op: bv32, a: bv16, b: bv16, imm16: bv32)
    requires IsImm16(a, b, imm16) && Wide(a) & 0xfbf0 == op && Wide(b) & 0x8000 == 0
    ensures MoveFirst(op, imm16) == a && MoveSecond(RegisterOf(b), imm16) == b
  {
    NarrowWide(a);
    NarrowWide(b);
    MoveFieldsRebuild(op, Wide(a), Wide(b), imm16);
  }

  predicate IsImm16(a: bv16, b: bv16, imm16: bv32) {
    imm16 == Imm16(Wide(a), Wide(b))
  }

  lemma Imm16IsSmall(a: bv16, b: bv16, imm16: bv32)
    requires IsImm16(a, b, imm16)
    ensures imm16 <= 0xffff
  {
    FieldsAreImm16(Wide(a), Wide(b));
  }

  lemma HalvesOfConstant(s: seq<bv16>, low: bv32, high: bv32)
    requires |s| == 4 && IsImm16(s[0], s[1], low) && IsImm16(s[2], s[3], high)
    ensures IsHalves(ConstantOf(s), low, high)
  {
    Imm16IsSmall(s[0], s[1], low);
    Imm16IsSmall(s[2], s[3], high);
    HalvesOf(low, high);
  }

  lemma MovesRebuild(s: seq<bv16>, low: bv32, high: bv32)
    requires IsMovePair(s) && IsImm16(s[0], s[1], low) && IsImm16(s[2], s[3], high)
    ensures MovePair(low, high, RegisterOf(s[1]), RegisterOf(s[3])) == s
  {
    MoveRebuilds(MOVW, s[0], s[1], low);
    MoveRebuilds(MOVT, s[2], s[3], high);
  }

  /** A move pair is what setting its own constant makes of it. */
  lemma PairRebuilds(s: seq<bv16>)
    requires IsMovePair(s)
    ensures PairWith(s, ConstantOf(s)) == s
  {
    var low, high := Imm16(Wide(s[0]), Wide(s[1])), Imm16(Wide(s[2]), Wide(s[3]));
    HalvesOfConstant(s, low, high);
    MovesRebuild(s, low, high);
  }

  /** `readInt32`: the constant the pair moves, and the one with which setting it gives back the very halfwords. */
  method ReadInt32(code: array<bv16>, end: nat) returns (value: bv32)
    requires 4 <= end <= code.Length && IsMovePair(code[end - 4..end])
    ensures value == ConstantOf(code[end - 4..end]) && PairWith(code[end - 4..end], value) == code[end - 4..end]
  {
    var low := AsUInt16(DecodeFields(Wide(code[end - 4]), Wide(code[end - 3])));
    var high := AsUInt16(DecodeFields(Wide(code[end - 2]), Wide(code[end - 1])));
    value := Joined(low, high);
    ghost var s := code[end - 4..end];
    FieldsAreImm16(Wide(s[0]), Wide(s[1]));
    FieldsAreImm16(Wide(s[2]), Wide(s[3]));
    PairRebuilds(s);
  }

  /** Running a pair for one register leaves its constant there, and no other register changed. */
  lemma PairMoves(value: bv32, rd: bv32, at: bv32, m: Machine, rest: seq<bv16>)
    requires rd < 16
    ensures var code := MovePair(value & 0xffff, value >> 16, rd, rd) + rest;
            exists m' :: Run(code, at, [], m) == Run(rest, Plus(at, 8), [], m') && m'.flags == m.flags
                    && m'.regs(rd) == value && forall r :: r != rd ==> m'.regs(r) == m.regs(r)
  {
    var low, high := value & 0xffff, value >> 16;
    var pair := MovePair(low, high, rd, rd);
    var code := pair + rest;
    JoinHalves(value, low, high);
    DecodesMove(rd, low);
    DecodesMoveTop(rd, high);
    RunWide(code, at, [], m, Move(rd, low));
    var m1 := SetReg(m, rd, low);
    RunWide(code[2..], Plus(at, 4), [], m1, MoveTop(rd, high));
    var m' := SetReg(m1, rd, WithTop(low, high));
    assert code[2..][2..] == rest;
    PlusTwice(at, 4, 4, 8);
    assert m1.regs(rd) == low && m'.regs(rd) == value && m'.flags == m.flags;
    assert Run(code, at, [], m) == Run(rest, Plus(at, 8), [], m');
  }

  // ----- loads that become address computations and back -----

  const LDR_IMM: bv32 := 0xf8d0
  const ADD_IMM: bv32 := 0xf100

  /** A load of a word at a small offset, or the computation of that address into the same register. */
  datatype Access = Load(rt: bv32, rn: bv32, imm8: bv32) | AddressOf(rt: bv32, rn: bv32, imm8: bv32)

  /**
    The access that two halfwords decode to: `LDR` (immediate, Thumb) in encoding T3, 1111 1000 1101 Rn and Rt imm12, or
    `ADD` (immediate, Thumb) in encoding T3, 1111 0i01 000S Rn and 0 imm3 Rd imm8, with i and S clear (ARM DDI 0406C);
    offsets of a byte only, as the assembler asserts.
   */
  predicate IsAccess(a: bv16, b: bv16, x: Access) {
    && Wide(a) & 0xf == x.rn && Wide(b) & 0xff == x.imm8
    && match x
       case Load(rt, _, _) => Wide(a) & 0xfff0 == 0xf8d0 && Wide(b) & 0x0f00 == 0 && Wide(b) >> 12 == rt
       case AddressOf(rt, _, _) => Wide(a) & 0xfff0 == 0xf100 && Wide(b) & 0xf000 == 0 && (Wide(b) >> 8) & 0xf == rt
  }

  lemma ToLoadFields(a: bv32, b: bv32, a': bv32, b': bv32)
    requires a <= 0xffff && b <= 0xffff && b & 0xf000 == 0
    requires a' == (a & 0x000f) | LDR_IMM && b' == (b | ((b & 0x0f00) << 4)) & 0xf0ff
    ensures a' <= 0xffff && b' <= 0xffff && a' & 0xf == a & 0xf && a' & 0xfff0 == LDR_IMM
    ensures b' & 0xff == b & 0xff && b' & 0x0f00 == 0 && b' >> 12 == (b >> 8) & 0xf
  {
  }

  lemma ToAddressFields(a: bv32, b: bv32, a': bv32, b': bv32)
    requires a <= 0xffff && b <= 0xffff && b & 0x0f00 == 0
    requires a' == (a & 0x000f) | ADD_IMM && b' == (b | ((b & 0xf000) >> 4)) & 0x0fff
    ensures a' <= 0xffff && b' <= 0xffff && a' & 0xf == a & 0xf && a' & 0xfff0 == ADD_IMM
    ensures b' & 0xff == b & 0xff && b' & 0xf000 == 0 && (b' >> 8) & 0xf == b >> 12
  {
  }

  lemma WideIsSmall(h: bv16)
    ensures Wide(h) <= 0xffff
  {
  }

  /** `replaceWithLoad`: whatever was there of the two, it is now a load at the same address into the same register. */
  method ReplaceWithLoad(code: array<bv16>, k: nat, ghost x: Access)
    requires k + 1 < code.Length && IsAccess(code[k], code[k + 1], x)
    modifies code
    ensures IsAccess(code[k], code[k + 1], Load(x.rt, x.rn, x.imm8))
    ensures forall i :: 0 <= i < code.Length && i != k && i != k + 1 ==> code[i] == old(code[i])
  {
    var a, b := Wide(code[k]), Wide(code[k + 1]);
    if a & 0xfff0 == ADD_IMM {
      var a', b' := (a & 0x000f) | LDR_IMM, (b | ((b & 0x0f00) << 4)) & 0xf0ff;
      WideIsSmall(code[k]);
      WideIsSmall(code[k + 1]);
      ToLoadFields(a, b, a', b');
      Round(a');
      Round(b');
      code[k], code[k + 1] := Narrow(a'), Narrow(b');
    }
  }

  /** `replaceWithAddressComputation`: the other way round. */
  method ReplaceWithAddressComputation(code: array<bv16>, k: nat, ghost x: Access)
    requires k + 1 < code.Length && IsAccess(code[k], code[k + 1], x)
    modifies code
    ensures IsAccess(code[k], code[k + 1], AddressOf(x.rt, x.rn, x.imm8))
    ensures forall i :: 0 <= i < code.Length && i != k && i != k + 1 ==> code[i] == old(code[i])
  {
    var a, b := Wide(code[k]), Wide(code[k + 1]);
    if a & 0xfff0 == LDR_IMM {
      var a', b' := (a & 0x000f) | ADD_IMM, (b | ((b & 0xf000) >> 4)) & 0x0fff;
      WideIsSmall(code[k]);
      WideIsSmall(code[k + 1]);
      ToAddressFields(a, b, a', b');
      Round(a');
      Round(b');
      code[k], code[k + 1] := Narrow(a'), Narrow(b');
    }
  }

  /** An access has one encoding, so replacing twice gives back the very halfwords. */
  lemma AccessDeterminesWords(a: bv16, b: bv16, a': bv16, b': bv16, x: Access)
    requires IsAccess(a, b, x) && IsAccess(a', b', x)
    ensures a == a' && b == b'
  {
    match x {
      case Load(rt, rn, imm8) =>
        SameFirst(a, a', rn, 0xf8d0);
        SameLoadSecond(b, b', rt, imm8);
      case AddressOf(rt, rn, imm8) =>
        SameFirst(a, a', rn, 0xf100);
        SameAddSecond(b, b', rt, imm8);
    }
  }

  lemma SameFirst(a: bv16, a': bv16, rn: bv32, op: bv32)
    requires Wide(a) & 0xf == rn && Wide(a) & 0xfff0 == op && Wide(a') & 0xf == rn && Wide(a') & 0xfff0 == op
    ensures a == a'
  {
  }

  lemma SameLoadSecond(b: bv16, b': bv16, rt: bv32, imm8: bv32)
    requires Wide(b) & 0xff == imm8 && Wide(b) & 0x0f00 == 0 && Wide(b) >> 12 == rt
    requires Wide(b') & 0xff == imm8 && Wide(b') & 0x0f00 == 0 && Wide(b') >> 12 == rt
    ensures b == b'
  {
  }

  lemma SameAddSecond(b: bv16, b': bv16, rd: bv32, imm8: bv32)
    requires Wide(b) & 0xff == imm8 && Wide(b) & 0xf000 == 0 && (Wide(b) >> 8) & 0xf == rd
    requires Wide(b') & 0xff == imm8 && Wide(b') & 0xf000 == 0 && (Wide(b') >> 8) & 0xf == rd
    ensures b == b'
  {
  }
}
