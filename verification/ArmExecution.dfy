/**
  What emitted ARM instructions do to the registers and where they access memory, decoded from the instruction words.
  A load of a constant from the pool is its word together with the constant it finds there.
 */
module ArmExecution {
  import opened ArmImmediates

  type Reg = r: bv32 | r < 16 witness 0

  datatype Emitted = Insn(word: bv32) | LoadConstant(word: bv32, constant: bv32)

  type Registers = bv32 -> bv32

  function Set(regs: Registers, rd: bv32, value: bv32): (r: Registers) {
    x => if x == rd then value else regs(x)
  }

  /** Addition, subtraction and shifting as the machine does them, by name. */
  function Plus(x: bv32, y: bv32): (r: bv32) { x + y }
  function Minus(x: bv32, y: bv32): (r: bv32) { x - y }
  function ShiftLeft(x: bv32, n: bv32): (r: bv32)
    requires n < 32
  {
    x << n
  }

  function FieldD(w: bv32): (r: bv32) { (w >> 12) & 0xf }
  function FieldN(w: bv32): (r: bv32) { (w >> 16) & 0xf }
  function FieldM(w: bv32): (r: bv32) { w & 0xf }

  /** The second operand of a data-processing instruction: an immediate, or a register shifted left by a constant. */
  function Operand2(regs: Registers, w: bv32): (r: bv32) {
    if w & 0x0200_0000 != 0 then ExpandImm(w & 0xfff) else ShiftLeft(regs(FieldM(w)), (w >> 7) & 0x1f)
  }

  function Compute(opcode: bv32, n: bv32, op2: bv32): (r: bv32) {
    if opcode == 0x2 then Minus(n, op2)
    else if opcode == 0x4 then Plus(n, op2)
    else if opcode == 0xc then n | op2
    else if opcode == 0xd then op2
    else if opcode == 0xe then n & !op2
    else if opcode == 0xf then !op2
    else n
  }

  /** The sixteen immediate bits of `movw` and `movt`. */
  function Imm16(w: bv32): (r: bv32) {
    ((w >> 4) & 0xf000) | (w & 0xfff)
  }

  /** The value an unconditional register instruction leaves in its destination. */
  function Result(regs: Registers, w: bv32): (r: bv32) {
    if w & 0xfff0_0000 == 0xe300_0000 then Imm16(w)
    else if w & 0xfff0_0000 == 0xe340_0000 then (regs(FieldD(w)) & 0xffff) | (Imm16(w) << 16)
    else Compute((w >> 21) & 0xf, regs(FieldN(w)), Operand2(regs, w))
  }

  /** Whether `w` is one of the instructions `Result` knows: unconditional, and leaving the flags alone. */
  predicate IsRegisterInsn(w: bv32) {
    && w & 0xfc10_0000 == 0xe000_0000
    && (w & 0x0200_0000 == 0 ==> w & 0x70 == 0)
  }

  function Execute(regs: Registers, e: Emitted): (r: Registers) {
    match e
    case LoadConstant(w, constant) => Set(regs, FieldD(w), constant)
    case Insn(w) => if IsRegisterInsn(w) then Set(regs, FieldD(w), Result(regs, w)) else regs
  }

  function ExecuteAll(regs: Registers, es: seq<Emitted>): (r: Registers) {
    if es == [] then regs else ExecuteAll(Execute(regs, es[0]), es[1..])
  }

  // ----- instructions -----

  const ALWAYS: bv32 := 0xe000_0000
  const SUB: bv32 := 0x0040_0000
  const ADD: bv32 := 0x0080_0000
  const ORR: bv32 := 0x0180_0000
  const MOV: bv32 := 0x01a0_0000
  const BIC: bv32 := 0x01c0_0000
  const MVN: bv32 := 0x01e0_0000
  const MOVW: bv32 := 0x0300_0000
  const MOVT: bv32 := 0x0340_0000
  const LOAD_LITERAL: bv32 := 0x059f_0000

  function DataProcessing(op: bv32, rd: Reg, rn: Reg, op2: bv32): (w: bv32) {
    ALWAYS | op | (rn << 16) | (rd << 12) | op2
  }

  /** No memory access but loads of constants. */
  predicate RegistersOnly(es: seq<Emitted>) {
    forall i :: 0 <= i < |es| ==> es[i].Insn? ==> IsRegisterInsn(es[i].word)
  }

  /** `es` leaves `value` in `rd` and every other register alone. */
  ghost predicate Leaves(regs: Registers, es: seq<Emitted>, rd: bv32, value: bv32) {
    && RegistersOnly(es)
    && ExecuteAll(regs, es)(rd) == value
    && forall r :: r != rd ==> ExecuteAll(regs, es)(r) == regs(r)
  }

  predicate IsOpcode(op: bv32) {
    op == SUB || op == ADD || op == ORR || op == MOV || op == BIC || op == MVN
  }

  lemma DataProcessingFields(op: bv32, rd: Reg, rn: Reg, op2: bv32)
    requires IsOpcode(op) && (IsOperand(op2) || op2 & 0xffff_f070 == 0)
    ensures var w := DataProcessing(op, rd, rn, op2);
            && FieldD(w) == rd && FieldN(w) == rn && (w >> 21) & 0xf == op >> 21
            && w & 0xfff == op2 & 0xfff && w & 0x0200_0000 == op2 & 0x0200_0000
            && IsRegisterInsn(w) && w & 0xfff0_0000 != 0xe300_0000 && w & 0xfff0_0000 != 0xe340_0000
  {
  }

  lemma ExpandsLowBits(op2: bv32)
    ensures ExpandImm(op2 & 0xfff) == ExpandImm(op2)
  {
    assert (op2 & 0xfff) & 0xff == op2 & 0xff && ((op2 & 0xfff) >> 8) & 0xf == (op2 >> 8) & 0xf;
  }

  lemma LeavesResult(regs: Registers, w: bv32, rd: Reg, value: bv32)
    requires IsRegisterInsn(w) && FieldD(w) == rd && Result(regs, w) == value
    ensures Leaves(regs, [Insn(w)], rd, value)
  {
    assert ExecuteAll(regs, [Insn(w)]) == ExecuteAll(Execute(regs, Insn(w)), []);
  }

  lemma ResultComputes(regs: Registers, op: bv32, rd: Reg, rn: Reg, op2: bv32, operand: bv32)
    requires IsOpcode(op) && (IsOperand(op2) || op2 & 0xffff_f070 == 0)
    requires Operand2(regs, DataProcessing(op, rd, rn, op2)) == operand
    ensures Result(regs, DataProcessing(op, rd, rn, op2)) == Compute(op >> 21, regs(rn), operand)
  {
    DataProcessingFields(op, rd, rn, op2);
  }

  lemma ImmediateOperand(regs: Registers, w: bv32, op2: bv32, imm: bv32)
    requires Encodes(op2, imm) && w & 0xfff == op2 & 0xfff && w & 0x0200_0000 == 0x0200_0000
    ensures Operand2(regs, w) == imm
  {
    ExpandsLowBits(op2);
  }

  lemma RunsImmediate(regs: Registers, op: bv32, rd: Reg, rn: Reg, op2: bv32, imm: bv32, value: bv32)
    requires IsOpcode(op) && Encodes(op2, imm) && Compute(op >> 21, regs(rn), imm) == value
    ensures Leaves(regs, [Insn(DataProcessing(op, rd, rn, op2))], rd, value)
  {
    var w := DataProcessing(op, rd, rn, op2);
    DataProcessingFields(op, rd, rn, op2);
    ImmediateOperand(regs, w, op2, imm);
    ResultComputes(regs, op, rd, rn, op2, imm);
    LeavesResult(regs, w, rd, value);
  }

  lemma ComputesSub(n: bv32, op2: bv32)
    ensures Compute(SUB >> 21, n, op2) == Minus(n, op2)
  {
  }

  lemma ComputesAdd(n: bv32, op2: bv32)
    ensures Compute(ADD >> 21, n, op2) == Plus(n, op2)
  {
  }

  lemma ComputesOrr(n: bv32, op2: bv32)
    ensures Compute(ORR >> 21, n, op2) == n | op2
  {
  }

  lemma ComputesMov(n: bv32, op2: bv32)
    ensures Compute(MOV >> 21, n, op2) == op2
  {
  }

  lemma ComputesBic(n: bv32, op2: bv32)
    ensures Compute(BIC >> 21, n, op2) == n & !op2
  {
  }

  lemma ComputesMvn(n: bv32, op2: bv32)
    ensures Compute(MVN >> 21, n, op2) == !op2
  {
  }

  lemma RunsMov(regs: Registers, rd: Reg, op2: bv32, imm: bv32)
    requires Encodes(op2, imm)
    ensures Leaves(regs, [Insn(DataProcessing(MOV, rd, 0, op2))], rd, imm)
  {
    ComputesMov(regs(0), imm);
    RunsImmediate(regs, MOV, rd, 0, op2, imm, imm);
  }

  lemma RunsOrr(regs: Registers, rd: Reg, op2: bv32, imm: bv32, value: bv32)
    requires Encodes(op2, imm) && regs(rd) | imm == value
    ensures Leaves(regs, [Insn(DataProcessing(ORR, rd, rd, op2))], rd, value)
  {
    ComputesOrr(regs(rd), imm);
    RunsImmediate(regs, ORR, rd, rd, op2, imm, value);
  }

  lemma RunsMvn(regs: Registers, rd: Reg, op2: bv32, imm: bv32)
    requires Encodes(op2, imm)
    ensures Leaves(regs, [Insn(DataProcessing(MVN, rd, 0, op2))], rd, !imm)
  {
    ComputesMvn(regs(0), imm);
    RunsImmediate(regs, MVN, rd, 0, op2, imm, !imm);
  }

  lemma RunsBic(regs: Registers, rd: Reg, op2: bv32, imm: bv32, value: bv32)
    requires Encodes(op2, imm) && regs(rd) & !imm == value
    ensures Leaves(regs, [Insn(DataProcessing(BIC, rd, rd, op2))], rd, value)
  {
    ComputesBic(regs(rd), imm);
    RunsImmediate(regs, BIC, rd, rd, op2, imm, value);
  }

  lemma RunsAdd(regs: Registers, rd: Reg, rn: Reg, op2: bv32, imm: bv32)
    requires Encodes(op2, imm)
    ensures Leaves(regs, [Insn(DataProcessing(ADD, rd, rn, op2))], rd, Plus(regs(rn), imm))
  {
    ComputesAdd(regs(rn), imm);
    RunsImmediate(regs, ADD, rd, rn, op2, imm, Plus(regs(rn), imm));
  }

  lemma RunsSub(regs: Registers, rd: Reg, rn: Reg, op2: bv32, imm: bv32)
    requires Encodes(op2, imm)
    ensures Leaves(regs, [Insn(DataProcessing(SUB, rd, rn, op2))], rd, Minus(regs(rn), imm))
  {
    ComputesSub(regs(rn), imm);
    RunsImmediate(regs, SUB, rd, rn, op2, imm, Minus(regs(rn), imm));
  }

  /** A register shifted left by a constant, as second operand. */
  function Lsl(rm: Reg, scale: bv32): (op2: bv32)
    requires scale < 32
  {
    rm | (scale << 7)
  }

  lemma ShiftedIsRegister(rm: Reg, scale: bv32)
    requires scale < 32
    ensures Lsl(rm, scale) & 0xffff_f070 == 0 && Lsl(rm, scale) & 0x0200_0000 == 0
  {
  }

  lemma ShiftedFields(w: bv32, rm: Reg, scale: bv32)
    requires scale < 32 && w & 0xfff == Lsl(rm, scale) & 0xfff
    ensures FieldM(w) == rm && (w >> 7) & 0x1f == scale
  {
    assert w & 0xf == (w & 0xfff) & 0xf && (w >> 7) & 0x1f == ((w & 0xfff) >> 7) & 0x1f;
  }

  lemma ShiftedOperand(regs: Registers, w: bv32, rm: Reg, scale: bv32)
    requires scale < 32 && w & 0xfff == Lsl(rm, scale) & 0xfff && w & 0x0200_0000 == 0
    ensures Operand2(regs, w) == ShiftLeft(regs(rm), scale)
  {
    ShiftedFields(w, rm, scale);
  }

  lemma RunsAddShifted(regs: Registers, rd: Reg, rn: Reg, rm: Reg, scale: bv32)
    requires scale < 32
    ensures Leaves(regs, [Insn(DataProcessing(ADD, rd, rn, Lsl(rm, scale)))], rd,
                   Plus(regs(rn), ShiftLeft(regs(rm), scale)))
  {
    var w := DataProcessing(ADD, rd, rn, Lsl(rm, scale));
    ShiftedIsRegister(rm, scale);
    DataProcessingFields(ADD, rd, rn, Lsl(rm, scale));
    ShiftedOperand(regs, w, rm, scale);
    ResultComputes(regs, ADD, rd, rn, Lsl(rm, scale), ShiftLeft(regs(rm), scale));
    ComputesAdd(regs(rn), ShiftLeft(regs(rm), scale));
    LeavesResult(regs, w, rd, Plus(regs(rn), ShiftLeft(regs(rm), scale)));
  }

  lemma {:induction false} ExecuteAppended(regs: Registers, es: seq<Emitted>, more: seq<Emitted>)
    ensures ExecuteAll(regs, es + more) == ExecuteAll(ExecuteAll(regs, es), more)
    decreases |es|
  {
    if es == [] {
      assert es + more == more;
    } else {
      assert (es + more)[1..] == es[1..] + more;
      ExecuteAppended(Execute(regs, es[0]), es[1..], more);
    }
  }

  /** A second piece of code that overwrites the same register. */
  lemma LeavesThen(regs: Registers, es: seq<Emitted>, more: seq<Emitted>, rd: bv32, first: bv32, second: bv32)
    requires Leaves(regs, es, rd, first) && Leaves(ExecuteAll(regs, es), more, rd, second)
    ensures Leaves(regs, es + more, rd, second)
  {
    ExecuteAppended(regs, es, more);
  }

  function MoveWide(op: bv32, rd: Reg, imm16: bv32): (w: bv32) {
    ALWAYS | op | (rd << 12) | ((imm16 & 0xf000) << 4) | (imm16 & 0xfff)
  }

  lemma MoveWideFields(op: bv32, rd: Reg, imm16: bv32)
    requires (op == MOVW || op == MOVT) && imm16 <= 0xffff
    ensures var w := MoveWide(op, rd, imm16);
            IsRegisterInsn(w) && FieldD(w) == rd && Imm16(w) == imm16 && w & 0xfff0_0000 == ALWAYS | op
  {
  }

  lemma RunsMoveWide(regs: Registers, rd: Reg, imm16: bv32)
    requires imm16 <= 0xffff
    ensures Leaves(regs, [Insn(MoveWide(MOVW, rd, imm16))], rd, imm16)
    ensures Leaves(regs, [Insn(MoveWide(MOVT, rd, imm16))], rd, (regs(rd) & 0xffff) | (imm16 << 16))
  {
    MoveWideFields(MOVW, rd, imm16);
    MoveWideFields(MOVT, rd, imm16);
    var w, t := Insn(MoveWide(MOVW, rd, imm16)), Insn(MoveWide(MOVT, rd, imm16));
    assert ExecuteAll(regs, [w]) == ExecuteAll(Execute(regs, w), []);
    assert ExecuteAll(regs, [t]) == ExecuteAll(Execute(regs, t), []);
  }

  lemma RunsLoadConstant(regs: Registers, rd: Reg, constant: bv32)
    ensures Leaves(regs, [LoadConstant(ALWAYS | LOAD_LITERAL | (rd << 12), constant)], rd, constant)
  {
    var l := LoadConstant(ALWAYS | LOAD_LITERAL | (rd << 12), constant);
    assert FieldD(l.word) == rd;
    assert ExecuteAll(regs, [l]) == ExecuteAll(Execute(regs, l), []);
  }

  // ----- which architectures have the instructions -----

  /** A `movw` or a `movt`: 0011 0x00 in bits 27 to 20. */
  predicate IsMoveHalf(w: bv32) { w & 0x0fb0_0000 == 0x0300_0000 }

  predicate UsesHalves(es: seq<Emitted>) {
    exists i :: 0 <= i < |es| && es[i].Insn? && IsMoveHalf(es[i].word)
  }

  predicate UsesConstant(es: seq<Emitted>) {
    exists i :: 0 <= i < |es| && es[i].LoadConstant?
  }

  /** Only ARMv7 has moves of halves; with them nothing is loaded from the pool. */
  predicate SuitsOne(isArmv7: bool, e: Emitted) {
    match e
    case LoadConstant(_, _) => !isArmv7
    case Insn(w) => IsMoveHalf(w) ==> isArmv7
  }

  predicate Suits(isArmv7: bool, es: seq<Emitted>) {
    forall i :: 0 <= i < |es| ==> SuitsOne(isArmv7, es[i])
  }

  lemma SuitsThen(isArmv7: bool, es: seq<Emitted>, more: seq<Emitted>)
    requires Suits(isArmv7, es) && Suits(isArmv7, more)
    ensures Suits(isArmv7, es + more)
  {
  }

  lemma SuitsByUses(isArmv7: bool, es: seq<Emitted>)
    requires (UsesHalves(es) ==> isArmv7) && (UsesConstant(es) ==> !isArmv7)
    ensures Suits(isArmv7, es)
  {
  }

  lemma SuitsAll(isArmv7: bool, w: bv32)
    requires !IsMoveHalf(w)
    ensures Suits(isArmv7, [Insn(w)]) && !UsesHalves([Insn(w)]) && !UsesConstant([Insn(w)])
  {
  }

  lemma NoMoveHalf(op: bv32, rd: Reg, rn: Reg, op2: bv32)
    requires IsOpcode(op) && (IsOperand(op2) || op2 & 0xffff_f070 == 0)
    ensures !IsMoveHalf(DataProcessing(op, rd, rn, op2))
  {
    DataProcessingFields(op, rd, rn, op2);
    OpcodeIsNoHalf(op, DataProcessing(op, rd, rn, op2));
  }

  lemma OpcodeIsNoHalf(op: bv32, w: bv32)
    requires IsOpcode(op) && (w >> 21) & 0xf == op >> 21
    ensures !IsMoveHalf(w)
  {
  }

  // ----- moving a number into a register -----

  /** One operand stands for the number. */
  ghost predicate HasOperand(imm: bv32) {
    exists code :: Encodes(code, imm)
  }

  /** The movw/movt path, on ARMv7. */
  method MoveWithHalves(imm: bv32, dest: Reg, ghost regs: Registers) returns (es: seq<Emitted>)
    ensures Leaves(regs, es, dest, imm)
    ensures |es| == (if imm <= 0xffff then 1 else 2) && UsesHalves(es) && !UsesConstant(es)
  {
    if imm <= 0xffff {
      RunsMoveWide(regs, dest, imm);
      MoveWideIsHalf(MOVW, dest, imm);
      es := [Insn(MoveWide(MOVW, dest, imm))];
      assert es[0].Insn? && IsMoveHalf(es[0].word);
      return;
    }
    var movw, movt := [Insn(MoveWide(MOVW, dest, imm & 0xffff))], [Insn(MoveWide(MOVT, dest, imm >> 16))];
    JoinsHalves(regs, imm, dest);
    MoveWideIsHalf(MOVW, dest, imm & 0xffff);
    es := movw + movt;
    assert es[0].Insn? && IsMoveHalf(es[0].word);
  }

  lemma MoveWideIsHalf(op: bv32, rd: Reg, imm16: bv32)
    requires op == MOVW || op == MOVT
    ensures IsMoveHalf(MoveWide(op, rd, imm16))
  {
  }

  lemma HalvesJoin(imm: bv32)
    ensures imm & 0xffff <= 0xffff && imm >> 16 <= 0xffff
    ensures ((imm & 0xffff) & 0xffff) | ((imm >> 16) << 16) == imm
  {
  }

  lemma JoinsHalves(regs: Registers, imm: bv32, dest: Reg)
    ensures Leaves(regs, [Insn(MoveWide(MOVW, dest, imm & 0xffff))] + [Insn(MoveWide(MOVT, dest, imm >> 16))], dest, imm)
  {
    var movw, movt := [Insn(MoveWide(MOVW, dest, imm & 0xffff))], [Insn(MoveWide(MOVT, dest, imm >> 16))];
    HalvesJoin(imm);
    RunsMoveWide(regs, dest, imm & 0xffff);
    RunsMoveWide(ExecuteAll(regs, movw), dest, imm >> 16);
    LeavesThen(regs, movw, movt, dest, imm & 0xffff, imm);
  }

  /** Two operands, or-ed together. */
  lemma JoinsPair(regs: Registers, op1: bv32, op2: bv32, dest: Reg, a: bv32, b: bv32)
    requires Encodes(op1, a) && Encodes(op2, b)
    ensures Leaves(regs, [Insn(DataProcessing(MOV, dest, 0, op1))] + [Insn(DataProcessing(ORR, dest, dest, op2))],
                   dest, a | b)
  {
    var first, second := [Insn(DataProcessing(MOV, dest, 0, op1))], [Insn(DataProcessing(ORR, dest, dest, op2))];
    RunsMov(regs, dest, op1, a);
    RunsOrr(ExecuteAll(regs, first), dest, op2, b, a | b);
    LeavesThen(regs, first, second, dest, a, a | b);
  }

  lemma ComplementOfOr(a: bv32, b: bv32)
    ensures !a & !b == !(a | b)
  {
  }

  lemma ComplementTwice(x: bv32)
    ensures !!x == x
  {
  }

  /** Two operands of the complement, the first inverted and the second cleared. */
  lemma JoinsComplement(regs: Registers, op1: bv32, op2: bv32, dest: Reg, a: bv32, b: bv32)
    requires Encodes(op1, a) && Encodes(op2, b)
    ensures Leaves(regs, [Insn(DataProcessing(MVN, dest, 0, op1))] + [Insn(DataProcessing(BIC, dest, dest, op2))],
                   dest, !(a | b))
  {
    var first, second := [Insn(DataProcessing(MVN, dest, 0, op1))], [Insn(DataProcessing(BIC, dest, dest, op2))];
    RunsMvn(regs, dest, op1, a);
    ComplementOfOr(a, b);
    RunsBic(ExecuteAll(regs, first), dest, op2, b, !(a | b));
    LeavesThen(regs, first, second, dest, !a, !(a | b));
  }

  lemma TwoAreNoHalves(a: bv32, b: bv32)
    requires !IsMoveHalf(a) && !IsMoveHalf(b)
    ensures !UsesHalves([Insn(a)] + [Insn(b)]) && !UsesConstant([Insn(a)] + [Insn(b)])
  {
  }

  /** The path for older architectures: two instructions whenever two will do, and else a constant from the pool. */
  method MoveWithPairOrConstant(imm: bv32, dest: Reg, ghost regs: Registers) returns (es: seq<Emitted>)
    ensures Leaves(regs, es, dest, imm)
    ensures UsesConstant(es) <==> NoPair(imm) && NoPair(!imm)
    ensures |es| == (if UsesConstant(es) then 1 else 2) && !UsesHalves(es)
  {
    var ok, op1, op2 := GenInt(imm);
    if ok {
      JoinsPair(regs, op1, op2, dest, ExpandImm(op1), ExpandImm(op2));
      NoMoveHalf(MOV, dest, 0, op1);
      NoMoveHalf(ORR, dest, dest, op2);
      TwoAreNoHalves(DataProcessing(MOV, dest, 0, op1), DataProcessing(ORR, dest, dest, op2));
      return [Insn(DataProcessing(MOV, dest, 0, op1))] + [Insn(DataProcessing(ORR, dest, dest, op2))];
    }
    ok, op1, op2 := GenInt(!imm);
    if ok {
      JoinsComplement(regs, op1, op2, dest, ExpandImm(op1), ExpandImm(op2));
      ComplementTwice(imm);
      NoMoveHalf(MVN, dest, 0, op1);
      NoMoveHalf(BIC, dest, dest, op2);
      TwoAreNoHalves(DataProcessing(MVN, dest, 0, op1), DataProcessing(BIC, dest, dest, op2));
      return [Insn(DataProcessing(MVN, dest, 0, op1))] + [Insn(DataProcessing(BIC, dest, dest, op2))];
    }
    RunsLoadConstant(regs, dest, imm);
    es := [LoadConstant(ALWAYS | LOAD_LITERAL | (dest << 12), imm)];
    assert es[0].LoadConstant?;
  }

  /** One operand, or one for the complement, makes one instruction. */
  ghost predicate IsSimple(imm: bv32) {
    HasOperand(imm) || HasOperand(!imm)
  }

  /**
    Whatever the number and the architecture, the register ends up holding the number. Moves of halves are used just on
    ARMv7, the pool just before it and when two operands will not do, and neither when one instruction does.
   */
  method MoveImm(isArmv7: bool, imm: bv32, dest: Reg, ghost regs: Registers) returns (es: seq<Emitted>)
    ensures Leaves(regs, es, dest, imm)
    ensures UsesHalves(es) <==> !IsSimple(imm) && isArmv7
    ensures UsesConstant(es) <==> !IsSimple(imm) && !isArmv7 && NoPair(imm) && NoPair(!imm)
    ensures |es| == if IsSimple(imm) || UsesConstant(es) || (isArmv7 && imm <= 0xffff) then 1 else 2
    ensures Suits(isArmv7, es)
  {
    var op2 := GetOp2(imm);
    if op2 != INVALID_IMMEDIATE {
      RunsMov(regs, dest, op2, imm);
      NoMoveHalf(MOV, dest, 0, op2);
      SuitsAll(isArmv7, DataProcessing(MOV, dest, 0, op2));
      return [Insn(DataProcessing(MOV, dest, 0, op2))];
    }
    op2 := GetOp2(!imm);
    if op2 != INVALID_IMMEDIATE {
      RunsMvn(regs, dest, op2, !imm);
      ComplementTwice(imm);
      NoMoveHalf(MVN, dest, 0, op2);
      SuitsAll(isArmv7, DataProcessing(MVN, dest, 0, op2));
      return [Insn(DataProcessing(MVN, dest, 0, op2))];
    }
    if isArmv7 {
      es := MoveWithHalves(imm, dest, regs);
    } else {
      es := MoveWithPairOrConstant(imm, dest, regs);
    }
    SuitsByUses(isArmv7, es);
  }
}
