/**
  Loads and stores at any offset from a base, with or without a scaled index. The address is decoded from the emitted
  words and the registers they leave.
 */
module ArmTransfers {
  import opened ArmImmediates
  import opened ArmExecution

  const S0: Reg := 6
  const S1: Reg := 12
  const PC: Reg := 15
  const UP: bv32 := 0x0080_0000
  const REGISTER_OFFSET: bv32 := 0x0200_0000
  const IMMEDIATE_HALF: bv32 := 0x0040_0000

  /** Words and bytes; halfwords and signed bytes; floating point. */
  datatype Class = Plain | Half | Float

  /** The bits that say what a transfer transfers, and in which direction. */
  predicate IsKind(c: Class, kind: bv32) {
    match c
    case Plain => kind == 0x0510_0000 || kind == 0x0550_0000 || kind == 0x0500_0000 || kind == 0x0540_0000
    case Half => kind == 0x0110_00b0 || kind == 0x0110_00f0 || kind == 0x0110_00d0 || kind == 0x0100_00b0
    case Float => kind == 0x0d10_0a00 || kind == 0x0d10_0b00 || kind == 0x0d00_0a00 || kind == 0x0d00_0b00
  }

  function KindBits(c: Class): (r: bv32) {
    match c
    case Plain => 0xfd70_0000
    case Half => 0xff30_00f0
    case Float => 0xff30_0f00
  }

  /** An unconditional transfer of the given kind, addressed by offset and without writing the base back. */
  predicate IsTransfer(c: Class, kind: bv32, w: bv32) {
    && w & KindBits(c) == ALWAYS | kind
    && (c.Plain? && w & REGISTER_OFFSET != 0 ==> w & 0x70 == 0)
    && (c.Half? && w & IMMEDIATE_HALF == 0 ==> w & 0xf00 == 0)
  }

  function Offset(regs: Registers, c: Class, w: bv32): (r: bv32) {
    match c
    case Plain => if w & REGISTER_OFFSET != 0 then ShiftLeft(regs(FieldM(w)), (w >> 7) & 0x1f) else w & 0xfff
    case Half => if w & IMMEDIATE_HALF != 0 then ((w >> 4) & 0xf0) | (w & 0xf) else regs(FieldM(w))
    case Float => (w & 0xff) << 2
  }

  function Address(regs: Registers, c: Class, w: bv32): (r: bv32) {
    if w & UP != 0 then Plus(regs(FieldN(w)), Offset(regs, c, w)) else Minus(regs(FieldN(w)), Offset(regs, c, w))
  }

  /**
    The code `es` ends in one transfer of the given kind of register `rt`, at `address`. Before it, only register
    instructions run, and only registers in `scratch` change.
   */
  ghost predicate Transfers(regs: Registers, es: seq<Emitted>, c: Class, kind: bv32, rt: bv32, scratch: set<bv32>, address: bv32) {
    && es != []
    && var n := |es| - 1;
       && es[n].Insn? && IsTransfer(c, kind, es[n].word) && FieldD(es[n].word) == rt
       && RegistersOnly(es[..n])
       && (forall r :: r !in scratch ==> ExecuteAll(regs, es[..n])(r) == regs(r))
       && Address(ExecuteAll(regs, es[..n]), c, es[n].word) == address
  }

  /** What S0 holds when the final transfer happens: what a store of S0 writes. */
  ghost predicate LeavesInS0(regs: Registers, es: seq<Emitted>, value: bv32) {
    es != [] && ExecuteAll(regs, es[..|es| - 1])(S0) == value
  }

  function TransferWord(kind: bv32, rt: Reg, rn: Reg, rest: bv32): (w: bv32) {
    ALWAYS | kind | (rn << 16) | (rt << 12) | rest
  }

  /** The rest of a word that adds its offset to the base. */
  function Upwards(rest: bv32): (r: bv32) { UP | rest }

  function RegisterOffset(rm: Reg, scale: bv32): (r: bv32)
    requires scale < 32
  {
    UP | REGISTER_OFFSET | Lsl(rm, scale)
  }

  // ----- single transfers -----

  lemma PlainFields(kind: bv32, rt: Reg, rn: Reg, rest: bv32)
    requires IsKind(Plain, kind)
    requires rest & !(UP | REGISTER_OFFSET | 0xfff) == 0 && (rest & REGISTER_OFFSET != 0 ==> rest & 0x70 == 0)
    ensures var w := TransferWord(kind, rt, rn, rest);
            && IsTransfer(Plain, kind, w) && FieldD(w) == rt && FieldN(w) == rn
            && w & 0xfff == rest & 0xfff && w & UP == rest & UP && w & REGISTER_OFFSET == rest & REGISTER_OFFSET
  {
  }

  lemma HalfFields(kind: bv32, rt: Reg, rn: Reg, rest: bv32)
    requires IsKind(Half, kind)
    requires rest & !(UP | IMMEDIATE_HALF | 0xf0f) == 0 && (rest & IMMEDIATE_HALF == 0 ==> rest & 0xf00 == 0)
    ensures var w := TransferWord(kind, rt, rn, rest);
            && IsTransfer(Half, kind, w) && FieldD(w) == rt && FieldN(w) == rn
            && w & 0xf0f == rest & 0xf0f && w & UP == rest & UP && w & IMMEDIATE_HALF == rest & IMMEDIATE_HALF
  {
    if kind == 0x0110_00b0 {} else if kind == 0x0110_00f0 {} else if kind == 0x0110_00d0 {}
  }

  lemma FloatFields(kind: bv32, rt: Reg, rn: Reg, rest: bv32)
    requires IsKind(Float, kind) && rest & !(UP | 0xff) == 0
    ensures var w := TransferWord(kind, rt, rn, rest);
            && IsTransfer(Float, kind, w) && FieldD(w) == rt && FieldN(w) == rn
            && w & 0xff == rest & 0xff && w & UP == rest & UP
  {
  }

  lemma AddressUp(regs: Registers, c: Class, w: bv32, rn: Reg, offset: bv32)
    requires w & UP == UP && FieldN(w) == rn && Offset(regs, c, w) == offset
    ensures Address(regs, c, w) == Plus(regs(rn), offset)
  {
  }

  lemma PlainRegisterOffset(regs: Registers, w: bv32, rm: Reg, scale: bv32)
    requires w & REGISTER_OFFSET == REGISTER_OFFSET && FieldM(w) == rm && (w >> 7) & 0x1f == scale && scale <= 31
    ensures Offset(regs, Plain, w) == ShiftLeft(regs(rm), scale)
  {
  }

  lemma HalfRegisterOffset(regs: Registers, w: bv32, rm: Reg)
    requires w & IMMEDIATE_HALF == 0 && FieldM(w) == rm
    ensures Offset(regs, Half, w) == regs(rm)
  {
  }

  lemma PlainRest(imm: bv32)
    requires imm <= 0xfff
    ensures Upwards(imm) & !(UP | REGISTER_OFFSET | 0xfff) == 0 && imm & !(UP | REGISTER_OFFSET | 0xfff) == 0
    ensures Upwards(imm) & REGISTER_OFFSET == 0 && imm & REGISTER_OFFSET == 0
    ensures Upwards(imm) & UP == UP && imm & UP == 0 && Upwards(imm) & 0xfff == imm && imm & 0xfff == imm
  {
  }

  lemma PlainUp(regs: Registers, kind: bv32, rt: Reg, rn: Reg, imm: bv32)
    requires IsKind(Plain, kind) && imm <= 0xfff
    ensures var w := TransferWord(kind, rt, rn, Upwards(imm));
            IsTransfer(Plain, kind, w) && FieldD(w) == rt && Address(regs, Plain, w) == Plus(regs(rn), imm)
  {
    PlainRest(imm);
    PlainFields(kind, rt, rn, Upwards(imm));
  }

  lemma PlainDown(regs: Registers, kind: bv32, rt: Reg, rn: Reg, imm: bv32)
    requires IsKind(Plain, kind) && imm <= 0xfff
    ensures var w := TransferWord(kind, rt, rn, imm);
            IsTransfer(Plain, kind, w) && FieldD(w) == rt && Address(regs, Plain, w) == Minus(regs(rn), imm)
  {
    PlainRest(imm);
    PlainFields(kind, rt, rn, imm);
  }

  lemma PlainRegisterRest(rm: Reg, scale: bv32)
    requires scale <= 31
    ensures var rest := RegisterOffset(rm, scale);
            && rest & !(UP | REGISTER_OFFSET | 0xfff) == 0 && rest & 0x70 == 0
            && rest & REGISTER_OFFSET == REGISTER_OFFSET && rest & UP == UP && rest & 0xfff == Lsl(rm, scale) & 0xfff
  {
  }

  lemma PlainRegisterFields(kind: bv32, rt: Reg, rn: Reg, rm: Reg, scale: bv32)
    requires IsKind(Plain, kind) && scale <= 31
    ensures var w := TransferWord(kind, rt, rn, RegisterOffset(rm, scale));
            && IsTransfer(Plain, kind, w) && FieldD(w) == rt && FieldN(w) == rn
            && w & UP == UP && w & REGISTER_OFFSET == REGISTER_OFFSET && w & 0xfff == Lsl(rm, scale) & 0xfff
  {
    PlainRegisterRest(rm, scale);
    PlainFields(kind, rt, rn, RegisterOffset(rm, scale));
  }

  lemma PlainRegister(regs: Registers, kind: bv32, rt: Reg, rn: Reg, rm: Reg, scale: bv32)
    requires IsKind(Plain, kind) && scale <= 31
    ensures var w := TransferWord(kind, rt, rn, RegisterOffset(rm, scale));
            IsTransfer(Plain, kind, w) && FieldD(w) == rt && Address(regs, Plain, w) == Plus(regs(rn), ShiftLeft(regs(rm), scale))
  {
    PlainRegisterFields(kind, rt, rn, rm, scale);
    PlainRegisterAddress(regs, TransferWord(kind, rt, rn, RegisterOffset(rm, scale)), rn, rm, scale);
  }

  lemma PlainRegisterAddress(regs: Registers, w: bv32, rn: Reg, rm: Reg, scale: bv32)
    requires w & REGISTER_OFFSET == REGISTER_OFFSET && scale <= 31 && w & 0xfff == Lsl(rm, scale) & 0xfff
    requires w & UP == UP && FieldN(w) == rn
    ensures Address(regs, Plain, w) == Plus(regs(rn), ShiftLeft(regs(rm), scale))
  {
    ShiftedFields(w, rm, scale);
    PlainRegisterOffset(regs, w, rm, scale);
    AddressUp(regs, Plain, w, rn, ShiftLeft(regs(rm), scale));
  }

  /** `getOp2Half`: the immediate of a halfword transfer is split in two. */
  function HalfOperand(imm: bv32): (r: bv32) {
    IMMEDIATE_HALF | (imm & 0x0f) | ((imm & 0xf0) << 4)
  }

  lemma HalfRest(imm: bv32)
    requires imm <= 0xff
    ensures var up := Upwards(HalfOperand(imm));
            && up & !(UP | IMMEDIATE_HALF | 0xf0f) == 0 && up & IMMEDIATE_HALF == IMMEDIATE_HALF && up & UP == UP
            && up & 0xf0f == HalfOperand(imm) & 0xf0f
    ensures var down := HalfOperand(imm);
            && down & !(UP | IMMEDIATE_HALF | 0xf0f) == 0 && down & IMMEDIATE_HALF == IMMEDIATE_HALF && down & UP == 0
  {
  }

  lemma HalfImmediateFields(w: bv32, imm: bv32)
    requires imm <= 0xff && w & 0xf0f == HalfOperand(imm) & 0xf0f
    ensures ((w >> 4) & 0xf0) | (w & 0xf) == imm
  {
    assert (w >> 4) & 0xf0 == ((w & 0xf0f) >> 4) & 0xf0 && w & 0xf == (w & 0xf0f) & 0xf;
  }

  lemma HalfUp(regs: Registers, kind: bv32, rt: Reg, rn: Reg, imm: bv32)
    requires IsKind(Half, kind) && imm <= 0xff
    ensures var w := TransferWord(kind, rt, rn, Upwards(HalfOperand(imm)));
            IsTransfer(Half, kind, w) && FieldD(w) == rt && Address(regs, Half, w) == Plus(regs(rn), imm)
  {
    HalfRest(imm);
    HalfFields(kind, rt, rn, Upwards(HalfOperand(imm)));
    HalfImmediateFields(TransferWord(kind, rt, rn, Upwards(HalfOperand(imm))), imm);
  }

  lemma HalfDown(regs: Registers, kind: bv32, rt: Reg, rn: Reg, imm: bv32)
    requires IsKind(Half, kind) && imm <= 0xff
    ensures var w := TransferWord(kind, rt, rn, HalfOperand(imm));
            IsTransfer(Half, kind, w) && FieldD(w) == rt && Address(regs, Half, w) == Minus(regs(rn), imm)
  {
    HalfRest(imm);
    HalfFields(kind, rt, rn, HalfOperand(imm));
    HalfImmediateFields(TransferWord(kind, rt, rn, HalfOperand(imm)), imm);
  }

  lemma HalfRegisterRest(rm: Reg)
    ensures var rest := Upwards(rm);
            && rest & !(UP | IMMEDIATE_HALF | 0xf0f) == 0 && rest & IMMEDIATE_HALF == 0 && rest & 0xf00 == 0
            && rest & UP == UP && rest & 0xf0f == rm
  {
  }

  lemma HalfRegisterFields(kind: bv32, rt: Reg, rn: Reg, rm: Reg)
    requires IsKind(Half, kind)
    ensures var w := TransferWord(kind, rt, rn, Upwards(rm));
            && IsTransfer(Half, kind, w) && FieldD(w) == rt && FieldN(w) == rn
            && w & UP == UP && w & IMMEDIATE_HALF == 0 && w & 0xf0f == rm
  {
    HalfRegisterRest(rm);
    HalfFields(kind, rt, rn, Upwards(rm));
  }

  lemma HalfRegister(regs: Registers, kind: bv32, rt: Reg, rn: Reg, rm: Reg)
    requires IsKind(Half, kind)
    ensures var w := TransferWord(kind, rt, rn, Upwards(rm));
            IsTransfer(Half, kind, w) && FieldD(w) == rt && Address(regs, Half, w) == Plus(regs(rn), regs(rm))
  {
    HalfRegisterFields(kind, rt, rn, rm);
    HalfRegisterAddress(regs, TransferWord(kind, rt, rn, Upwards(rm)), rn, rm);
  }

  lemma HalfRegisterAddress(regs: Registers, w: bv32, rn: Reg, rm: Reg)
    requires w & IMMEDIATE_HALF == 0 && w & 0xf0f == rm && w & UP == UP && FieldN(w) == rn
    ensures Address(regs, Half, w) == Plus(regs(rn), regs(rm))
  {
    HalfRegisterField(w, rm);
    HalfRegisterOffset(regs, w, rm);
    AddressUp(regs, Half, w, rn, regs(rm));
  }

  lemma HalfRegisterField(w: bv32, rm: Reg)
    requires w & 0xf0f == rm
    ensures FieldM(w) == rm
  {
    assert w & 0xf == (w & 0xf0f) & 0xf;
  }

  lemma FloatRest(imm: bv32)
    requires imm <= 0xff
    ensures Upwards(imm) & !(UP | 0xff) == 0 && imm & !(UP | 0xff) == 0
    ensures Upwards(imm) & UP == UP && imm & UP == 0 && Upwards(imm) & 0xff == imm && imm & 0xff == imm
  {
  }

  lemma FloatUp(regs: Registers, kind: bv32, rt: Reg, rn: Reg, imm: bv32)
    requires IsKind(Float, kind) && imm <= 0xff
    ensures var w := TransferWord(kind, rt, rn, Upwards(imm));
            IsTransfer(Float, kind, w) && FieldD(w) == rt && Address(regs, Float, w) == Plus(regs(rn), imm << 2)
  {
    FloatRest(imm);
    FloatFields(kind, rt, rn, Upwards(imm));
  }

  lemma FloatDown(regs: Registers, kind: bv32, rt: Reg, rn: Reg, imm: bv32)
    requires IsKind(Float, kind) && imm <= 0xff
    ensures var w := TransferWord(kind, rt, rn, imm);
            IsTransfer(Float, kind, w) && FieldD(w) == rt && Address(regs, Float, w) == Minus(regs(rn), imm << 2)
  {
    FloatRest(imm);
    FloatFields(kind, rt, rn, imm);
  }

  // ----- code that ends in a transfer -----

  lemma TransfersDirectly(regs: Registers, c: Class, kind: bv32, rt: Reg, w: bv32, address: bv32)
    requires IsTransfer(c, kind, w) && FieldD(w) == rt && Address(regs, c, w) == address
    ensures Transfers(regs, [Insn(w)], c, kind, rt, {S0}, address) && LeavesInS0(regs, [Insn(w)], regs(S0))
  {
    assert [Insn(w)][..0] == [];
  }

  lemma TransfersAfter(regs: Registers, es: seq<Emitted>, value: bv32, c: Class, kind: bv32, rt: Reg, w: bv32, address: bv32)
    requires Leaves(regs, es, S0, value)
    requires IsTransfer(c, kind, w) && FieldD(w) == rt && Address(ExecuteAll(regs, es), c, w) == address
    ensures Transfers(regs, es + [Insn(w)], c, kind, rt, {S0}, address) && LeavesInS0(regs, es + [Insn(w)], value)
  {
    assert (es + [Insn(w)])[..|es|] == es;
  }

  /** Code that prepares a scratch register, before code that transfers. */
  lemma TransfersWithPrefix(regs: Registers, pre: seq<Emitted>, rd: Reg, value: bv32, es: seq<Emitted>,
                            c: Class, kind: bv32, rt: Reg, scratch: set<bv32>, address: bv32)
    requires Leaves(regs, pre, rd, value) && Transfers(ExecuteAll(regs, pre), es, c, kind, rt, scratch, address)
    ensures Transfers(regs, pre + es, c, kind, rt, scratch + {rd}, address)
    ensures LeavesInS0(regs, pre + es, ExecuteAll(ExecuteAll(regs, pre), es[..|es| - 1])(S0))
  {
    var n := |es| - 1;
    assert (pre + es)[..|pre| + n] == pre + es[..n];
    ExecuteAppended(regs, pre, es[..n]);
  }

  lemma UpAndDown(base: bv32, offset: bv32)
    ensures Minus(base, 0 - offset) == Plus(base, offset)
  {
  }

  lemma PlusUnfolds(base: bv32, a: bv32, b: bv32)
    ensures Plus(Plus(base, a), b) == Plus(base + a, b) && Minus(Minus(base, a), b) == Minus(base - a, b)
    ensures Plus(b, Plus(base, a)) == Plus(b, base + a)
  {
    assert Plus(base, a) == base + a && Minus(base, a) == base - a;
  }

  lemma PlusJoins(base: bv32, a: bv32, b: bv32)
    ensures Plus(base + a, b) == Plus(base, a + b) && Minus(base - a, b) == Minus(base, a + b)
    ensures Plus(base, b + a) == Plus(base + a, b)
  {
  }

  lemma PlusTwice(base: bv32, a: bv32, b: bv32)
    ensures Plus(Plus(base, a), b) == Plus(base, a + b) && Minus(Minus(base, a), b) == Minus(base, a + b)
  {
    PlusUnfolds(base, a, b);
    PlusJoins(base, a, b);
  }

  lemma PlusParts(base: bv32, high: bv32, low: bv32, offset: bv32)
    requires high + low == offset
    ensures Plus(Plus(base, high), low) == Plus(base, offset) && Minus(Minus(base, high), low) == Minus(base, offset)
  {
    PlusTwice(base, high, low);
  }

  /** An addition into S0, and a transfer relative to it. */
  lemma TransfersOffSum(regs: Registers, c: Class, kind: bv32, rt: Reg, base: Reg, op2: bv32, high: bv32, low: bv32,
                        w: bv32, address: bv32)
    requires Encodes(op2, high) && IsTransfer(c, kind, w) && FieldD(w) == rt
    requires var sum := ExecuteAll(regs, [Insn(DataProcessing(ADD, S0, base, op2))]);
             Address(sum, c, w) == Plus(sum(S0), low)
    requires Plus(Plus(regs(base), high), low) == address
    ensures Transfers(regs, [Insn(DataProcessing(ADD, S0, base, op2))] + [Insn(w)], c, kind, rt, {S0}, address)
    ensures LeavesInS0(regs, [Insn(DataProcessing(ADD, S0, base, op2))] + [Insn(w)], Plus(regs(base), high))
  {
    RunsAdd(regs, S0, base, op2, high);
    TransfersAfter(regs, [Insn(DataProcessing(ADD, S0, base, op2))], Plus(regs(base), high), c, kind, rt, w, address);
  }

  lemma TransfersOffDifference(regs: Registers, c: Class, kind: bv32, rt: Reg, base: Reg, op2: bv32, high: bv32, low: bv32,
                               w: bv32, address: bv32)
    requires Encodes(op2, high) && IsTransfer(c, kind, w) && FieldD(w) == rt
    requires var difference := ExecuteAll(regs, [Insn(DataProcessing(SUB, S0, base, op2))]);
             Address(difference, c, w) == Minus(difference(S0), low)
    requires Minus(Minus(regs(base), high), low) == address
    ensures Transfers(regs, [Insn(DataProcessing(SUB, S0, base, op2))] + [Insn(w)], c, kind, rt, {S0}, address)
    ensures LeavesInS0(regs, [Insn(DataProcessing(SUB, S0, base, op2))] + [Insn(w)], Minus(regs(base), high))
  {
    RunsSub(regs, S0, base, op2, high);
    TransfersAfter(regs, [Insn(DataProcessing(SUB, S0, base, op2))], Minus(regs(base), high), c, kind, rt, w, address);
  }

  lemma PlusZero(x: bv32)
    ensures Plus(x, 0) == x
  {
  }

  lemma ShiftByZero(x: bv32)
    ensures ShiftLeft(x, 0) == x
  {
  }

  lemma PlusThenMinus(base: bv32, x: bv32)
    ensures Minus(Plus(base, x), base) == x
  {
    assert Plus(base, x) == base + x;
    assert Minus(base + x, base) == x;
  }

  lemma PlusCancels(base: bv32, x: bv32, y: bv32)
    requires x != y
    ensures Plus(base, x) != Plus(base, y)
  {
    PlusThenMinus(base, x);
    PlusThenMinus(base, y);
  }

  lemma PlusCommutes(x: bv32, y: bv32)
    ensures Plus(x, y) == Plus(y, x)
  {
  }

  /** What is in `reg` once S0 holds `value`. */
  function After(regs: Registers, value: bv32, reg: bv32): (r: bv32) {
    if reg == S0 then value else regs(reg)
  }

  /** Where a transfer with an offset out of reach goes. */
  function FarAddress(regs: Registers, base: Reg, offset: bv32): (r: bv32) {
    Plus(After(regs, offset, base), offset)
  }

  function Indexed(regs: Registers, base: Reg, index: Reg, scale: bv32): (r: bv32)
    requires scale < 32
  {
    Plus(regs(base), ShiftLeft(regs(index), scale))
  }

  /** Offset plus scaled index, summed in S0. */
  function FarSum(regs: Registers, index: Reg, scale: bv32, offset: bv32): (r: bv32)
    requires scale < 32
  {
    Plus(offset, ShiftLeft(After(regs, offset, index), scale))
  }

  /** Where an indexed transfer with an offset out of reach goes. */
  function FarIndexed(regs: Registers, base: Reg, index: Reg, scale: bv32, offset: bv32): (r: bv32)
    requires scale < 32
  {
    var sum := FarSum(regs, index, scale, offset);
    Plus(After(regs, sum, base), sum)
  }

  /** Out of reach, the offset is put into S0 first: the address is right for all registers just when the base is not S0. */
  lemma FarAddressIsRight(base: Reg, offset: bv32)
    ensures (forall regs: Registers :: FarAddress(regs, base, offset) == Plus(regs(base), offset)) <==> base != S0
  {
    if base == S0 {
      var regs := (r: bv32) => offset + 1;
      assert FarAddress(regs, base, offset) == Plus(offset, offset) && Plus(offset + 1, offset) != Plus(offset, offset);
    }
  }

  lemma IndexedSum(base: bv32, index: bv32, offset: bv32)
    ensures Plus(base, Plus(offset, index)) == Plus(Plus(base, index), offset)
  {
    PlusUnfolds(offset, index, base);
    PlusUnfolds(base, index, offset);
    PlusJoins(base, index, offset);
  }

  lemma WrongIndex(base: bv32, offset: bv32, scale: bv32)
    requires scale < 32
    ensures Plus(base, Plus(offset, ShiftLeft(offset, scale))) != Plus(Plus(base, ShiftLeft(offset ^ 1, scale)), offset)
  {
    OtherShifted(offset, scale);
    WrongSum(base, offset, ShiftLeft(offset, scale), ShiftLeft(offset ^ 1, scale));
  }

  lemma OtherShifted(x: bv32, scale: bv32)
    requires scale < 32
    ensures ShiftLeft(x ^ 1, scale) != ShiftLeft(x, scale)
  {
  }

  lemma WrongSum(base: bv32, offset: bv32, x: bv32, y: bv32)
    requires x != y
    ensures Plus(base, Plus(offset, x)) != Plus(Plus(base, y), offset)
  {
    IndexedSum(base, x, offset);
    PlusCancels(base, x, y);
    PlusCancels(offset, Plus(base, x), Plus(base, y));
    PlusCommutes(Plus(base, x), offset);
    PlusCommutes(Plus(base, y), offset);
  }

  lemma WrongBase(index: bv32, offset: bv32)
    ensures var sum := Plus(offset, index); Plus(sum, sum) != Plus(Plus(sum + 1, index), offset)
  {
  }

  lemma WrongBoth(offset: bv32, scale: bv32)
    requires scale < 32
    ensures Plus(Plus(0, ShiftLeft(0, scale)), offset) != Plus(Plus(1, ShiftLeft(1, scale)), offset)
  {
    ShiftedOne(scale);
  }

  lemma ShiftedOne(scale: bv32)
    requires scale < 32
    ensures ShiftLeft(0, scale) == 0 && ShiftLeft(1, scale) != 0 && Plus(1, ShiftLeft(1, scale)) != 0
  {
  }

  ghost predicate FarIndexedRight(regs: Registers, base: Reg, index: Reg, scale: bv32, offset: bv32)
    requires scale < 32
  {
    FarIndexed(regs, base, index, scale, offset) == Plus(Indexed(regs, base, index, scale), offset)
  }

  lemma FarIndexedRightOtherwise(regs: Registers, base: Reg, index: Reg, scale: bv32, offset: bv32)
    requires scale < 32 && base != S0 && index != S0
    ensures FarIndexedRight(regs, base, index, scale, offset)
  {
    IndexedSum(regs(base), ShiftLeft(regs(index), scale), offset);
  }

  lemma FarIndexedWrongIndex(base: Reg, scale: bv32, offset: bv32) returns (regs: Registers)
    requires scale < 32 && base != S0
    ensures !FarIndexedRight(regs, base, S0, scale, offset)
  {
    regs := r => if r == S0 then offset ^ 1 else 0;
    WrongIndex(0, offset, scale);
  }

  lemma FarIndexedWrongBase(index: Reg, scale: bv32, offset: bv32) returns (regs: Registers)
    requires scale < 32 && index != S0
    ensures !FarIndexedRight(regs, S0, index, scale, offset)
  {
    var shifted := ShiftLeft(0, scale);
    regs := r => if r == S0 then Plus(offset, shifted) + 1 else 0;
    WrongBase(shifted, offset);
  }

  lemma FarIndexedWrongBoth(scale: bv32, offset: bv32) returns (regs: Registers)
    requires scale < 32
    ensures !FarIndexedRight(regs, S0, S0, scale, offset)
  {
    var zeros: Registers, ones: Registers := r => 0, r => 1;
    WrongBoth(offset, scale);
    regs := if FarIndexedRight(zeros, S0, S0, scale, offset) then ones else zeros;
    assert FarIndexed(zeros, S0, S0, scale, offset) == FarIndexed(ones, S0, S0, scale, offset);
  }

  /** The indexed address is right for all registers just when neither base nor index is S0. */
  lemma FarIndexedIsRight(base: Reg, index: Reg, scale: bv32, offset: bv32)
    requires scale < 32
    ensures (forall regs: Registers :: FarIndexedRight(regs, base, index, scale, offset)) <==> base != S0 && index != S0
  {
    if base != S0 && index != S0 {
      forall regs: Registers ensures FarIndexedRight(regs, base, index, scale, offset) {
        FarIndexedRightOtherwise(regs, base, index, scale, offset);
      }
    } else if base != S0 {
      var regs := FarIndexedWrongIndex(base, scale, offset);
    } else if index != S0 {
      var regs := FarIndexedWrongBase(index, scale, offset);
    } else {
      var regs := FarIndexedWrongBoth(scale, offset);
    }
  }

  // ----- which architectures have the instructions -----

  predicate SuitsBoth(es: seq<Emitted>) {
    Suits(true, es) && Suits(false, es)
  }

  lemma TransferIsNoHalf(c: Class, kind: bv32, w: bv32)
    requires IsKind(c, kind) && IsTransfer(c, kind, w)
    ensures !IsMoveHalf(w)
  {
    match c {
      case Plain => assert w & 0x0d00_0000 == 0x0500_0000;
      case Half => assert w & 0x0f00_0000 == 0x0100_0000;
      case Float => assert w & 0x0f00_0000 == 0x0d00_0000;
    }
  }

  lemma OneSuits(c: Class, kind: bv32, w: bv32)
    requires IsKind(c, kind) && IsTransfer(c, kind, w)
    ensures SuitsBoth([Insn(w)])
  {
    TransferIsNoHalf(c, kind, w);
  }

  lemma EndSuits(isArmv7: bool, es: seq<Emitted>, c: Class, kind: bv32, w: bv32)
    requires Suits(isArmv7, es) && IsKind(c, kind) && IsTransfer(c, kind, w)
    ensures Suits(isArmv7, es + [Insn(w)])
  {
    OneSuits(c, kind, w);
    SuitsThen(isArmv7, es, [Insn(w)]);
  }

  lemma AddSuits(isArmv7: bool, rd: Reg, rn: Reg, rm: Reg, scale: bv32)
    requires scale < 32
    ensures Suits(isArmv7, [Insn(DataProcessing(ADD, rd, rn, Lsl(rm, scale)))])
  {
    ShiftedIsRegister(rm, scale);
    NoMoveHalf(ADD, rd, rn, Lsl(rm, scale));
  }

  lemma TwoSuit(op: bv32, base: Reg, op2: bv32, c: Class, kind: bv32, w: bv32)
    requires IsOpcode(op) && IsOperand(op2) && IsKind(c, kind) && IsTransfer(c, kind, w)
    ensures SuitsBoth([Insn(DataProcessing(op, S0, base, op2))] + [Insn(w)])
  {
    NoMoveHalf(op, S0, base, op2);
    EndSuits(true, [Insn(DataProcessing(op, S0, base, op2))], c, kind, w);
    EndSuits(false, [Insn(DataProcessing(op, S0, base, op2))], c, kind, w);
  }

  // ----- words and bytes -----

  /** Within reach of one addition and one transfer. */
  predicate Near32(offset: bv32) {
    (offset <= 0xf_ffff || 0 - offset <= 0xf_ffff)
  }

  /** Within reach of one transfer. */
  predicate Direct32(offset: bv32) {
    offset <= 0xfff || 0 - offset <= 0xfff
  }

  /** What a transfer leaves in S0 before its last instruction, from what was there and the base. */
  function Scratch32(s0: bv32, base: bv32, offset: bv32): (r: bv32) {
    if Direct32(offset) then s0
    else if offset <= 0xf_ffff then Plus(base, (offset >> 12) << 12)
    else if 0 - offset <= 0xf_ffff then Minus(base, ((0 - offset) >> 12) << 12)
    else offset
  }

  lemma ScratchUp32(s0: bv32, base: bv32, offset: bv32)
    requires offset <= 0xf_ffff
    ensures Near32(offset) && Scratch32(s0, base, offset) == if offset <= 0xfff then s0 else Plus(base, (offset >> 12) << 12)
  {
  }

  lemma ScratchDown32(s0: bv32, base: bv32, offset: bv32, down: bv32)
    requires down == 0 - offset && !(offset <= 0xf_ffff) && down <= 0xf_ffff
    ensures Near32(offset) && Scratch32(s0, base, offset) == if down <= 0xfff then s0 else Minus(base, (down >> 12) << 12)
  {
  }

  lemma ScratchFar32(s0: bv32, base: bv32, offset: bv32)
    requires !Near32(offset)
    ensures Scratch32(s0, base, offset) == offset
  {
  }

  lemma ScratchChanges32(offset: bv32)
    requires !Direct32(offset)
    ensures Scratch32(0, 0, offset) != 0
  {
  }

  /** A store writes its register, whatever the registers hold, just when that is not S0 or one instruction does it. */
  lemma StoreIsRight32(rt: Reg, base: Reg, offset: bv32)
    ensures (forall regs: Registers :: (if rt == S0 then Scratch32(regs(S0), regs(base), offset) else regs(rt)) == regs(rt))
       <==> rt != S0 || Direct32(offset)
  {
    if rt == S0 && !Direct32(offset) {
      var zeros: Registers := r => 0;
      ScratchChanges32(offset);
      assert Scratch32(zeros(S0), zeros(base), offset) != zeros(S0);
    }
  }

  lemma HighPart32(offset: bv32)
    requires offset <= 0xf_ffff
    ensures Encodes(OP2_IMMEDIATE | (offset >> 12) | (10 << 8), (offset >> 12) << 12)
  {
  }

  lemma LowPart32(offset: bv32)
    ensures offset & 0xfff <= 0xfff
  {
  }

  lemma Parts32(offset: bv32)
    ensures ((offset >> 12) << 12) + (offset & 0xfff) == offset
  {
  }

  lemma Split32(base: bv32, offset: bv32)
    ensures Plus(Plus(base, (offset >> 12) << 12), offset & 0xfff) == Plus(base, offset)
    ensures Minus(Minus(base, (offset >> 12) << 12), offset & 0xfff) == Minus(base, offset)
  {
    Parts32(offset);
    PlusParts(base, (offset >> 12) << 12, offset & 0xfff, offset);
  }

  method TransferUp32(kind: bv32, rt: Reg, base: Reg, offset: bv32, ghost regs: Registers) returns (es: seq<Emitted>)
    requires IsKind(Plain, kind) && offset <= 0xf_ffff
    ensures Transfers(regs, es, Plain, kind, rt, {S0}, Plus(regs(base), offset))
    ensures LeavesInS0(regs, es, if offset <= 0xfff then regs(S0) else Plus(regs(base), (offset >> 12) << 12))
    ensures SuitsBoth(es)
  {
    LowPart32(offset);
    if offset <= 0xfff {
      var w := TransferWord(kind, rt, base, Upwards(offset));
      PlainUp(regs, kind, rt, base, offset);
      TransfersDirectly(regs, Plain, kind, rt, w, Plus(regs(base), offset));
      OneSuits(Plain, kind, w);
      return [Insn(w)];
    }
    var op2 := OP2_IMMEDIATE | (offset >> 12) | (10 << 8);
    var add, w := [Insn(DataProcessing(ADD, S0, base, op2))], TransferWord(kind, rt, S0, Upwards(offset & 0xfff));
    HighPart32(offset);
    PlainUp(ExecuteAll(regs, add), kind, rt, S0, offset & 0xfff);
    Split32(regs(base), offset);
    TransfersOffSum(regs, Plain, kind, rt, base, op2, (offset >> 12) << 12, offset & 0xfff, w, Plus(regs(base), offset));
    TwoSuit(ADD, base, op2, Plain, kind, w);
    return add + [Insn(w)];
  }

  method TransferDown32(kind: bv32, rt: Reg, base: Reg, down: bv32, ghost regs: Registers) returns (es: seq<Emitted>)
    requires IsKind(Plain, kind) && down <= 0xf_ffff
    ensures Transfers(regs, es, Plain, kind, rt, {S0}, Minus(regs(base), down))
    ensures LeavesInS0(regs, es, if down <= 0xfff then regs(S0) else Minus(regs(base), (down >> 12) << 12))
    ensures SuitsBoth(es)
  {
    LowPart32(down);
    if down <= 0xfff {
      var w := TransferWord(kind, rt, base, down);
      PlainDown(regs, kind, rt, base, down);
      TransfersDirectly(regs, Plain, kind, rt, w, Minus(regs(base), down));
      OneSuits(Plain, kind, w);
      return [Insn(w)];
    }
    var op2 := OP2_IMMEDIATE | (down >> 12) | (10 << 8);
    var sub, w := [Insn(DataProcessing(SUB, S0, base, op2))], TransferWord(kind, rt, S0, (down & 0xfff));
    HighPart32(down);
    PlainDown(ExecuteAll(regs, sub), kind, rt, S0, down & 0xfff);
    Split32(regs(base), down);
    TransfersOffDifference(regs, Plain, kind, rt, base, op2, (down >> 12) << 12, down & 0xfff, w, Minus(regs(base), down));
    TwoSuit(SUB, base, op2, Plain, kind, w);
    return sub + [Insn(w)];
  }

  /** A transfer at the base plus what was put into S0. */
  lemma Through32(regs: Registers, pre: seq<Emitted>, sum: bv32, kind: bv32, rt: Reg, base: Reg, w: bv32)
    requires IsKind(Plain, kind) && Leaves(regs, pre, S0, sum) && w == TransferWord(kind, rt, base, RegisterOffset(S0, 0))
    ensures IsTransfer(Plain, kind, w) && LeavesInS0(regs, pre + [Insn(w)], sum)
    ensures Transfers(regs, pre + [Insn(w)], Plain, kind, rt, {S0}, Plus(After(regs, sum, base), sum))
  {
    PlainRegister(ExecuteAll(regs, pre), kind, rt, base, S0, 0);
    ShiftByZero(sum);
    TransfersAfter(regs, pre, sum, Plain, kind, rt, w, Plus(After(regs, sum, base), sum));
  }

  /** The last case of `dataTransfer32`: the offset in S0. */
  method TransferFar32(isArmv7: bool, kind: bv32, rt: Reg, base: Reg, offset: bv32, ghost regs: Registers)
    returns (es: seq<Emitted>)
    requires IsKind(Plain, kind)
    ensures Transfers(regs, es, Plain, kind, rt, {S0}, FarAddress(regs, base, offset)) && LeavesInS0(regs, es, offset)
    ensures Suits(isArmv7, es)
  {
    var move := MoveImm(isArmv7, offset, S0, regs);
    var w := TransferWord(kind, rt, base, RegisterOffset(S0, 0));
    Through32(regs, move, offset, kind, rt, base, w);
    EndSuits(isArmv7, move, Plain, kind, w);
    return move + [Insn(w)];
  }

  /**
    `dataTransfer32` accesses base plus offset. Out of reach, the offset goes through S0; `FarAddressIsRight` says when
    that is still base plus offset.
   */
  method DataTransfer32(isArmv7: bool, kind: bv32, rt: Reg, base: Reg, offset: bv32, ghost regs: Registers)
    returns (es: seq<Emitted>)
    requires IsKind(Plain, kind) && base != PC
    ensures Transfers(regs, es, Plain, kind, rt, {S0},
                      if Near32(offset) then Plus(regs(base), offset) else FarAddress(regs, base, offset))
    ensures LeavesInS0(regs, es, Scratch32(regs(S0), regs(base), offset))
    ensures Suits(isArmv7, es)
  {
    if offset <= 0xf_ffff {
      es := TransferUp32(kind, rt, base, offset, regs);
      ScratchUp32(regs(S0), regs(base), offset);
      return;
    }
    if 0 - offset <= 0xf_ffff {
      es := TransferDown32(kind, rt, base, 0 - offset, regs);
      UpAndDown(regs(base), offset);
      ScratchDown32(regs(S0), regs(base), offset, 0 - offset);
      return;
    }
    es := TransferFar32(isArmv7, kind, rt, base, offset, regs);
    ScratchFar32(regs(S0), regs(base), offset);
  }

  lemma PlusOne(x: bv32)
    requires x != 0
    ensures Plus(1, x) != 1 && Plus(0, 0) == 0
  {
  }

  lemma FarSumChanges(index: Reg, scale: bv32, offset: bv32) returns (regs: Registers)
    requires scale < 32
    ensures FarSum(regs, index, scale, offset) != regs(S0)
  {
    var sum := Plus(offset, ShiftLeft(if index == S0 then offset else 0, scale));
    regs := r => if r == S0 then sum ^ 1 else 0;
    assert FarSum(regs, index, scale, offset) == sum;
  }

  /** Offset, plus index, in S0. */
  lemma SumInS0(regs: Registers, move: seq<Emitted>, index: Reg, scale: bv32, offset: bv32)
    requires scale < 32 && Leaves(regs, move, S0, offset)
    ensures Leaves(regs, move + [Insn(DataProcessing(ADD, S0, S0, Lsl(index, scale)))], S0, FarSum(regs, index, scale, offset))
  {
    var add, moved := [Insn(DataProcessing(ADD, S0, S0, Lsl(index, scale)))], ExecuteAll(regs, move);
    assert moved(index) == After(regs, offset, index);
    RunsAddShifted(moved, S0, S0, index, scale);
    LeavesThen(regs, move, add, S0, offset, Plus(moved(S0), ShiftLeft(moved(index), scale)));
  }

  /** The offset moved into S0, and an index added to it. */
  method SumOffsetAndIndex(isArmv7: bool, index: Reg, scale: bv32, offset: bv32, ghost regs: Registers)
    returns (es: seq<Emitted>)
    requires scale < 32
    ensures Leaves(regs, es, S0, FarSum(regs, index, scale, offset)) && Suits(isArmv7, es)
  {
    var move := MoveImm(isArmv7, offset, S0, regs);
    SumInS0(regs, move, index, scale, offset);
    AddSuits(isArmv7, S0, S0, index, scale);
    SuitsThen(isArmv7, move, [Insn(DataProcessing(ADD, S0, S0, Lsl(index, scale)))]);
    return move + [Insn(DataProcessing(ADD, S0, S0, Lsl(index, scale)))];
  }

  /** What an indexed transfer leaves in S0 before its last instruction. */
  function ScratchIndexed32(regs: Registers, base: Reg, index: Reg, scale: bv32, offset: bv32): (r: bv32)
    requires scale < 32
  {
    var sum := Indexed(regs, base, index, scale);
    if offset == 0 then regs(S0)
    else if Near32(offset) then Scratch32(sum, sum, offset)
    else FarSum(regs, index, scale, offset)
  }

  lemma IndexedNearChanges32(base: Reg, index: Reg, scale: bv32, offset: bv32) returns (regs: Registers)
    requires scale < 32 && !(offset == 0) && Near32(offset)
    ensures ScratchIndexed32(regs, base, index, scale, offset) != regs(S0)
  {
    ShiftedOne(scale);
    if Direct32(offset) {
      regs := r => 1;
      PlusOne(ShiftLeft(1, scale));
    } else {
      regs := r => 0;
      ScratchChanges32(offset);
    }
  }

  /** A store writes its register, whatever the registers hold, just when that is not S0 or one instruction does it. */
  lemma StoreIndexedIsRight32(rt: Reg, base: Reg, index: Reg, scale: bv32, offset: bv32)
    requires scale < 32
    ensures (forall regs: Registers ::
               (if rt == S0 then ScratchIndexed32(regs, base, index, scale, offset) else regs(rt)) == regs(rt))
       <==> rt != S0 || (offset == 0)
  {
    if rt == S0 && !(offset == 0) {
      if Near32(offset) {
        var regs := IndexedNearChanges32(base, index, scale, offset);
      } else {
        var regs := FarSumChanges(index, scale, offset);
        assert ScratchIndexed32(regs, base, index, scale, offset) != regs(S0);
      }
    }
  }

  /** The second case of `baseIndexTransfer32`: base and index summed in S0. */
  method TransferNearIndexed32(isArmv7: bool, kind: bv32, rt: Reg, base: Reg, index: Reg, scale: bv32, offset: bv32,
                               ghost regs: Registers)
    returns (es: seq<Emitted>)
    requires IsKind(Plain, kind) && scale < 32 && Near32(offset)
    ensures var sum := Indexed(regs, base, index, scale);
            Transfers(regs, es, Plain, kind, rt, {S0}, Plus(sum, offset)) && LeavesInS0(regs, es, Scratch32(sum, sum, offset))
    ensures Suits(isArmv7, es)
  {
    var add := [Insn(DataProcessing(ADD, S0, base, Lsl(index, scale)))];
    ghost var sum := Indexed(regs, base, index, scale);
    RunsAddShifted(regs, S0, base, index, scale);
    var rest := DataTransfer32(isArmv7, kind, rt, S0, offset, ExecuteAll(regs, add));
    TransfersWithPrefix(regs, add, S0, sum, rest, Plain, kind, rt, {S0}, Plus(sum, offset));
    assert {S0} + {S0} == {S0};
    AddSuits(isArmv7, S0, base, index, scale);
    SuitsThen(isArmv7, add, rest);
    return add + rest;
  }

  /** The last case of `baseIndexTransfer32`: offset and index summed in S0. */
  method TransferFarIndexed32(isArmv7: bool, kind: bv32, rt: Reg, base: Reg, index: Reg, scale: bv32, offset: bv32,
                              ghost regs: Registers)
    returns (es: seq<Emitted>)
    requires IsKind(Plain, kind) && scale < 32
    ensures Transfers(regs, es, Plain, kind, rt, {S0}, FarIndexed(regs, base, index, scale, offset))
    ensures LeavesInS0(regs, es, FarSum(regs, index, scale, offset))
    ensures Suits(isArmv7, es)
  {
    var pre := SumOffsetAndIndex(isArmv7, index, scale, offset, regs);
    var w := TransferWord(kind, rt, base, RegisterOffset(S0, 0));
    Through32(regs, pre, FarSum(regs, index, scale, offset), kind, rt, base, w);
    EndSuits(isArmv7, pre, Plain, kind, w);
    return pre + [Insn(w)];
  }

  /** `baseIndexTransfer32` accesses base plus scaled index plus offset; out of reach as `FarIndexedIsRight` says. */
  method BaseIndexTransfer32(isArmv7: bool, kind: bv32, rt: Reg, base: Reg, index: Reg, scale: bv32, offset: bv32,
                             ghost regs: Registers)
    returns (es: seq<Emitted>)
    requires IsKind(Plain, kind) && base != PC && index != PC && scale <= 3
    ensures Transfers(regs, es, Plain, kind, rt, {S0},
                      if Near32(offset) then Plus(Indexed(regs, base, index, scale), offset)
                      else FarIndexed(regs, base, index, scale, offset))
    ensures LeavesInS0(regs, es, ScratchIndexed32(regs, base, index, scale, offset))
    ensures Suits(isArmv7, es)
  {
    if offset == 0 {
      var w := TransferWord(kind, rt, base, RegisterOffset(index, scale));
      PlainRegister(regs, kind, rt, base, index, scale);
      PlusZero(Indexed(regs, base, index, scale));
      TransfersDirectly(regs, Plain, kind, rt, w, Indexed(regs, base, index, scale));
      OneSuits(Plain, kind, w);
      return [Insn(w)];
    }
    if offset <= 0xf_ffff || 0 - offset <= 0xf_ffff {
      es := TransferNearIndexed32(isArmv7, kind, rt, base, index, scale, offset, regs);
      return;
    }
    es := TransferFarIndexed32(isArmv7, kind, rt, base, index, scale, offset, regs);
  }

  // ----- halfwords and signed bytes -----

  /** Within reach of one addition and one transfer. */
  predicate Near16(offset: bv32) {
    (offset <= 0xffff || 0 - offset <= 0xffff)
  }

  /** Within reach of one transfer. */
  predicate Direct16(offset: bv32) {
    offset <= 0xff || 0 - offset <= 0xff
  }

  /** What a transfer leaves in S0 before its last instruction, from what was there and the base. */
  function Scratch16(s0: bv32, base: bv32, offset: bv32): (r: bv32) {
    if Direct16(offset) then s0
    else if offset <= 0xffff then Plus(base, (offset >> 8) << 8)
    else if 0 - offset <= 0xffff then Minus(base, ((0 - offset) >> 8) << 8)
    else offset
  }

  lemma ScratchUp16(s0: bv32, base: bv32, offset: bv32)
    requires offset <= 0xffff
    ensures Near16(offset) && Scratch16(s0, base, offset) == if offset <= 0xff then s0 else Plus(base, (offset >> 8) << 8)
  {
  }

  lemma ScratchDown16(s0: bv32, base: bv32, offset: bv32, down: bv32)
    requires down == 0 - offset && !(offset <= 0xffff) && down <= 0xffff
    ensures Near16(offset) && Scratch16(s0, base, offset) == if down <= 0xff then s0 else Minus(base, (down >> 8) << 8)
  {
  }

  lemma ScratchFar16(s0: bv32, base: bv32, offset: bv32)
    requires !Near16(offset)
    ensures Scratch16(s0, base, offset) == offset
  {
  }

  lemma ScratchChanges16(offset: bv32)
    requires !Direct16(offset)
    ensures Scratch16(0, 0, offset) != 0
  {
  }

  /** A store writes its register, whatever the registers hold, just when that is not S0 or one instruction does it. */
  lemma StoreIsRight16(rt: Reg, base: Reg, offset: bv32)
    ensures (forall regs: Registers :: (if rt == S0 then Scratch16(regs(S0), regs(base), offset) else regs(rt)) == regs(rt))
       <==> rt != S0 || Direct16(offset)
  {
    if rt == S0 && !Direct16(offset) {
      var zeros: Registers := r => 0;
      ScratchChanges16(offset);
      assert Scratch16(zeros(S0), zeros(base), offset) != zeros(S0);
    }
  }

  lemma HighPart16(offset: bv32)
    requires offset <= 0xffff
    ensures Encodes(OP2_IMMEDIATE | (offset >> 8) | (12 << 8), (offset >> 8) << 8)
  {
  }

  lemma LowPart16(offset: bv32)
    ensures offset & 0xff <= 0xff
  {
  }

  lemma Parts16(offset: bv32)
    ensures ((offset >> 8) << 8) + (offset & 0xff) == offset
  {
  }

  lemma Split16(base: bv32, offset: bv32)
    ensures Plus(Plus(base, (offset >> 8) << 8), offset & 0xff) == Plus(base, offset)
    ensures Minus(Minus(base, (offset >> 8) << 8), offset & 0xff) == Minus(base, offset)
  {
    Parts16(offset);
    PlusParts(base, (offset >> 8) << 8, offset & 0xff, offset);
  }

  method TransferUp16(kind: bv32, rt: Reg, base: Reg, offset: bv32, ghost regs: Registers) returns (es: seq<Emitted>)
    requires IsKind(Half, kind) && offset <= 0xffff
    ensures Transfers(regs, es, Half, kind, rt, {S0}, Plus(regs(base), offset))
    ensures LeavesInS0(regs, es, if offset <= 0xff then regs(S0) else Plus(regs(base), (offset >> 8) << 8))
    ensures SuitsBoth(es)
  {
    LowPart16(offset);
    if offset <= 0xff {
      var w := TransferWord(kind, rt, base, Upwards(HalfOperand(offset)));
      HalfUp(regs, kind, rt, base, offset);
      TransfersDirectly(regs, Half, kind, rt, w, Plus(regs(base), offset));
      OneSuits(Half, kind, w);
      return [Insn(w)];
    }
    var op2 := OP2_IMMEDIATE | (offset >> 8) | (12 << 8);
    var add, w := [Insn(DataProcessing(ADD, S0, base, op2))], TransferWord(kind, rt, S0, Upwards(HalfOperand(offset & 0xff)));
    HighPart16(offset);
    HalfUp(ExecuteAll(regs, add), kind, rt, S0, offset & 0xff);
    Split16(regs(base), offset);
    TransfersOffSum(regs, Half, kind, rt, base, op2, (offset >> 8) << 8, offset & 0xff, w, Plus(regs(base), offset));
    TwoSuit(ADD, base, op2, Half, kind, w);
    return add + [Insn(w)];
  }

  method TransferDown16(kind: bv32, rt: Reg, base: Reg, down: bv32, ghost regs: Registers) returns (es: seq<Emitted>)
    requires IsKind(Half, kind) && down <= 0xffff
    ensures Transfers(regs, es, Half, kind, rt, {S0}, Minus(regs(base), down))
    ensures LeavesInS0(regs, es, if down <= 0xff then regs(S0) else Minus(regs(base), (down >> 8) << 8))
    ensures SuitsBoth(es)
  {
    LowPart16(down);
    if down <= 0xff {
      var w := TransferWord(kind, rt, base, HalfOperand(down));
      HalfDown(regs, kind, rt, base, down);
      TransfersDirectly(regs, Half, kind, rt, w, Minus(regs(base), down));
      OneSuits(Half, kind, w);
      return [Insn(w)];
    }
    var op2 := OP2_IMMEDIATE | (down >> 8) | (12 << 8);
    var sub, w := [Insn(DataProcessing(SUB, S0, base, op2))], TransferWord(kind, rt, S0, HalfOperand(down & 0xff));
    HighPart16(down);
    HalfDown(ExecuteAll(regs, sub), kind, rt, S0, down & 0xff);
    Split16(regs(base), down);
    TransfersOffDifference(regs, Half, kind, rt, base, op2, (down >> 8) << 8, down & 0xff, w, Minus(regs(base), down));
    TwoSuit(SUB, base, op2, Half, kind, w);
    return sub + [Insn(w)];
  }

  /** A transfer at the base plus what was put into S0. */
  lemma Through16(regs: Registers, pre: seq<Emitted>, sum: bv32, kind: bv32, rt: Reg, base: Reg, w: bv32)
    requires IsKind(Half, kind) && Leaves(regs, pre, S0, sum) && w == TransferWord(kind, rt, base, Upwards(S0))
    ensures IsTransfer(Half, kind, w) && LeavesInS0(regs, pre + [Insn(w)], sum)
    ensures Transfers(regs, pre + [Insn(w)], Half, kind, rt, {S0}, Plus(After(regs, sum, base), sum))
  {
    HalfRegister(ExecuteAll(regs, pre), kind, rt, base, S0);
    TransfersAfter(regs, pre, sum, Half, kind, rt, w, Plus(After(regs, sum, base), sum));
  }

  /** The last case of `dataTransfer16`: the offset in S0. */
  method TransferFar16(isArmv7: bool, kind: bv32, rt: Reg, base: Reg, offset: bv32, ghost regs: Registers)
    returns (es: seq<Emitted>)
    requires IsKind(Half, kind)
    ensures Transfers(regs, es, Half, kind, rt, {S0}, FarAddress(regs, base, offset)) && LeavesInS0(regs, es, offset)
    ensures Suits(isArmv7, es)
  {
    var move := MoveImm(isArmv7, offset, S0, regs);
    var w := TransferWord(kind, rt, base, Upwards(S0));
    Through16(regs, move, offset, kind, rt, base, w);
    EndSuits(isArmv7, move, Half, kind, w);
    return move + [Insn(w)];
  }

  /**
    `dataTransfer16` accesses base plus offset. Out of reach, the offset goes through S0; `FarAddressIsRight` says when
    that is still base plus offset.
   */
  method DataTransfer16(isArmv7: bool, kind: bv32, rt: Reg, base: Reg, offset: bv32, ghost regs: Registers)
    returns (es: seq<Emitted>)
    requires IsKind(Half, kind) && base != PC
    ensures Transfers(regs, es, Half, kind, rt, {S0},
                      if Near16(offset) then Plus(regs(base), offset) else FarAddress(regs, base, offset))
    ensures LeavesInS0(regs, es, Scratch16(regs(S0), regs(base), offset))
    ensures Suits(isArmv7, es)
  {
    if offset <= 0xffff {
      es := TransferUp16(kind, rt, base, offset, regs);
      ScratchUp16(regs(S0), regs(base), offset);
      return;
    }
    if 0 - offset <= 0xffff {
      es := TransferDown16(kind, rt, base, 0 - offset, regs);
      UpAndDown(regs(base), offset);
      ScratchDown16(regs(S0), regs(base), offset, 0 - offset);
      return;
    }
    es := TransferFar16(isArmv7, kind, rt, base, offset, regs);
    ScratchFar16(regs(S0), regs(base), offset);
  }

  /** What an indexed transfer leaves in S0 before its last instruction. */
  function ScratchIndexed16(regs: Registers, base: Reg, index: Reg, scale: bv32, offset: bv32): (r: bv32)
    requires scale < 32
  {
    var sum := Indexed(regs, base, index, scale);
    if scale == 0 && offset == 0 then regs(S0)
    else if Near16(offset) then Scratch16(sum, sum, offset)
    else FarSum(regs, index, scale, offset)
  }

  lemma IndexedNearChanges16(base: Reg, index: Reg, scale: bv32, offset: bv32) returns (regs: Registers)
    requires scale < 32 && !(scale == 0 && offset == 0) && Near16(offset)
    ensures ScratchIndexed16(regs, base, index, scale, offset) != regs(S0)
  {
    ShiftedOne(scale);
    if Direct16(offset) {
      regs := r => 1;
      PlusOne(ShiftLeft(1, scale));
    } else {
      regs := r => 0;
      ScratchChanges16(offset);
    }
  }

  /** A store writes its register, whatever the registers hold, just when that is not S0 or one instruction does it. */
  lemma StoreIndexedIsRight16(rt: Reg, base: Reg, index: Reg, scale: bv32, offset: bv32)
    requires scale < 32
    ensures (forall regs: Registers ::
               (if rt == S0 then ScratchIndexed16(regs, base, index, scale, offset) else regs(rt)) == regs(rt))
       <==> rt != S0 || (scale == 0 && offset == 0)
  {
    if rt == S0 && !(scale == 0 && offset == 0) {
      if Near16(offset) {
        var regs := IndexedNearChanges16(base, index, scale, offset);
      } else {
        var regs := FarSumChanges(index, scale, offset);
        assert ScratchIndexed16(regs, base, index, scale, offset) != regs(S0);
      }
    }
  }

  /** The second case of `baseIndexTransfer16`: base and index summed in S0. */
  method TransferNearIndexed16(isArmv7: bool, kind: bv32, rt: Reg, base: Reg, index: Reg, scale: bv32, offset: bv32,
                               ghost regs: Registers)
    returns (es: seq<Emitted>)
    requires IsKind(Half, kind) && scale < 32 && Near16(offset)
    ensures var sum := Indexed(regs, base, index, scale);
            Transfers(regs, es, Half, kind, rt, {S0}, Plus(sum, offset)) && LeavesInS0(regs, es, Scratch16(sum, sum, offset))
    ensures Suits(isArmv7, es)
  {
    var add := [Insn(DataProcessing(ADD, S0, base, Lsl(index, scale)))];
    ghost var sum := Indexed(regs, base, index, scale);
    RunsAddShifted(regs, S0, base, index, scale);
    var rest := DataTransfer16(isArmv7, kind, rt, S0, offset, ExecuteAll(regs, add));
    TransfersWithPrefix(regs, add, S0, sum, rest, Half, kind, rt, {S0}, Plus(sum, offset));
    assert {S0} + {S0} == {S0};
    AddSuits(isArmv7, S0, base, index, scale);
    SuitsThen(isArmv7, add, rest);
    return add + rest;
  }

  /** The last case of `baseIndexTransfer16`: offset and index summed in S0. */
  method TransferFarIndexed16(isArmv7: bool, kind: bv32, rt: Reg, base: Reg, index: Reg, scale: bv32, offset: bv32,
                              ghost regs: Registers)
    returns (es: seq<Emitted>)
    requires IsKind(Half, kind) && scale < 32
    ensures Transfers(regs, es, Half, kind, rt, {S0}, FarIndexed(regs, base, index, scale, offset))
    ensures LeavesInS0(regs, es, FarSum(regs, index, scale, offset))
    ensures Suits(isArmv7, es)
  {
    var pre := SumOffsetAndIndex(isArmv7, index, scale, offset, regs);
    var w := TransferWord(kind, rt, base, Upwards(S0));
    Through16(regs, pre, FarSum(regs, index, scale, offset), kind, rt, base, w);
    EndSuits(isArmv7, pre, Half, kind, w);
    return pre + [Insn(w)];
  }

  /** `baseIndexTransfer16` accesses base plus scaled index plus offset; out of reach as `FarIndexedIsRight` says. */
  method BaseIndexTransfer16(isArmv7: bool, kind: bv32, rt: Reg, base: Reg, index: Reg, scale: bv32, offset: bv32,
                             ghost regs: Registers)
    returns (es: seq<Emitted>)
    requires IsKind(Half, kind) && base != PC && index != PC && scale < 32
    ensures Transfers(regs, es, Half, kind, rt, {S0},
                      if Near16(offset) then Plus(Indexed(regs, base, index, scale), offset)
                      else FarIndexed(regs, base, index, scale, offset))
    ensures LeavesInS0(regs, es, ScratchIndexed16(regs, base, index, scale, offset))
    ensures Suits(isArmv7, es)
  {
    if scale == 0 && offset == 0 {
      var w := TransferWord(kind, rt, base, Upwards(index));
      HalfRegister(regs, kind, rt, base, index);
      ShiftByZero(regs(index));
      PlusZero(Indexed(regs, base, index, scale));
      TransfersDirectly(regs, Half, kind, rt, w, Indexed(regs, base, index, scale));
      OneSuits(Half, kind, w);
      return [Insn(w)];
    }
    if offset <= 0xffff || 0 - offset <= 0xffff {
      es := TransferNearIndexed16(isArmv7, kind, rt, base, index, scale, offset, regs);
      return;
    }
    es := TransferFarIndexed16(isArmv7, kind, rt, base, index, scale, offset, regs);
  }

  // ----- floating point -----

  /** Within reach of one addition and one transfer. */
  predicate NearFloat(offset: bv32) {
    offset & 3 == 0 && (offset <= 0x3_ffff || 0 - offset <= 0x3_ffff)
  }

  /** What a transfer within reach leaves in S0 before its last instruction: what was there, if it is the only one. */
  function ScratchFloat(s0: bv32, base: bv32, offset: bv32): (r: bv32) {
    if offset <= 0x3ff || 0 - offset <= 0x3ff then s0
    else if offset <= 0x3_ffff then Plus(base, (offset >> 10) << 10)
    else Minus(base, ((0 - offset) >> 10) << 10)
  }

  lemma ScratchUpFloat(s0: bv32, base: bv32, offset: bv32)
    requires offset <= 0x3_ffff && offset & 3 == 0
    ensures NearFloat(offset) && ScratchFloat(s0, base, offset) == if offset <= 0x3ff then s0 else Plus(base, (offset >> 10) << 10)
  {
  }

  lemma ScratchDownFloat(s0: bv32, base: bv32, offset: bv32, down: bv32)
    requires down == 0 - offset && !(offset <= 0x3_ffff) && down <= 0x3_ffff && offset & 3 == 0
    ensures NearFloat(offset) && ScratchFloat(s0, base, offset) == if down <= 0x3ff then s0 else Minus(base, (down >> 10) << 10)
  {
  }

  lemma HighPartFloat(offset: bv32)
    requires offset <= 0x3_ffff
    ensures Encodes(OP2_IMMEDIATE | (offset >> 10) | (11 << 8), (offset >> 10) << 10)
  {
  }

  lemma LowPartFloat(offset: bv32)
    ensures (offset >> 2) & 0xff <= 0xff
    ensures offset & 3 == 0 && offset <= 0x3ff ==> offset >> 2 <= 0xff && (offset >> 2) << 2 == offset
  {
  }

  lemma PartsFloat(offset: bv32)
    requires offset & 3 == 0
    ensures ((offset >> 10) << 10) + (((offset >> 2) & 0xff) << 2) == offset
  {
  }

  lemma SplitFloat(base: bv32, offset: bv32)
    requires offset & 3 == 0
    ensures Plus(Plus(base, (offset >> 10) << 10), ((offset >> 2) & 0xff) << 2) == Plus(base, offset)
    ensures Minus(Minus(base, (offset >> 10) << 10), ((offset >> 2) & 0xff) << 2) == Minus(base, offset)
  {
    PartsFloat(offset);
    PlusParts(base, (offset >> 10) << 10, ((offset >> 2) & 0xff) << 2, offset);
  }

  method TransferUpFloat(kind: bv32, rt: Reg, base: Reg, offset: bv32, ghost regs: Registers) returns (es: seq<Emitted>)
    requires IsKind(Float, kind) && offset <= 0x3_ffff && offset & 3 == 0
    ensures Transfers(regs, es, Float, kind, rt, {S0}, Plus(regs(base), offset))
    ensures LeavesInS0(regs, es, if offset <= 0x3ff then regs(S0) else Plus(regs(base), (offset >> 10) << 10))
    ensures SuitsBoth(es)
  {
    LowPartFloat(offset);
    if offset <= 0x3ff {
      var w := TransferWord(kind, rt, base, Upwards(offset >> 2));
      FloatUp(regs, kind, rt, base, offset >> 2);
      TransfersDirectly(regs, Float, kind, rt, w, Plus(regs(base), offset));
      OneSuits(Float, kind, w);
      return [Insn(w)];
    }
    var op2 := OP2_IMMEDIATE | (offset >> 10) | (11 << 8);
    var add, w := [Insn(DataProcessing(ADD, S0, base, op2))], TransferWord(kind, rt, S0, Upwards((offset >> 2) & 0xff));
    HighPartFloat(offset);
    FloatUp(ExecuteAll(regs, add), kind, rt, S0, (offset >> 2) & 0xff);
    SplitFloat(regs(base), offset);
    TransfersOffSum(regs, Float, kind, rt, base, op2, (offset >> 10) << 10, ((offset >> 2) & 0xff) << 2, w, Plus(regs(base), offset));
    TwoSuit(ADD, base, op2, Float, kind, w);
    return add + [Insn(w)];
  }

  method TransferDownFloat(kind: bv32, rt: Reg, base: Reg, down: bv32, ghost regs: Registers) returns (es: seq<Emitted>)
    requires IsKind(Float, kind) && down <= 0x3_ffff && down & 3 == 0
    ensures Transfers(regs, es, Float, kind, rt, {S0}, Minus(regs(base), down))
    ensures LeavesInS0(regs, es, if down <= 0x3ff then regs(S0) else Minus(regs(base), (down >> 10) << 10))
    ensures SuitsBoth(es)
  {
    LowPartFloat(down);
    if down <= 0x3ff {
      var w := TransferWord(kind, rt, base, (down >> 2));
      FloatDown(regs, kind, rt, base, down >> 2);
      TransfersDirectly(regs, Float, kind, rt, w, Minus(regs(base), down));
      OneSuits(Float, kind, w);
      return [Insn(w)];
    }
    var op2 := OP2_IMMEDIATE | (down >> 10) | (11 << 8);
    var sub, w := [Insn(DataProcessing(SUB, S0, base, op2))], TransferWord(kind, rt, S0, ((down >> 2) & 0xff));
    HighPartFloat(down);
    FloatDown(ExecuteAll(regs, sub), kind, rt, S0, (down >> 2) & 0xff);
    SplitFloat(regs(base), down);
    TransfersOffDifference(regs, Float, kind, rt, base, op2, (down >> 10) << 10, ((down >> 2) & 0xff) << 2, w, Minus(regs(base), down));
    TwoSuit(SUB, base, op2, Float, kind, w);
    return sub + [Insn(w)];
  }

  lemma NegatedAlignment(offset: bv32)
    ensures (0 - offset) & 3 == 0 <==> offset & 3 == 0
  {
  }

  /** The last case of `dataTransferFloat`: the whole address in S0. */
  method TransferFarFloat(isArmv7: bool, kind: bv32, rt: Reg, base: Reg, offset: bv32, ghost regs: Registers)
    returns (es: seq<Emitted>)
    requires IsKind(Float, kind)
    ensures Transfers(regs, es, Float, kind, rt, {S0}, FarAddress(regs, base, offset))
    ensures LeavesInS0(regs, es, FarAddress(regs, base, offset))
    ensures Suits(isArmv7, es)
  {
    var pre := SumOffsetAndIndex(isArmv7, base, 0, offset, regs);
    var w := TransferWord(kind, rt, S0, Upwards(0));
    ghost var sum := FarSum(regs, base, 0, offset);
    ShiftByZero(After(regs, offset, base));
    PlusCommutes(offset, After(regs, offset, base));
    FloatUp(ExecuteAll(regs, pre), kind, rt, S0, 0);
    PlusNothing(sum);
    TransfersAfter(regs, pre, sum, Float, kind, rt, w, FarAddress(regs, base, offset));
    EndSuits(isArmv7, pre, Float, kind, w);
    return pre + [Insn(w)];
  }

  lemma PlusNothing(x: bv32)
    ensures Plus(x, 0 << 2) == x
  {
  }

  /** `dataTransferFloat`: as `DataTransfer32`, but an offset that is not a multiple of four is never within reach. */
  method DataTransferFloat(isArmv7: bool, kind: bv32, rt: Reg, base: Reg, offset: bv32, ghost regs: Registers)
    returns (es: seq<Emitted>)
    requires IsKind(Float, kind) && base != PC
    ensures Transfers(regs, es, Float, kind, rt, {S0},
                      if NearFloat(offset) then Plus(regs(base), offset) else FarAddress(regs, base, offset))
    ensures LeavesInS0(regs, es,
                       if NearFloat(offset) then ScratchFloat(regs(S0), regs(base), offset) else FarAddress(regs, base, offset))
    ensures Suits(isArmv7, es)
  {
    if offset & 3 == 0 {
      if offset <= 0x3_ffff {
        es := TransferUpFloat(kind, rt, base, offset, regs);
        ScratchUpFloat(regs(S0), regs(base), offset);
        return;
      }
      if 0 - offset <= 0x3_ffff {
        NegatedAlignment(offset);
        es := TransferDownFloat(kind, rt, base, 0 - offset, regs);
        UpAndDown(regs(base), offset);
        ScratchDownFloat(regs(S0), regs(base), offset, 0 - offset);
        return;
      }
    }
    es := TransferFarFloat(isArmv7, kind, rt, base, offset, regs);
  }

  /** `baseIndexTransferFloat` goes through S1, so it is base plus scaled index plus offset at any distance. */
  method BaseIndexTransferFloat(isArmv7: bool, kind: bv32, rt: Reg, base: Reg, index: Reg, scale: bv32, offset: bv32,
                                ghost regs: Registers)
    returns (es: seq<Emitted>)
    requires IsKind(Float, kind) && base != PC && index != PC && scale < 32
    ensures Transfers(regs, es, Float, kind, rt, {S0, S1}, Plus(Indexed(regs, base, index, scale), offset))
    ensures var sum := Indexed(regs, base, index, scale);
            LeavesInS0(regs, es, if NearFloat(offset) then ScratchFloat(regs(S0), sum, offset) else Plus(sum, offset))
    ensures Suits(isArmv7, es)
  {
    var add := [Insn(DataProcessing(ADD, S1, base, Lsl(index, scale)))];
    ghost var sum := Indexed(regs, base, index, scale);
    RunsAddShifted(regs, S1, base, index, scale);
    var rest := DataTransferFloat(isArmv7, kind, rt, S1, offset, ExecuteAll(regs, add));
    TransfersWithPrefix(regs, add, S1, sum, rest, Float, kind, rt, {S0}, Plus(sum, offset));
    assert {S0} + {S1} == {S0, S1};
    AddSuits(isArmv7, S1, base, index, scale);
    SuitsThen(isArmv7, add, rest);
    return add + rest;
  }
}
