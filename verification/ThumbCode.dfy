/**
  What the Thumb-2 instructions of jumps do, decoded from their halfwords: branches in their four encodings, if-then
  blocks, moves of halves, branches to a register, and no-ops (chapters A6 and A8 of ARM DDI 0406C).
 */
module ThumbCode {
  /** The truth of each pair of opposite conditions, and the registers. */
  datatype Machine = Machine(flags: bv32 -> bool, regs: bv32 -> bv32)

  predicate Holds(cond: bv32, m: Machine) {
    cond >= 14 || m.flags(cond >> 1) != (cond & 1 == 1)
  }

  function SetReg(m: Machine, rd: bv32, value: bv32): (r: Machine) {
    m.(regs := x => if x == rd then value else m.regs(x))
  }

  function Plus(x: bv32, y: bv32): (r: bv32) { x + y }
  function Minus(x: bv32, y: bv32): (r: bv32) { x - y }

  function Wide(h: bv16): (r: bv32) { h as bv32 }

  /** The low halfword of a number. */
  function Narrow(x: bv32): (r: bv16) { (x & 0xffff) as bv16 }

  /** A field with its sign bit copied upwards; `above` are the bits above the field. */
  function SignExtend(field: bv32, sign: bv32, above: bv32): (r: bv32) {
    if field & sign != 0 then field | above else field
  }

  // ----- immediates -----

  function OffsetT1(h: bv32): (r: bv32) {
    SignExtend((h & 0xff) << 1, 0x100, 0xffff_fe00)
  }

  function OffsetT2(h: bv32): (r: bv32) {
    SignExtend((h & 0x7ff) << 1, 0x800, 0xffff_f000)
  }

  /** S:J2:J1:imm6:imm11:0 */
  function FieldT3(a: bv32, b: bv32): (r: bv32) {
    ((a & 0x400) << 10) | ((b & 0x800) << 8) | ((b & 0x2000) << 5) | ((a & 0x3f) << 12) | ((b & 0x7ff) << 1)
  }

  function OffsetT3(a: bv32, b: bv32): (r: bv32) {
    SignExtend(FieldT3(a, b), 0x10_0000, 0xffe0_0000)
  }

  /** A bit below the sign: set when its bit of J equals the sign. */
  function BitOfI(j: bv32, s: bv32, bit: bv32): (r: bv32) {
    if (j != 0) == (s != 0) then bit else 0
  }

  function JoinT4(s: bv32, i1: bv32, i2: bv32, imm10: bv32, imm11: bv32): (r: bv32) {
    s | i1 | i2 | (imm10 << 12) | (imm11 << 1)
  }

  /** S:I1:I2:imm10:imm11:0 */
  function FieldT4(a: bv32, b: bv32): (r: bv32) {
    var s := a & 0x400;
    JoinT4(s << 14, BitOfI(b & 0x2000, s, 0x80_0000), BitOfI(b & 0x800, s, 0x40_0000), a & 0x3ff, b & 0x7ff)
  }

  function OffsetT4(a: bv32, b: bv32): (r: bv32) {
    SignExtend(FieldT4(a, b), 0x100_0000, 0xfe00_0000)
  }

  /** imm4:i:imm3:imm8 */
  function Imm16(a: bv32, b: bv32): (r: bv32) {
    ((a & 0xf) << 12) | ((a & 0x400) << 1) | ((b & 0x7000) >> 4) | (b & 0xff)
  }

  // ----- instructions -----

  datatype Insn =
    | IfThen(conds: seq<bv32>)
    | BranchIf(cond: bv32, offset: bv32)
    | Branch(offset: bv32)
    | Move(rd: bv32, imm16: bv32)
    | MoveTop(rd: bv32, imm16: bv32)
    | BranchTo(rm: bv32)
    | Nop
    | Other

  /** The conditions of the instructions of an if-then block. */
  function Conditions(first: bv32, mask: bv32): (conds: seq<bv32>) {
    var pair := first & 0xe;
    var second, third, fourth := pair | ((mask >> 3) & 1), pair | ((mask >> 2) & 1), pair | ((mask >> 1) & 1);
    if mask & 0x7 == 0 then [first]
    else if mask & 0x3 == 0 then [first, second]
    else if mask & 0x1 == 0 then [first, second, third]
    else [first, second, third, fourth]
  }

  predicate IsWide(h: bv32) {
    h & 0xf800 == 0xe800 || h & 0xf800 == 0xf000 || h & 0xf800 == 0xf800
  }

  function DecodeNarrow(h: bv32): (i: Insn) {
    if h == 0xbf00 then Nop
    else if h & 0xff00 == 0xbf00 && h & 0xf != 0 then IfThen(Conditions((h >> 4) & 0xf, h & 0xf))
    else if h & 0xf000 == 0xd000 && h & 0xe00 != 0xe00 then BranchIf((h >> 8) & 0xf, OffsetT1(h))
    else if h & 0xf800 == 0xe000 then Branch(OffsetT2(h))
    else if h & 0xff87 == 0x4700 then BranchTo((h >> 3) & 0xf)
    else Other
  }

  function DecodeWide(a: bv32, b: bv32): (i: Insn) {
    if a == 0xf3af && b == 0x8000 then Nop
    else if a & 0xfbf0 == 0xf240 && b & 0x8000 == 0 then Move((b >> 8) & 0xf, Imm16(a, b))
    else if a & 0xfbf0 == 0xf2c0 && b & 0x8000 == 0 then MoveTop((b >> 8) & 0xf, Imm16(a, b))
    else if a & 0xf800 == 0xf000 && b & 0xd000 == 0x8000 && a & 0x380 != 0x380 then BranchIf((a >> 6) & 0xf, OffsetT3(a, b))
    else if a & 0xf800 == 0xf000 && b & 0xd000 == 0x9000 then Branch(OffsetT4(a, b))
    else Other
  }

  // ----- execution -----

  /** Where one instruction at `at` goes when it branches. */
  function Target(i: Insn, at: bv32, it: seq<bv32>, m: Machine): (r: (bool, bv32)) {
    var runs := it == [] || Holds(it[0], m);
    match i
    case BranchIf(cond, offset) => (Holds(cond, m), Plus(Plus(at, 4), offset))
    case Branch(offset) => (runs, Plus(Plus(at, 4), offset))
    case BranchTo(rm) => (runs, WithoutThumbBit(m.regs(rm)))
    case _ => (false, 0)
  }

  /** A number with its upper half replaced. */
  function WithTop(x: bv32, imm16: bv32): (r: bv32) { (x & 0xffff) | (imm16 << 16) }

  /** A branch to a register drops the bit that selects the instruction set. */
  function WithoutThumbBit(x: bv32): (r: bv32) { x & 0xffff_fffe }

  /** The machine after an instruction that does not branch. */
  function After(i: Insn, it: seq<bv32>, m: Machine): (r: Machine) {
    var runs := it == [] || Holds(it[0], m);
    match i
    case Move(rd, imm16) => if runs then SetReg(m, rd, imm16) else m
    case MoveTop(rd, imm16) => if runs then SetReg(m, rd, WithTop(m.regs(rd), imm16)) else m
    case _ => m
  }

  /** The if-then conditions left after an instruction. */
  function Pending(i: Insn, it: seq<bv32>): (r: seq<bv32>) {
    if i.IfThen? then i.conds else if it == [] then [] else it[1..]
  }

  /** Where execution goes that enters `code` at its start, at address `at`: to a branch target, or past the end. */
  function Run(code: seq<bv16>, at: bv32, it: seq<bv32>, m: Machine): (r: bv32) {
    if code == [] || (IsWide(Wide(code[0])) && |code| < 2) then at
    else
      var wide := IsWide(Wide(code[0]));
      var i := if wide then DecodeWide(Wide(code[0]), Wide(code[1])) else DecodeNarrow(Wide(code[0]));
      var size := if wide then 2 else 1;
      var (taken, target) := Target(i, at, it, m);
      if taken then target
      else Run(code[size..], Plus(at, if wide then 4 else 2), Pending(i, it), After(i, it, m))
  }
}
