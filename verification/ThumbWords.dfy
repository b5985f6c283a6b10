/**
  The halfwords the Thumb-2 assembler links jumps with, and that they decode to what they are meant to be.
 */
module ThumbWords {
  import opened ThumbCode

  const IP: bv32 := 12

  // ----- ranges -----

  /** All bits of `high` are equal to the sign bit. */
  predicate Fits(x: bv32, high: bv32) {
    x & high == 0 || x & high == high
  }

  // ----- words -----

  function WordT1(cond: bv32, relative: bv32): (h: bv16) {
    Narrow(0xd000 | ((cond & 0xf) << 8) | ((relative & 0x1fe) >> 1))
  }

  function WordT2(relative: bv32): (h: bv16) {
    Narrow(0xe000 | ((relative & 0xffe) >> 1))
  }

  function FirstT3(cond: bv32, relative: bv32): (h: bv16) {
    Narrow(0xf000 | ((relative & 0x10_0000) >> 10) | ((cond & 0xf) << 6) | ((relative & 0x3_f000) >> 12))
  }

  function SecondT3(relative: bv32): (h: bv16) {
    Narrow(0x8000 | ((relative & 0x8_0000) >> 8) | ((relative & 0x4_0000) >> 5) | ((relative & 0xffe) >> 1))
  }

  /** The top two bits below the sign are encoded as they differ from it. */
  function Peculiar(relative: bv32): (r: bv32) {
    if relative < 0x8000_0000 then relative ^ 0xc0_0000 else relative
  }

  function FirstT4(r: bv32): (h: bv16) {
    Narrow(0xf000 | ((r & 0x100_0000) >> 14) | ((r & 0x3f_f000) >> 12))
  }

  function SecondT4(r: bv32): (h: bv16) {
    Narrow(0x9000 | ((r & 0x80_0000) >> 10) | ((r & 0x40_0000) >> 11) | ((r & 0xffe) >> 1))
  }

  lemma Round(x: bv32)
    requires x <= 0xffff
    ensures Wide(Narrow(x)) == x
  {
  }

  lemma ExtendT1(relative: bv32, h: bv32)
    requires Fits(relative, 0xffff_ff00) && relative & 1 == 0 && h & 0xff == (relative & 0x1fe) >> 1
    ensures OffsetT1(h) == relative
  {
    if relative & 0xffff_ff00 == 0 {
      assert ((h & 0xff) << 1) == relative && ((h & 0xff) << 1) & 0x100 == 0;
    } else {
      assert ((h & 0xff) << 1) & 0x100 == 0x100;
    }
  }

  lemma FieldsT1(cond: bv32, relative: bv32, h: bv32)
    requires cond < 14 && h == 0xd000 | ((cond & 0xf) << 8) | ((relative & 0x1fe) >> 1)
    ensures h <= 0xffff && h & 0xff == (relative & 0x1fe) >> 1 && (h >> 8) & 0xf == cond
    ensures h & 0xf800 != 0xe800 && h & 0xf800 != 0xf000 && h & 0xf800 != 0xf800
    ensures h != 0xbf00 && h & 0xff00 != 0xbf00 && h & 0xf000 == 0xd000 && h & 0xe00 != 0xe00
  {
  }

  lemma DecodesT1(cond: bv32, relative: bv32)
    requires cond < 14 && Fits(relative, 0xffff_ff00) && relative & 1 == 0
    ensures var h := Wide(WordT1(cond, relative)); !IsWide(h) && DecodeNarrow(h) == BranchIf(cond, relative)
  {
    var h := 0xd000 | ((cond & 0xf) << 8) | ((relative & 0x1fe) >> 1);
    FieldsT1(cond, relative, h);
    Round(h);
    ExtendT1(relative, h);
  }

  lemma FieldsT2(relative: bv32, h: bv32)
    requires h == 0xe000 | ((relative & 0xffe) >> 1)
    ensures h <= 0xffff && h & 0x7ff == (relative & 0xffe) >> 1 && h & 0xf800 == 0xe000
    ensures h != 0xbf00 && h & 0xff00 != 0xbf00 && h & 0xf000 != 0xd000
  {
  }

  lemma ExtendT2(relative: bv32, h: bv32)
    requires Fits(relative, 0xffff_f800) && relative & 1 == 0 && h & 0x7ff == (relative & 0xffe) >> 1
    ensures OffsetT2(h) == relative
  {
    if relative & 0xffff_f800 == 0 {
      assert ((h & 0x7ff) << 1) == relative && ((h & 0x7ff) << 1) & 0x800 == 0;
    } else {
      assert ((h & 0x7ff) << 1) & 0x800 == 0x800;
    }
  }

  lemma DecodesT2(relative: bv32)
    requires Fits(relative, 0xffff_f800) && relative & 1 == 0
    ensures var h := Wide(WordT2(relative)); !IsWide(h) && DecodeNarrow(h) == Branch(relative)
  {
    var h := 0xe000 | ((relative & 0xffe) >> 1);
    FieldsT2(relative, h);
    Round(h);
    ExtendT2(relative, h);
  }

  lemma FieldsT3(cond: bv32, relative: bv32, a: bv32, b: bv32)
    requires cond < 14
    requires a == 0xf000 | ((relative & 0x10_0000) >> 10) | ((cond & 0xf) << 6) | ((relative & 0x3_f000) >> 12)
    requires b == 0x8000 | ((relative & 0x8_0000) >> 8) | ((relative & 0x4_0000) >> 5) | ((relative & 0xffe) >> 1)
    ensures a <= 0xffff && b <= 0xffff && (a >> 6) & 0xf == cond && FieldT3(a, b) == relative & 0x1f_fffe
    ensures a & 0xf800 == 0xf000 && b & 0xd000 == 0x8000 && a & 0x380 != 0x380 && b & 0x8000 != 0 && a != 0xf3af
  {
  }

  lemma ForwardExtendT3(relative: bv32, field: bv32)
    requires relative & 0xfff0_0000 == 0 && relative & 1 == 0 && field == relative & 0x1f_fffe
    ensures field == relative && field & 0x10_0000 == 0
  {
  }

  lemma BackwardExtendT3(relative: bv32, field: bv32)
    requires relative & 0xfff0_0000 == 0xfff0_0000 && relative & 1 == 0 && field == relative & 0x1f_fffe
    ensures field | 0xffe0_0000 == relative && field & 0x10_0000 != 0
  {
  }

  lemma ExtendT3(relative: bv32, field: bv32)
    requires Fits(relative, 0xfff0_0000) && relative & 1 == 0 && field == relative & 0x1f_fffe
    ensures SignExtend(field, 0x10_0000, 0xffe0_0000) == relative
  {
    if relative & 0xfff0_0000 == 0 {
      ForwardExtendT3(relative, field);
    } else {
      BackwardExtendT3(relative, field);
    }
  }

  lemma DecodesT3(cond: bv32, relative: bv32)
    requires cond < 14 && Fits(relative, 0xfff0_0000) && relative & 1 == 0
    ensures var a, b := Wide(FirstT3(cond, relative)), Wide(SecondT3(relative));
            IsWide(a) && DecodeWide(a, b) == BranchIf(cond, relative)
  {
    var a := 0xf000 | ((relative & 0x10_0000) >> 10) | ((cond & 0xf) << 6) | ((relative & 0x3_f000) >> 12);
    var b := 0x8000 | ((relative & 0x8_0000) >> 8) | ((relative & 0x4_0000) >> 5) | ((relative & 0xffe) >> 1);
    FieldsT3(cond, relative, a, b);
    Round(a);
    Round(b);
    ExtendT3(relative, FieldT3(a, b));
  }

  lemma FieldsT4(r: bv32, a: bv32, b: bv32)
    requires a == 0xf000 | ((r & 0x100_0000) >> 14) | ((r & 0x3f_f000) >> 12)
    requires b == 0x9000 | ((r & 0x80_0000) >> 10) | ((r & 0x40_0000) >> 11) | ((r & 0xffe) >> 1)
    ensures a <= 0xffff && b <= 0xffff && a & 0xf800 == 0xf000 && b & 0xd000 == 0x9000 && b & 0x8000 != 0 && b != 0x8000
    ensures PartsT4(r, a, b)
  {
  }

  /** The halfwords as parts of a jump: S, J1, J2, imm10 and imm11. */
  predicate PartsT4(r: bv32, a: bv32, b: bv32) {
    && a & 0x400 == (r & 0x100_0000) >> 14 && a & 0x3ff == (r & 0x3f_f000) >> 12
    && b & 0x2000 == (r & 0x80_0000) >> 10 && b & 0x800 == (r & 0x40_0000) >> 11 && b & 0x7ff == (r & 0xffe) >> 1
  }

  lemma ForwardBits(relative: bv32, r: bv32, s: bv32, j1: bv32, j2: bv32)
    requires relative & 0xff00_0000 == 0 && r == relative ^ 0xc0_0000
    requires s == (r & 0x100_0000) >> 14 && j1 == (r & 0x80_0000) >> 10 && j2 == (r & 0x40_0000) >> 11
    ensures s == 0 && (j1 != 0 <==> relative & 0x80_0000 == 0) && (j2 != 0 <==> relative & 0x40_0000 == 0)
    ensures s << 14 == relative & 0x100_0000
  {
  }

  lemma BackwardBits(relative: bv32, s: bv32, j1: bv32, j2: bv32)
    requires relative & 0xff00_0000 == 0xff00_0000
    requires s == (relative & 0x100_0000) >> 14 && j1 == (relative & 0x80_0000) >> 10 && j2 == (relative & 0x40_0000) >> 11
    ensures s != 0 && (j1 != 0 <==> relative & 0x80_0000 != 0) && (j2 != 0 <==> relative & 0x40_0000 != 0)
    ensures s << 14 == relative & 0x100_0000
  {
  }

  lemma OneBit(relative: bv32)
    ensures relative & 0x80_0000 == 0 || relative & 0x80_0000 == 0x80_0000
    ensures relative & 0x40_0000 == 0 || relative & 0x40_0000 == 0x40_0000
  {
  }

  lemma BitsOfI(relative: bv32, r: bv32, s: bv32, j1: bv32, j2: bv32)
    requires Fits(relative, 0xff00_0000) && r == Peculiar(relative)
    requires s == (r & 0x100_0000) >> 14 && j1 == (r & 0x80_0000) >> 10 && j2 == (r & 0x40_0000) >> 11
    ensures BitOfI(j1, s, 0x80_0000) == relative & 0x80_0000 && BitOfI(j2, s, 0x40_0000) == relative & 0x40_0000
    ensures s << 14 == relative & 0x100_0000
  {
    SignOf(relative);
    OneBit(relative);
    if relative < 0x8000_0000 {
      ForwardBits(relative, r, s, j1, j2);
    } else {
      BackwardBits(relative, s, j1, j2);
    }
  }

  lemma OtherBits(relative: bv32, r: bv32, imm10: bv32, imm11: bv32)
    requires r == relative ^ 0xc0_0000 || r == relative
    requires imm10 == (r & 0x3f_f000) >> 12 && imm11 == (r & 0xffe) >> 1
    ensures imm10 == (relative & 0x3f_f000) >> 12 && imm11 == (relative & 0xffe) >> 1
  {
    if r == relative {}
  }

  lemma SplitT4(r: bv32, a: bv32, b: bv32, s: bv32, j1: bv32, j2: bv32, imm10: bv32, imm11: bv32)
    requires PartsT4(r, a, b) && s == a & 0x400 && j1 == b & 0x2000 && j2 == b & 0x800 && imm10 == a & 0x3ff && imm11 == b & 0x7ff
    ensures s == (r & 0x100_0000) >> 14 && j1 == (r & 0x80_0000) >> 10 && j2 == (r & 0x40_0000) >> 11
    ensures imm10 == (r & 0x3f_f000) >> 12 && imm11 == (r & 0xffe) >> 1
    ensures FieldT4(a, b) == JoinT4(s << 14, BitOfI(j1, s, 0x80_0000), BitOfI(j2, s, 0x40_0000), imm10, imm11)
  {
  }

  lemma JoinsPeculiar(relative: bv32, r: bv32, s: bv32, j1: bv32, j2: bv32, imm10: bv32, imm11: bv32)
    requires Fits(relative, 0xff00_0000) && r == Peculiar(relative)
    requires s == (r & 0x100_0000) >> 14 && j1 == (r & 0x80_0000) >> 10 && j2 == (r & 0x40_0000) >> 11
    requires imm10 == (r & 0x3f_f000) >> 12 && imm11 == (r & 0xffe) >> 1
    ensures JoinT4(s << 14, BitOfI(j1, s, 0x80_0000), BitOfI(j2, s, 0x40_0000), imm10, imm11) == relative & 0x1ff_fffe
  {
    BitsOfI(relative, r, s, j1, j2);
    OtherBits(relative, r, imm10, imm11);
    JoinsT4(relative, s << 14, BitOfI(j1, s, 0x80_0000), BitOfI(j2, s, 0x40_0000), imm10, imm11);
  }

  lemma JoinsT4(relative: bv32, s: bv32, i1: bv32, i2: bv32, imm10: bv32, imm11: bv32)
    requires s == relative & 0x100_0000 && i1 == relative & 0x80_0000 && i2 == relative & 0x40_0000
    requires imm10 == (relative & 0x3f_f000) >> 12 && imm11 == (relative & 0xffe) >> 1
    ensures JoinT4(s, i1, i2, imm10, imm11) == relative & 0x1ff_fffe
  {
  }

  lemma SignOf(relative: bv32)
    requires Fits(relative, 0xff00_0000)
    ensures relative & 0xff00_0000 == 0 <==> relative < 0x8000_0000
  {
  }

  lemma FieldT4Of(relative: bv32, r: bv32, a: bv32, b: bv32)
    requires Fits(relative, 0xff00_0000) && r == Peculiar(relative) && PartsT4(r, a, b)
    ensures FieldT4(a, b) == relative & 0x1ff_fffe
  {
    var s, j1, j2, imm10, imm11 := a & 0x400, b & 0x2000, b & 0x800, a & 0x3ff, b & 0x7ff;
    SplitT4(r, a, b, s, j1, j2, imm10, imm11);
    JoinsPeculiar(relative, r, s, j1, j2, imm10, imm11);
  }

  lemma ForwardExtendT4(relative: bv32, field: bv32)
    requires relative & 0xff00_0000 == 0 && relative & 1 == 0 && field == relative & 0x1ff_fffe
    ensures field == relative && field & 0x100_0000 == 0
  {
  }

  lemma BackwardExtendT4(relative: bv32, field: bv32)
    requires relative & 0xff00_0000 == 0xff00_0000 && relative & 1 == 0 && field == relative & 0x1ff_fffe
    ensures field | 0xfe00_0000 == relative && field & 0x100_0000 != 0
  {
  }

  lemma ExtendT4(relative: bv32, field: bv32)
    requires Fits(relative, 0xff00_0000) && relative & 1 == 0 && field == relative & 0x1ff_fffe
    ensures SignExtend(field, 0x100_0000, 0xfe00_0000) == relative
  {
    if relative & 0xff00_0000 == 0 {
      ForwardExtendT4(relative, field);
    } else {
      BackwardExtendT4(relative, field);
    }
  }

  lemma WordsT4(r: bv32)
    ensures var a, b := Wide(FirstT4(r)), Wide(SecondT4(r));
            PartsT4(r, a, b) && a & 0xf800 == 0xf000 && b & 0xd000 == 0x9000 && b & 0x8000 != 0 && b != 0x8000
  {
    var a := 0xf000 | ((r & 0x100_0000) >> 14) | ((r & 0x3f_f000) >> 12);
    var b := 0x9000 | ((r & 0x80_0000) >> 10) | ((r & 0x40_0000) >> 11) | ((r & 0xffe) >> 1);
    FieldsT4(r, a, b);
    Round(a);
    Round(b);
  }

  lemma DecodesT4(relative: bv32)
    requires Fits(relative, 0xff00_0000) && relative & 1 == 0
    ensures var r := Peculiar(relative);
            var a, b := Wide(FirstT4(r)), Wide(SecondT4(r));
            IsWide(a) && DecodeWide(a, b) == Branch(relative)
  {
    var r := Peculiar(relative);
    WordsT4(r);
    DecodesPartsT4(relative, r, Wide(FirstT4(r)), Wide(SecondT4(r)));
  }

  lemma DecodesPartsT4(relative: bv32, r: bv32, a: bv32, b: bv32)
    requires Fits(relative, 0xff00_0000) && relative & 1 == 0 && r == Peculiar(relative) && PartsT4(r, a, b)
    requires a & 0xf800 == 0xf000 && b & 0xd000 == 0x9000 && b & 0x8000 != 0 && b != 0x8000
    ensures DecodeWide(a, b) == Branch(relative)
  {
    FieldT4Of(relative, r, a, b);
    ExtendT4(relative, FieldT4(a, b));
  }

  // ----- moves of halves, if-then, branches to a register -----

  const MOVW: bv32 := 0xf240
  const MOVT: bv32 := 0xf2c0
  const BX_IP: bv16 := 0x4760
  const NOP_T1: bv16 := 0xbf00
  const NOP_T2A: bv16 := 0xf3af
  const NOP_T2B: bv16 := 0x8000

  /** `twoWordOp5i6Imm4Reg4EncodedImmFirst` */
  function MoveFirst(op: bv32, imm16: bv32): (h: bv16) {
    Narrow(op | ((imm16 & 0x800) >> 1) | ((imm16 & 0xf000) >> 12))
  }

  /** `twoWordOp5i6Imm4Reg4EncodedImmSecond` */
  function MoveSecond(rd: bv32, imm16: bv32): (h: bv16) {
    Narrow(((imm16 & 0x700) << 4) | (rd << 8) | (imm16 & 0xff))
  }

  lemma MoveFields(op: bv32, rd: bv32, imm16: bv32, a: bv32, b: bv32)
    requires (op == MOVW || op == MOVT) && rd < 16 && imm16 <= 0xffff
    requires a == op | ((imm16 & 0x800) >> 1) | ((imm16 & 0xf000) >> 12)
    requires b == ((imm16 & 0x700) << 4) | (rd << 8) | (imm16 & 0xff)
    ensures a <= 0xffff && b <= 0xffff && a & 0xf800 == 0xf000 && a & 0xfbf0 == op && b & 0x8000 == 0 && (b >> 8) & 0xf == rd
    ensures a != 0xf3af && Imm16(a, b) == imm16
  {
    if op == MOVW {}
  }

  lemma MoveWords(op: bv32, rd: bv32, imm16: bv32)
    requires (op == MOVW || op == MOVT) && rd < 16 && imm16 <= 0xffff
    ensures var a, b := Wide(MoveFirst(op, imm16)), Wide(MoveSecond(rd, imm16));
            && a & 0xf800 == 0xf000 && a & 0xfbf0 == op && b & 0x8000 == 0 && (b >> 8) & 0xf == rd && a != 0xf3af
            && Imm16(a, b) == imm16
  {
    var a := op | ((imm16 & 0x800) >> 1) | ((imm16 & 0xf000) >> 12);
    var b := ((imm16 & 0x700) << 4) | (rd << 8) | (imm16 & 0xff);
    MoveFields(op, rd, imm16, a, b);
    Round(a);
    Round(b);
  }

  lemma DecodesMove(rd: bv32, imm16: bv32)
    requires rd < 16 && imm16 <= 0xffff
    ensures var a, b := Wide(MoveFirst(MOVW, imm16)), Wide(MoveSecond(rd, imm16)); IsWide(a) && DecodeWide(a, b) == Move(rd, imm16)
  {
    MoveWords(MOVW, rd, imm16);
  }

  lemma DecodesMoveTop(rd: bv32, imm16: bv32)
    requires rd < 16 && imm16 <= 0xffff
    ensures var a, b := Wide(MoveFirst(MOVT, imm16)), Wide(MoveSecond(rd, imm16)); IsWide(a) && DecodeWide(a, b) == MoveTop(rd, imm16)
  {
    MoveWords(MOVT, rd, imm16);
  }

  lemma DecodesFixed()
    ensures !IsWide(Wide(BX_IP)) && DecodeNarrow(Wide(BX_IP)) == BranchTo(IP)
    ensures !IsWide(Wide(NOP_T1)) && DecodeNarrow(Wide(NOP_T1)) == Nop
    ensures IsWide(Wide(NOP_T2A)) && DecodeWide(Wide(NOP_T2A), Wide(NOP_T2B)) == Nop
  {
  }

  /** `ifThenElse` for a block of one or of three instructions, all under the condition. */
  function IfThenOne(cond: bv32): (h: bv16) {
    Narrow(0xbf00 | (cond << 4) | 8)
  }

  function IfThenThree(cond: bv32): (h: bv16) {
    Narrow(0xbf00 | (cond << 4) | ((cond & 1) << 3) | ((cond & 1) << 2) | 2)
  }

  lemma IfThenFields(cond: bv32, one: bv32, three: bv32)
    requires cond < 14 && one == 0xbf00 | (cond << 4) | 8
    requires three == 0xbf00 | (cond << 4) | ((cond & 1) << 3) | ((cond & 1) << 2) | 2
    ensures one <= 0xffff && one & 0xff00 == 0xbf00 && one & 0xf == 8 && (one >> 4) & 0xf == cond
    ensures three <= 0xffff && three & 0xff00 == 0xbf00 && (three >> 4) & 0xf == cond
    ensures var mask := three & 0xf;
            mask & 0x7 != 0 && mask & 0x3 != 0 && mask & 0x1 == 0
            && (cond & 0xe) | ((mask >> 3) & 1) == cond && (cond & 0xe) | ((mask >> 2) & 1) == cond
  {
  }

  lemma DecodesIfThen(cond: bv32)
    requires cond < 14
    ensures !IsWide(Wide(IfThenOne(cond))) && DecodeNarrow(Wide(IfThenOne(cond))) == IfThen([cond])
    ensures !IsWide(Wide(IfThenThree(cond))) && DecodeNarrow(Wide(IfThenThree(cond))) == IfThen([cond, cond, cond])
  {
    var one, three := 0xbf00 | (cond << 4) | 8, 0xbf00 | (cond << 4) | ((cond & 1) << 3) | ((cond & 1) << 2) | 2;
    IfThenFields(cond, one, three);
    Round(one);
    Round(three);
  }
}
