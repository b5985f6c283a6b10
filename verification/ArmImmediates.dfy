/**
  Immediate operands of the traditional ARM instruction set: finding the operand for a number, and splitting a number into
  two operands.
 */
module ArmImmediates {
  import opened Shared

  const OP2_IMMEDIATE: bv32 := 0x0200_0000
  const INVALID_IMMEDIATE: bv32 := 0xf000_0000

  /** `x` turned right by the rotation a four-bit field stands for: twice its value. */
  function Turn(x: bv32, field: bv32): (r: bv32) {
    RotateRight(x, (field & 0xf) << 1)
  }

  /** ARMExpandImm, section A5.2.4 of ARM DDI 0406C. */
  function ExpandImm(op2: bv32): (r: bv32) {
    Turn(op2 & 0xff, op2 >> 8)
  }

  /** A well-formed immediate operand. */
  predicate IsOperand(op2: bv32) {
    op2 & 0xffff_f000 == OP2_IMMEDIATE
  }

  /** `op2` is a well-formed immediate operand that stands for `imm`. */
  predicate Encodes(op2: bv32, imm: bv32) {
    IsOperand(op2) && ExpandImm(op2) == imm
  }

  /** The bits of a number above its lowest byte, brought to the top, and the rotation of its top byte then. */
  predicate StartsSearch(imm: bv32, rest: bv32, rol: bv32) {
    if imm & 0xff00_0000 == 0 then rest == imm << 8 && rol == 8 else rest == (imm << 24) | (imm >> 8) && rol == 0
  }

  lemma SearchContributes(imm: bv32, rest: bv32, rol: bv32)
    requires StartsSearch(imm, rest, rol)
    ensures Contributes(rest, rol, imm)
  {
    if imm & 0xff00_0000 == 0 {
      UpEight(imm);
      assert (rol + 12) & 0xf == 4;
    } else {
      RoundByEight(imm);
      assert (rol + 12) & 0xf == 12;
    }
  }

  lemma UpEight(imm: bv32)
    requires imm & 0xff00_0000 == 0
    ensures Turn(imm << 8, 4) == imm
  {
  }

  lemma RoundByEight(imm: bv32)
    ensures Turn((imm << 24) | (imm >> 8), 12) == imm
  {
  }

  lemma SmallRotation(r0: bv32, l0: bv32, r8: bv32, l8: bv32, r4: bv32, l4: bv32, r2: bv32, l2: bv32)
    requires l0 <= 8 && Up(0xff00_0000, 4, r0, l0, r8, l8) && Up(0xf000_0000, 2, r8, l8, r4, l4)
    requires Up(0xc000_0000, 1, r4, l4, r2, l2)
    ensures l2 < 16
  {
    assert l8 <= 12 && l4 <= 14;
  }

  lemma OperandFound(imm: bv32, r0: bv32, l0: bv32, r8: bv32, l8: bv32, r4: bv32, l4: bv32, r2: bv32, l2: bv32)
    requires StartsSearch(imm, r0, l0) && Up(0xff00_0000, 4, r0, l0, r8, l8)
    requires Up(0xf000_0000, 2, r8, l8, r4, l4) && Up(0xc000_0000, 1, r4, l4, r2, l2) && r2 & 0x00ff_ffff == 0
    ensures Encodes(Operand(r2 >> 24, l2), imm) && l2 < 16
  {
    SearchContributes(imm, r0, l0);
    UpBy8KeepsPart(r0, l0, r8, l8, imm);
    UpBy4KeepsPart(r8, l8, r4, l4, imm);
    UpBy2KeepsPart(r4, l4, r2, l2, imm);
    LastOperandTakesAll(r2, l2, imm);
    SmallRotation(r0, l0, r8, l8, r4, l4, r2, l2);
  }

  lemma ByteEncodesItself(imm: bv32)
    requires imm <= 0xff
    ensures Encodes(OP2_IMMEDIATE | imm, imm)
  {
  }

  lemma OperandIsValid(op2: bv32, imm: bv32)
    requires Encodes(op2, imm)
    ensures op2 != INVALID_IMMEDIATE
  {
  }

  lemma SmallOperand(byte: bv32, rol: bv32)
    requires rol < 16
    ensures OP2_IMMEDIATE | byte | (rol << 8) == Operand(byte, rol)
  {
  }

  lemma NoOperandFound(imm: bv32, r0: bv32, l0: bv32, r8: bv32, r4: bv32, r2: bv32, code: bv32)
    requires imm > 0xff && StartsSearch(imm, r0, l0) && Shifted(0xff00_0000, 4, r0, r8)
    requires Shifted(0xf000_0000, 2, r8, r4) && Shifted(0xc000_0000, 1, r4, r2) && r2 & 0x00ff_ffff != 0
    ensures ExpandImm(code) != imm
  {
  }

  /** The operand for `imm`, or the invalid one: exactly when some operand stands for `imm` it returns one. */
  method GetOp2(imm: bv32) returns (op2: bv32)
    ensures op2 == INVALID_IMMEDIATE || Encodes(op2, imm)
    ensures op2 == INVALID_IMMEDIATE <==> forall code :: !Encodes(code, imm)
  {
    if imm <= 0xff {
      op2 := OP2_IMMEDIATE | imm;
      ByteEncodesItself(imm);
      OperandIsValid(op2, imm);
      return;
    }
    var rest, rol := imm << 8, 8;
    if imm & 0xff00_0000 != 0 {
      rest, rol := (imm << 24) | (imm >> 8), 0;
    }
    var r8, l8 := MoveUp8(rest, rol);
    var r4, l4 := MoveUp4(r8, l8);
    var r2, l2 := MoveUp2(r4, l4);
    if r2 & 0x00ff_ffff == 0 {
      op2 := OP2_IMMEDIATE | (r2 >> 24) | (l2 << 8);
      OperandFound(imm, rest, rol, r8, l8, r4, l4, r2, l2);
      SmallOperand(r2 >> 24, l2);
      assert Encodes(op2, imm);
      OperandIsValid(op2, imm);
      return;
    }
    forall code ensures !Encodes(code, imm) {
      NoOperandFound(imm, rest, rol, r8, r4, r2, code);
    }
    return INVALID_IMMEDIATE;
  }

  /** The operand with the given byte and rotation. */
  function Operand(byte: bv32, rol: bv32): (r: bv32) {
    OP2_IMMEDIATE | byte | ((rol & 0xf) << 8)
  }

  // ----- turning -----

  lemma TurnShifted2(x: bv32, field: bv32)
    requires field < 16 && x & 0xc000_0000 == 0
    ensures Turn(x << 2, (field + 1) & 0xf) == Turn(x, field)
  {
    if field == 0 {} else if field == 1 {} else if field == 2 {} else if field == 3 {}
    else if field == 4 {} else if field == 5 {} else if field == 6 {} else if field == 7 {}
    else if field == 8 {} else if field == 9 {} else if field == 10 {} else if field == 11 {}
    else if field == 12 {} else if field == 13 {} else if field == 14 {}
  }

  lemma TurnShifted4(x: bv32, field: bv32)
    requires field < 16 && x & 0xf000_0000 == 0
    ensures Turn(x << 4, (field + 2) & 0xf) == Turn(x, field)
  {
    if field == 0 {} else if field == 1 {} else if field == 2 {} else if field == 3 {}
    else if field == 4 {} else if field == 5 {} else if field == 6 {} else if field == 7 {}
    else if field == 8 {} else if field == 9 {} else if field == 10 {} else if field == 11 {}
    else if field == 12 {} else if field == 13 {} else if field == 14 {}
  }

  lemma TurnShifted8(x: bv32, field: bv32)
    requires field < 16 && x & 0xff00_0000 == 0
    ensures Turn(x << 8, (field + 4) & 0xf) == Turn(x, field)
  {
    if field == 0 {} else if field == 1 {} else if field == 2 {} else if field == 3 {}
    else if field == 4 {} else if field == 5 {} else if field == 6 {} else if field == 7 {}
    else if field == 8 {} else if field == 9 {} else if field == 10 {} else if field == 11 {}
    else if field == 12 {} else if field == 13 {} else if field == 14 {}
  }

  lemma TurnSplitsLow(x: bv32, field: bv32)
    requires field < 8
    ensures Turn(x, field) == Turn(x >> 24, (field + 4) & 0xf) | Turn(x << 8, (field + 4) & 0xf)
  {
    if field == 0 {} else if field == 1 {} else if field == 2 {} else if field == 3 {}
    else if field == 4 {} else if field == 5 {} else if field == 6 {}
  }

  lemma TurnSplitsHigh(x: bv32, field: bv32)
    requires 8 <= field < 16
    ensures Turn(x, field) == Turn(x >> 24, (field + 4) & 0xf) | Turn(x << 8, (field + 4) & 0xf)
  {
    if field == 8 {} else if field == 9 {} else if field == 10 {} else if field == 11 {}
    else if field == 12 {} else if field == 13 {} else if field == 14 {}
  }

  /** The top byte and the rest are turned separately. */
  lemma TurnSplits(x: bv32, field: bv32)
    requires field < 16
    ensures Turn(x, field) == Turn(x >> 24, (field + 4) & 0xf) | Turn(x << 8, (field + 4) & 0xf)
  {
    if field < 8 {
      TurnSplitsLow(x, field);
    } else {
      TurnSplitsHigh(x, field);
    }
  }

  /** `part` is what `rest` contributes to a number in which the top byte of `rest` has rotation `rol`. */
  predicate Contributes(rest: bv32, rol: bv32, part: bv32) {
    part == Turn(rest, (rol + 12) & 0xf)
  }

  lemma ShiftBy2(rest: bv32, rol: bv32, part: bv32)
    requires Contributes(rest, rol, part) && rest & 0xc000_0000 == 0
    ensures Contributes(rest << 2, rol + 1, part)
  {
    TurnShifted2(rest, (rol + 12) & 0xf);
  }

  lemma ShiftBy4(rest: bv32, rol: bv32, part: bv32)
    requires Contributes(rest, rol, part) && rest & 0xf000_0000 == 0
    ensures Contributes(rest << 4, rol + 2, part)
  {
    TurnShifted4(rest, (rol + 12) & 0xf);
  }

  lemma ShiftBy8(rest: bv32, rol: bv32, part: bv32)
    requires Contributes(rest, rol, part) && rest & 0xff00_0000 == 0
    ensures Contributes(rest << 8, rol + 4, part)
  {
    TurnShifted8(rest, (rol + 12) & 0xf);
  }

  lemma OperandExpands(byte: bv32, rol: bv32)
    requires byte <= 0xff
    ensures Encodes(Operand(byte, rol), Turn(byte, rol & 0xf))
  {
    var op2 := Operand(byte, rol);
    assert op2 & 0xff == byte && (op2 >> 8) & 0xf == rol & 0xf;
  }

  lemma FieldsWrap(rol: bv32)
    ensures (((rol + 12) & 0xf) + 4) & 0xf == rol & 0xf
    ensures (rol + 4 + 12) & 0xf == rol & 0xf
  {
  }

  /** What is left when the top byte, with rotation `rol`, is taken off `rest`. */
  function Remainder(rest: bv32, rol: bv32): (r: bv32) {
    Turn(rest << 8, rol & 0xf)
  }

  /** Taking the top byte off: it contributes what its operand stands for, and the rest what it did. */
  lemma TakeTopByte(rest: bv32, rol: bv32, part: bv32)
    requires Contributes(rest, rol, part)
    ensures part == Turn(rest >> 24, rol & 0xf) | Remainder(rest, rol)
    ensures Contributes(rest << 8, rol + 4, Remainder(rest, rol))
  {
    FieldsWrap(rol);
    TurnSplits(rest, (rol + 12) & 0xf);
  }

  // ----- two operands -----

  /** Turning `imm` right by the even amount `n` brings eight zero bits to the bottom. */
  predicate HasGap(imm: bv32, n: bv32) {
    n < 32 && n & 1 == 0 && RotateRight(imm, n) & 0xff == 0
  }

  function RotateLeft(x: bv32, n: bv32): (r: bv32)
    requires 0 < n < 32
  {
    (x << n) | (x >> (32 - n))
  }

  lemma MaskFindsGap(imm: bv32, rol: bv32)
    requires 8 <= rol <= 30 && rol & 1 == 0
    ensures imm & (0xff00_0000 >> (rol - 8)) == 0 <==> HasGap(imm, 32 - rol)
    ensures imm & (0xff00_0000 >> (rol - 8)) == 0 ==> RotateLeft(imm, rol) & 0xff == 0
  {
  }

  lemma LowMaskFindsGap(imm: bv32, rol: bv32)
    requires 24 <= rol <= 30 && rol & 1 == 0
    ensures RotateLeft(imm, 8) & (0xff00 >> (rol - 24)) == 0 <==> HasGap(imm, if rol == 24 then 0 else 56 - rol)
  {
  }

  lemma LowMaskTurnsDown(turned: bv32, rol: bv32)
    requires 24 <= rol <= 30 && rol & 1 == 0 && turned & (0xff00 >> (rol - 24)) == 0
    ensures RotateLeft(turned, rol) & 0xff == 0
  {
  }

  /** All gaps of `imm` lie at or below `n`, or above 24. */
  ghost predicate GapsUpTo(imm: bv32, n: bv32) {
    forall g :: HasGap(imm, g) ==> g <= n || 24 < g
  }

  /** Where the second loop has not looked yet when it has come to `rol`. */
  predicate Untried(g: bv32, rol: bv32) {
    (g == 0 && rol == 24) || (24 < g && g <= 56 - rol)
  }

  ghost predicate OnlyUntriedGaps(imm: bv32, rol: bv32) {
    forall g :: HasGap(imm, g) ==> Untried(g, rol)
  }

  lemma FewerGaps(imm: bv32, n: bv32)
    requires GapsUpTo(imm, n) && !HasGap(imm, n) && 2 <= n <= 24 && n & 1 == 0
    ensures GapsUpTo(imm, n - 2)
  {
    forall g | HasGap(imm, g) ensures g <= n - 2 || 24 < g {
      assert g <= n || 24 < g;
      assert g != n && g & 1 == 0;
    }
  }

  lemma FewerUntriedGaps(imm: bv32, rol: bv32)
    requires OnlyUntriedGaps(imm, rol) && 24 <= rol <= 30 && rol & 1 == 0
    requires !HasGap(imm, if rol == 24 then 0 else 56 - rol)
    ensures OnlyUntriedGaps(imm, rol + 2)
  {
    forall g | HasGap(imm, g) ensures Untried(g, rol + 2) {
      assert Untried(g, rol) && g & 1 == 0 && g < 32;
    }
  }

  lemma LastGaps(imm: bv32)
    requires GapsUpTo(imm, 0)
    ensures OnlyUntriedGaps(imm, 24)
  {
    forall g | HasGap(imm, g) ensures Untried(g, 24) {
      assert (g <= 0 || 24 < g) && g < 32;
    }
  }

  /** The first loop: the mask moves down from the top byte. */
  method FindGapBelowTop(imm: bv32) returns (found: bool, rotated: bv32, rol: bv32)
    ensures found ==> rotated & 0xff == 0 && Contributes(rotated, rol, imm)
    ensures !found ==> GapsUpTo(imm, 0)
  {
    rotated, rol := imm, 8;
    var mask: bv32 := 0xff00_0000;
    while true
      invariant 8 <= rol <= 30 && rol & 1 == 0 && mask == 0xff00_0000 >> (rol - 8)
      invariant GapsUpTo(imm, 32 - rol)
      decreases mask
    {
      MaskFindsGap(imm, rol);
      if imm & mask == 0 {
        TurnedLeft(imm, rol);
        return true, RotateLeft(imm, rol), 4 + (rol >> 1);
      }
      FewerGaps(imm, 32 - rol);
      rol := rol + 2;
      mask := mask >> 2;
      if mask & 3 != 0 { return false, imm, rol; }
    }
  }

  /** The low mask, moved as far as `rol` says, meets no bit of `imm` turned left by eight. */
  predicate GapAcrossTop(imm: bv32, rol: bv32) {
    24 <= rol <= 30 && rol & 1 == 0 && RotateLeft(imm, 8) & (0xff00 >> (rol - 24)) == 0
  }

  /** The second loop: the eight zero bits wrap around, and the mask is held against `imm` turned left by eight. */
  method FindGapAcrossTop(imm: bv32) returns (found: bool, rol: bv32)
    requires GapsUpTo(imm, 0)
    ensures found ==> GapAcrossTop(imm, rol)
    ensures !found ==> forall g :: !HasGap(imm, g)
  {
    var turned, mask := RotateLeft(imm, 8), 0xff00;
    rol := 24;
    LastGaps(imm);
    while true
      invariant 24 <= rol <= 30 && rol & 1 == 0 && mask == 0xff00 >> (rol - 24)
      invariant OnlyUntriedGaps(imm, rol)
      decreases mask
    {
      if turned & mask == 0 { return true, rol; }
      LowMaskFindsGap(imm, rol);
      FewerUntriedGaps(imm, rol);
      rol := rol + 2;
      mask := mask >> 2;
      if mask & 3 != 0 { return false, rol; }
    }
  }

  /** The first half of `genInt`: looks for eight zero bits at an even position, and turns them to the bottom. */
  method FindGap(imm: bv32) returns (found: bool, rotated: bv32, rol: bv32)
    ensures found ==> rotated & 0xff == 0 && Contributes(rotated, rol, imm)
    ensures !found ==> forall g :: !HasGap(imm, g)
  {
    found, rotated, rol := FindGapBelowTop(imm);
    if !found {
      found, rol := FindGapAcrossTop(imm);
      if found {
        TurnsAcross(imm, rol);
        rotated, rol := RotateLeft(RotateLeft(imm, 8), rol), (rol >> 1) - 8;
      }
    }
  }

  lemma TurnsAcross(imm: bv32, rol: bv32)
    requires GapAcrossTop(imm, rol)
    ensures var rotated := RotateLeft(RotateLeft(imm, 8), rol); rotated & 0xff == 0 && Contributes(rotated, (rol >> 1) - 8, imm)
  {
    LowMaskTurnsDown(RotateLeft(imm, 8), rol);
    TurnedAcross(imm, rol);
  }

  lemma TurnedAcross(imm: bv32, rol: bv32)
    requires 24 <= rol <= 30 && rol & 1 == 0
    ensures Contributes(RotateLeft(RotateLeft(imm, 8), rol), (rol >> 1) - 8, imm)
  {
    assert RotateLeft(imm, 8) == (imm << 8) | (imm >> 24);
    assert RotateLeft((imm << 8) | (imm >> 24), rol)
        == (((imm << 8) | (imm >> 24)) << rol) | (((imm << 8) | (imm >> 24)) >> (32 - rol));
    TurnedLeftAgain(imm, rol);
  }

  lemma TurnedLeft(imm: bv32, rol: bv32)
    requires 8 <= rol <= 30 && rol & 1 == 0
    ensures Contributes((imm << rol) | (imm >> (32 - rol)), 4 + (rol >> 1), imm)
  {
    if rol == 8 {} else if rol == 10 {} else if rol == 12 {} else if rol == 14 {}
    else if rol == 16 {} else if rol == 18 {} else if rol == 20 {} else if rol == 22 {}
    else if rol == 24 {} else if rol == 26 {} else if rol == 28 {} else if rol == 30 {}
  }

  lemma TurnedLeftAgain(imm: bv32, rol: bv32)
    requires 24 <= rol <= 30 && rol & 1 == 0
    ensures var turned := (imm << 8) | (imm >> 24);
            Contributes((turned << rol) | (turned >> (32 - rol)), (rol >> 1) - 8, imm)
  {
    if rol == 24 {} else if rol == 26 {} else if rol == 28 {} else if rol == 30 {}
  }

  /** Two operands that together stand for `imm`. */
  predicate IsPair(op1: bv32, op2: bv32, imm: bv32) {
    Either(ExpandImm(op1), ExpandImm(op2)) == imm
  }

  function Either(x: bv32, y: bv32): (r: bv32) { x | y }

  /** `rest'` is `rest`, moved up by `2 * pairs` bits if those under `top` are clear. */
  predicate Shifted(top: bv32, pairs: bv32, rest: bv32, rest': bv32)
    requires pairs <= 4
  {
    rest' == if rest & top == 0 then rest << (pairs << 1) else rest
  }

  /** The same, with the rotation of the top byte kept up to date. */
  predicate Up(top: bv32, pairs: bv32, rest: bv32, rol: bv32, rest': bv32, rol': bv32)
    requires pairs <= 4
  {
    Shifted(top, pairs, rest, rest') && rol' == if rest & top == 0 then rol + pairs else rol
  }

  lemma UpBy8KeepsPart(rest: bv32, rol: bv32, rest': bv32, rol': bv32, part: bv32)
    requires Contributes(rest, rol, part) && Up(0xff00_0000, 4, rest, rol, rest', rol')
    ensures Contributes(rest', rol', part)
  {
    if rest & 0xff00_0000 == 0 { ShiftBy8(rest, rol, part); }
  }

  lemma UpBy4KeepsPart(rest: bv32, rol: bv32, rest': bv32, rol': bv32, part: bv32)
    requires Contributes(rest, rol, part) && Up(0xf000_0000, 2, rest, rol, rest', rol')
    ensures Contributes(rest', rol', part)
  {
    if rest & 0xf000_0000 == 0 { ShiftBy4(rest, rol, part); }
  }

  lemma UpBy2KeepsPart(rest: bv32, rol: bv32, rest': bv32, rol': bv32, part: bv32)
    requires Contributes(rest, rol, part) && Up(0xc000_0000, 1, rest, rol, rest', rol')
    ensures Contributes(rest', rol', part)
  {
    if rest & 0xc000_0000 == 0 { ShiftBy2(rest, rol, part); }
  }

  /** The operand of the top byte takes its part. */
  lemma TopOperandTakesItsPart(rest: bv32, rol: bv32, part: bv32)
    requires Contributes(rest, rol, part)
    ensures IsOperand(Operand(rest >> 24, rol))
    ensures part == ExpandImm(Operand(rest >> 24, rol)) | Remainder(rest, rol)
  {
    TakeTopByte(rest, rol, part);
    OperandExpands(rest >> 24, rol);
  }

  lemma NothingLeft(rest: bv32, rol: bv32)
    requires rest & 0x00ff_ffff == 0
    ensures Remainder(rest, rol) == 0
  {
    assert rest << 8 == 0;
  }

  lemma LastOperandTakesAll(rest: bv32, rol: bv32, part: bv32)
    requires Contributes(rest, rol, part) && rest & 0x00ff_ffff == 0
    ensures Encodes(Operand(rest >> 24, rol), part)
  {
    TopOperandTakesItsPart(rest, rol, part);
    NothingLeft(rest, rol);
  }

  method MoveUp8(rest: bv32, rol: bv32) returns (rest': bv32, rol': bv32)
    ensures Up(0xff00_0000, 4, rest, rol, rest', rol')
  {
    rest', rol' := rest, rol;
    if rest & 0xff00_0000 == 0 { rest', rol' := rest << 8, rol + 4; }
  }

  method MoveUp4(rest: bv32, rol: bv32) returns (rest': bv32, rol': bv32)
    ensures Up(0xf000_0000, 2, rest, rol, rest', rol')
  {
    rest', rol' := rest, rol;
    if rest & 0xf000_0000 == 0 { rest', rol' := rest << 4, rol + 2; }
  }

  method MoveUp2(rest: bv32, rol: bv32) returns (rest': bv32, rol': bv32)
    ensures Up(0xc000_0000, 1, rest, rol, rest', rol')
  {
    rest', rol' := rest, rol;
    if rest & 0xc000_0000 == 0 { rest', rol' := rest << 2, rol + 1; }
  }

  /** `rotated` has no pair of operands. */
  ghost predicate NoPair(rotated: bv32) {
    forall op1, op2 :: !IsPair(op1, op2, rotated)
  }

  lemma NoPairHigh(rotated: bv32, r8: bv32, r4: bv32, r2: bv32)
    requires rotated & 0xff == 0 && rotated & 0xc000_0000 != 0
    requires Shifted(0xff00_0000, 4, rotated << 8, r8) && Shifted(0xf000_0000, 2, r8, r4)
    requires Shifted(0xc000_0000, 1, r4, r2) && r2 & 0x00ff_ffff != 0
    ensures NoPair(rotated)
  {
  }

  lemma NoPairMiddle(rotated: bv32, a4: bv32, a2: bv32, b4: bv32, b2: bv32)
    requires rotated & 0xff == 0 && rotated & 0xff00_0000 != 0 && rotated & 0xc000_0000 == 0
    requires Shifted(0xf000_0000, 2, rotated, a4) && Shifted(0xc000_0000, 1, a4, a2)
    requires Shifted(0xf000_0000, 2, a2 << 8, b4) && Shifted(0xc000_0000, 1, b4, b2) && b2 & 0x00ff_ffff != 0
    ensures NoPair(rotated)
  {
  }

  /** The operands of two top bytes stand for the whole, if nothing is left after the second. */
  lemma TwoOperands(rest: bv32, rol: bv32, rest': bv32, rol': bv32, imm: bv32)
    requires Contributes(rest, rol, imm)
    requires Contributes(rest', rol', Remainder(rest, rol)) && rest' & 0x00ff_ffff == 0
    ensures ArePair(Operand(rest >> 24, rol), Operand(rest' >> 24, rol'), imm)
  {
    TopOperandTakesItsPart(rest, rol, imm);
    LastOperandTakesAll(rest', rol', Remainder(rest, rol));
  }

  predicate ArePair(op1: bv32, op2: bv32, imm: bv32) {
    IsOperand(op1) && IsOperand(op2) && IsPair(op1, op2, imm)
  }

  method SplitHigh(rotated: bv32, rol: bv32, ghost imm: bv32) returns (ok: bool, op1: bv32, op2: bv32)
    requires rotated & 0xff == 0 && rotated & 0xc000_0000 != 0 && Contributes(rotated, rol, imm)
    ensures if ok then ArePair(op1, op2, imm) else NoPair(rotated)
  {
    op1, op2 := Operand(rotated >> 24, rol), INVALID_IMMEDIATE;
    var r8, l8 := MoveUp8(rotated << 8, rol + 4);
    var r4, l4 := MoveUp4(r8, l8);
    var r2, l2 := MoveUp2(r4, l4);
    ok := r2 & 0x00ff_ffff == 0;
    if ok {
      op2 := Operand(r2 >> 24, l2);
      HighOperands(rotated, rol, r8, l8, r4, l4, r2, l2, imm);
    } else {
      NoPairHigh(rotated, r8, r4, r2);
    }
  }

  lemma HighOperands(rotated: bv32, rol: bv32, r8: bv32, l8: bv32, r4: bv32, l4: bv32, r2: bv32, l2: bv32, imm: bv32)
    requires Contributes(rotated, rol, imm)
    requires Up(0xff00_0000, 4, rotated << 8, rol + 4, r8, l8) && Up(0xf000_0000, 2, r8, l8, r4, l4)
    requires Up(0xc000_0000, 1, r4, l4, r2, l2) && r2 & 0x00ff_ffff == 0
    ensures ArePair(Operand(rotated >> 24, rol), Operand(r2 >> 24, l2), imm)
  {
    TakeTopByte(rotated, rol, imm);
    var more := Remainder(rotated, rol);
    UpBy8KeepsPart(rotated << 8, rol + 4, r8, l8, more);
    UpBy4KeepsPart(r8, l8, r4, l4, more);
    UpBy2KeepsPart(r4, l4, r2, l2, more);
    TwoOperands(rotated, rol, r2, l2, imm);
  }

  method SplitMiddle(rotated: bv32, rol: bv32, ghost imm: bv32) returns (ok: bool, op1: bv32, op2: bv32)
    requires rotated & 0xff == 0 && rotated & 0xff00_0000 != 0 && rotated & 0xc000_0000 == 0
    requires Contributes(rotated, rol, imm)
    ensures if ok then ArePair(op1, op2, imm) else NoPair(rotated)
  {
    var a4, l4 := MoveUp4(rotated, rol);
    var a2, l2 := MoveUp2(a4, l4);
    op1, op2 := Operand(a2 >> 24, l2), INVALID_IMMEDIATE;
    var b4, m4 := MoveUp4(a2 << 8, l2 + 4);
    var b2, m2 := MoveUp2(b4, m4);
    ok := b2 & 0x00ff_ffff == 0;
    if ok {
      op2 := Operand(b2 >> 24, m2);
      UpBy4KeepsPart(rotated, rol, a4, l4, imm);
      UpBy2KeepsPart(a4, l4, a2, l2, imm);
      MiddleOperands(a2, l2, b4, m4, b2, m2, imm);
    } else {
      NoPairMiddle(rotated, a4, a2, b4, b2);
    }
  }

  lemma MiddleOperands(rest: bv32, rol: bv32, b4: bv32, m4: bv32, b2: bv32, m2: bv32, imm: bv32)
    requires Contributes(rest, rol, imm)
    requires Up(0xf000_0000, 2, rest << 8, rol + 4, b4, m4) && Up(0xc000_0000, 1, b4, m4, b2, m2)
    requires b2 & 0x00ff_ffff == 0
    ensures ArePair(Operand(rest >> 24, rol), Operand(b2 >> 24, m2), imm)
  {
    TakeTopByte(rest, rol, imm);
    var more := Remainder(rest, rol);
    UpBy4KeepsPart(rest << 8, rol + 4, b4, m4, more);
    UpBy2KeepsPart(b4, m4, b2, m2, more);
    TwoOperands(rest, rol, b2, m2, imm);
  }

  method SplitLow(rotated: bv32, rol: bv32, ghost imm: bv32) returns (op1: bv32, op2: bv32)
    requires rotated & 0xff == 0 && rotated & 0xff00_0000 == 0 && Contributes(rotated, rol, imm)
    ensures ArePair(op1, op2, imm)
  {
    op1 := Operand((rotated >> 16) & 0xff, rol + 4);
    op2 := Operand((rotated >> 8) & 0xff, rol + 8);
    ShiftBy8(rotated, rol, imm);
    TakeTopByte(rotated << 8, rol + 4, imm);
    LowBytes(rotated);
    assert rol + 4 + 4 == rol + 8;
    TwoOperands(rotated << 8, rol + 4, rotated << 16, rol + 8, imm);
  }

  lemma LowBytes(rotated: bv32)
    requires rotated & 0xff == 0 && rotated & 0xff00_0000 == 0
    ensures (rotated << 8) << 8 == rotated << 16 && (rotated << 16) & 0x00ff_ffff == 0
    ensures (rotated << 8) >> 24 == (rotated >> 16) & 0xff && (rotated << 16) >> 24 == (rotated >> 8) & 0xff
  {
  }

  /** The second half of `genInt`: two operands for a value whose low byte is zero, whenever there are two. */
  method SplitRotated(rotated: bv32, rol: bv32, ghost imm: bv32) returns (ok: bool, op1: bv32, op2: bv32)
    requires rotated & 0xff == 0 && Contributes(rotated, rol, imm)
    ensures if ok then ArePair(op1, op2, imm) else NoPair(rotated)
  {
    if rotated & 0xff00_0000 == 0 {
      ok := true;
      op1, op2 := SplitLow(rotated, rol, imm);
    } else if rotated & 0xc000_0000 != 0 {
      ok, op1, op2 := SplitHigh(rotated, rol, imm);
    } else {
      ok, op1, op2 := SplitMiddle(rotated, rol, imm);
    }
  }

  // ----- when there are two operands -----

  /** Turned by two places. */
  function Once(x: bv32): (r: bv32) { (x >> 2) | (x << 30) }

  lemma OnceOfBoth(x: bv32, y: bv32)
    ensures Once(Either(x, y)) == Either(Once(x), Once(y))
  {
  }

  lemma TwoFurther(x: bv32, n: bv32)
    requires 0 < n < 30 && n & 1 == 0
    ensures Once((x >> n) | (x << (32 - n))) == (x >> (n + 2)) | (x << (30 - n))
  {
    if n == 2 {} else if n == 4 {} else if n == 6 {} else if n == 8 {}
    else if n == 10 {} else if n == 12 {} else if n == 14 {} else if n == 16 {}
    else if n == 18 {} else if n == 20 {} else if n == 22 {} else if n == 24 {}
    else if n == 26 {}
  }

  lemma RotatesOnce(x: bv32, n: bv32)
    requires 0 < n < 30 && n & 1 == 0
    ensures RotateRight(x, n + 2) == Once(RotateRight(x, n))
  {
    TwoFurther(x, n);
    assert RotateRight(x, n) == (x >> n) | (x << (32 - n));
    assert RotateRight(x, n + 2) == (x >> (n + 2)) | (x << (30 - n));
  }

  lemma FieldAmounts(field: bv32)
    requires 0 < field < 15
    ensures (field & 0xf) << 1 == field << 1 && ((field + 1) & 0xf) << 1 == (field << 1) + 2
    ensures 0 < field << 1 < 30 && (field << 1) & 1 == 0
  {
  }

  lemma TurnOnceMore(x: bv32, field: bv32)
    requires 0 < field < 15
    ensures Turn(x, field + 1) == Once(Turn(x, field))
  {
    FieldAmounts(field);
    RotatesOnce(x, field << 1);
  }

  lemma LastTurn(x: bv32)
    ensures Once(Turn(x, 15)) == x && Turn(x, 0) == x
  {
  }

  /** The operand for what an operand stands for, turned once. */
  function NextOperand(op2: bv32): (r: bv32) {
    Operand(op2 & 0xff, (op2 >> 8) + 1)
  }

  function Rotation(op2: bv32): (r: bv32) { (op2 >> 8) & 0xf }

  lemma TurnsOnce(byte: bv32, rotation: bv32)
    requires rotation < 16
    ensures Turn(byte, (rotation + 1) & 0xf) == Once(Turn(byte, rotation))
  {
    LastTurn(byte);
    if rotation == 0 {
      assert Turn(byte, 1) == Once(byte);
    } else if rotation < 15 {
      TurnOnceMore(byte, rotation);
      assert (rotation + 1) & 0xf == rotation + 1;
    }
  }

  lemma NextFields(op2: bv32)
    ensures NextOperand(op2) & 0xff == op2 & 0xff && Rotation(NextOperand(op2)) == (Rotation(op2) + 1) & 0xf < 16 && Rotation(op2) < 16
  {
  }

  lemma ExpandsByFields(op2: bv32)
    ensures ExpandImm(op2) == Turn(op2 & 0xff, Rotation(op2))
  {
  }

  lemma NextExpands(op2: bv32)
    ensures ExpandImm(NextOperand(op2)) == Once(ExpandImm(op2))
  {
    NextFields(op2);
    ExpandsByFields(op2);
    ExpandsByFields(NextOperand(op2));
    TurnsOnce(op2 & 0xff, Rotation(op2));
  }

  lemma NextStands(op2: bv32) returns (value: bv32, turned: bv32)
    ensures ExpandImm(op2) == value && ExpandImm(NextOperand(op2)) == turned && turned == Once(value)
  {
    NextExpands(op2);
    value, turned := ExpandImm(op2), ExpandImm(NextOperand(op2));
  }

  /** Two operands for a number, turned once, are two for the number turned once. */
  lemma NextPair(op1: bv32, op2: bv32, imm: bv32)
    requires IsPair(op1, op2, imm)
    ensures IsPair(NextOperand(op1), NextOperand(op2), Once(imm))
  {
    var a, a' := NextStands(op1);
    var b, b' := NextStands(op2);
    OnceOfJoined(a, b, a', b', imm);
  }

  lemma OnceOfJoined(a: bv32, b: bv32, a': bv32, b': bv32, imm: bv32)
    requires Either(a, b) == imm && a' == Once(a) && b' == Once(b)
    ensures Either(a', b') == Once(imm)
  {
    OnceOfBoth(a, b);
  }

  lemma {:induction false} PairTurnsBack(rotated: bv32, field: bv32, imm: bv32, op1: bv32, op2: bv32)
    requires field < 16 && imm == Turn(rotated, field) && IsPair(op1, op2, imm)
    ensures !NoPair(rotated)
    decreases 16 - field
  {
    LastTurn(rotated);
    if field > 0 {
      NextPair(op1, op2, imm);
      if field < 15 {
        TurnOnceMore(rotated, field);
        PairTurnsBack(rotated, field + 1, Once(imm), NextOperand(op1), NextOperand(op2));
      }
    }
  }

  lemma NoPairTurned(rotated: bv32, rol: bv32, imm: bv32)
    requires Contributes(rotated, rol, imm) && NoPair(rotated)
    ensures NoPair(imm)
  {
    forall op1, op2 ensures !IsPair(op1, op2, imm) {
      if IsPair(op1, op2, imm) {
        PairTurnsBack(rotated, (rol + 12) & 0xf, imm, op1, op2);
      }
    }
  }

  ghost predicate SomeGap(imm: bv32) {
    exists g :: HasGap(imm, g)
  }

  lemma RotatesFurther(imm: bv32, g: bv32)
    requires g <= 30 && g & 1 == 0
    ensures RotateRight(Once(imm), g) == RotateRight(imm, if g == 30 then 0 else g + 2)
  {
    if g == 0 {} else if g == 2 {} else if g == 4 {} else if g == 6 {}
    else if g == 8 {} else if g == 10 {} else if g == 12 {} else if g == 14 {}
    else if g == 16 {} else if g == 18 {} else if g == 20 {} else if g == 22 {}
    else if g == 24 {} else if g == 26 {} else if g == 28 {}
  }

  lemma GapTurnsBack(imm: bv32)
    requires SomeGap(Once(imm))
    ensures SomeGap(imm)
  {
    var g :| HasGap(Once(imm), g);
    EvenBelow(g);
    RotatesFurther(imm, g);
    assert HasGap(imm, if g == 30 then 0 else g + 2);
  }

  lemma EvenBelow(g: bv32)
    requires g < 32 && g & 1 == 0
    ensures g <= 30 && (g != 30 ==> g + 2 < 32 && (g + 2) & 1 == 0)
  {
  }

  /** A byte at the bottom and one elsewhere leave the second or the fourth byte free. */
  lemma TwoBytesLeaveGap(x: bv32, y: bv32, rotation: bv32)
    requires x <= 0xff && y <= 0xff && rotation < 16
    ensures RotateRight(x | Turn(y, rotation), if rotation <= 8 then 8 else 24) & 0xff == 0
  {
    if rotation == 0 {} else if rotation == 1 {} else if rotation == 2 {} else if rotation == 3 {}
    else if rotation == 4 {} else if rotation == 5 {} else if rotation == 6 {} else if rotation == 7 {}
    else if rotation == 8 {} else if rotation == 9 {} else if rotation == 10 {} else if rotation == 11 {}
    else if rotation == 12 {} else if rotation == 13 {} else if rotation == 14 {}
  }

  lemma BottomPairLeavesGap(op1: bv32, op2: bv32, imm: bv32)
    requires IsPair(op1, op2, imm) && Rotation(op1) == 0
    ensures SomeGap(imm)
  {
    ExpandsByFields(op1);
    ExpandsByFields(op2);
    LastTurn(op1 & 0xff);
    NextFields(op2);
    BytesAreSmall(op1, op2);
    TwoBytesLeaveGap(op1 & 0xff, op2 & 0xff, Rotation(op2));
    assert HasGap(imm, if Rotation(op2) <= 8 then 8 else 24);
  }

  lemma BytesAreSmall(x: bv32, y: bv32)
    ensures x & 0xff <= 0xff && y & 0xff <= 0xff
  {
  }

  /** Turns that are left until the rotation is zero. */
  function TurnsLeft(rotation: bv32): (r: bv32) { (16 - rotation) & 0xf }

  lemma OneTurnLess(rotation: bv32)
    requires 0 < rotation < 16
    ensures TurnsLeft((rotation + 1) & 0xf) < TurnsLeft(rotation)
  {
  }

  /** A number that has two operands leaves eight bits free at an even position. */
  lemma {:induction false} PairLeavesGap(op1: bv32, op2: bv32, imm: bv32)
    requires IsPair(op1, op2, imm)
    ensures SomeGap(imm)
    decreases TurnsLeft(Rotation(op1))
  {
    if Rotation(op1) == 0 {
      BottomPairLeavesGap(op1, op2, imm);
    } else {
      NextPair(op1, op2, imm);
      NextFields(op1);
      OneTurnLess(Rotation(op1));
      PairLeavesGap(NextOperand(op1), NextOperand(op2), Once(imm));
      GapTurnsBack(imm);
    }
  }

  lemma NoGapNoPair(imm: bv32)
    requires forall g :: !HasGap(imm, g)
    ensures NoPair(imm)
  {
    forall op1, op2 ensures !IsPair(op1, op2, imm) {
      if IsPair(op1, op2, imm) {
        PairLeavesGap(op1, op2, imm);
      }
    }
  }

  /** `genInt`: two operands that together stand for `imm`, just when there are two. */
  method GenInt(imm: bv32) returns (ok: bool, op1: bv32, op2: bv32)
    ensures ok ==> ArePair(op1, op2, imm)
    ensures !ok ==> NoPair(imm)
  {
    var rotated, rol;
    ok, rotated, rol := FindGap(imm);
    op1, op2 := INVALID_IMMEDIATE, INVALID_IMMEDIATE;
    if ok {
      ok, op1, op2 := SplitRotated(rotated, rol, imm);
      if !ok { NoPairTurned(rotated, rol, imm); }
    } else {
      NoGapNoPair(imm);
    }
  }
}
