/**
  Which form `computeJumpType` picks: its range checks are exact, and no shorter form would do.
 */
module ThumbForms {
  import opened ThumbCode
  import opened ThumbWords
  import opened ThumbJumps

  /** The size of halfwords, in bytes. */
  function Bytes(code: seq<bv16>): (r: bv32) {
    if code == [] then 0 else 2 + Bytes(code[1..])
  }

  lemma BytesOf(a: seq<bv16>)
    requires |a| <= 6
    ensures Bytes(a) == if |a| == 0 then 0 else if |a| == 1 then 2 else if |a| == 2 then 4 else if |a| == 3 then 6
                        else if |a| == 4 then 8 else if |a| == 5 then 10 else 12
  {
    if |a| > 0 { BytesOf(a[1..]); }
  }

  /** `JUMP_ENUM_SIZE` is the size of what is linked. */
  lemma LinkHasSize(l: LinkType, cond: bv32, location: bv32, to: bv32)
    ensures Bytes(Link(l, cond, location, to)) == LinkSize(l)
  {
    BytesOf(Link(l, cond, location, to));
  }

  /** The pc, as a branch of that size ending at `location` reads it. */
  function PcOf(location: bv32, size: bv32): (r: bv32) {
    Plus(Minus(location, size), 4)
  }

  /** Whether a branch of the form, ending at `location`, has any encoding that goes to `to`. */
  ghost predicate HasEncoding(l: LinkType, location: bv32, to: bv32) {
    match l
    case T1 => exists h :: Plus(PcOf(location, 2), OffsetT1(h)) == to
    case T2 => exists h :: Plus(PcOf(location, 2), OffsetT2(h)) == to
    case T3 => exists a, b :: Plus(PcOf(location, 4), OffsetT3(a, b)) == to
    case T4 => exists a, b :: Plus(PcOf(location, 4), OffsetT4(a, b)) == to
    case ConditionalT4 => exists a, b :: Plus(PcOf(location, 4), OffsetT4(a, b)) == to
    case BX => true
    case ConditionalBX => true
    case Invalid => false
  }

  lemma ThereAndBack(x: bv32, y: bv32)
    ensures Minus(Plus(x, y), x) == y
  {
    assert Plus(x, y) == x + y;
    assert Minus(x + y, x) == y;
  }

  lemma BackAndThere(x: bv32, to: bv32)
    ensures Plus(x, Minus(to, x)) == to
  {
    assert Minus(to, x) == to - x;
    assert Plus(x, to - x) == to;
  }

  lemma Rearrange(x: bv32, to: bv32, offset: bv32)
    ensures Plus(x, offset) == to <==> offset == Minus(to, x)
  {
    ThereAndBack(x, offset);
    BackAndThere(x, to);
  }

  lemma NarrowPc(location: bv32, to: bv32)
    ensures Minus(to, PcOf(location, 2)) == Minus(Minus(to, location), 2)
  {
    BackAgain(location);
    NarrowDistance(Minus(location, 2), to);
  }

  lemma BackAgain(location: bv32)
    ensures Plus(Minus(location, 2), 2) == location
  {
    assert Minus(location, 2) == location - 2;
    assert Plus(location - 2, 2) == location;
  }

  lemma WidePc(location: bv32)
    ensures PcOf(location, 4) == location
  {
    assert Minus(location, 4) == location - 4;
    assert Plus(location - 4, 4) == location;
  }

  lemma NarrowReach(location: bv32, to: bv32, offset: bv32)
    ensures Plus(PcOf(location, 2), offset) == to <==> offset == Minus(Minus(to, location), 2)
  {
    NarrowPc(location, to);
    Rearrange(PcOf(location, 2), to, offset);
  }

  lemma WideReach(location: bv32, to: bv32, offset: bv32)
    ensures Plus(PcOf(location, 4), offset) == to <==> offset == Minus(to, location)
  {
    WidePc(location);
    Rearrange(location, to, offset);
  }

  lemma DistanceIsEven(location: bv32, to: bv32)
    requires IsEven(location) && IsEven(to)
    ensures Minus(to, location) & 1 == 0 && Minus(Minus(to, location), 2) & 1 == 0
  {
    StillEven(to, location);
    StillEven(Minus(to, location), 2);
  }

  lemma OffsetT1Fits(h: bv32)
    ensures Fits(OffsetT1(h), 0xffff_ff00)
  {
    NarrowFields(h);
    SignExtendFits((h & 0xff) << 1, 0x100, 0xffff_fe00, 0xffff_ff00);
  }

  lemma OffsetT2Fits(h: bv32)
    ensures Fits(OffsetT2(h), 0xffff_f800)
  {
    NarrowFields(h);
    SignExtendFits((h & 0x7ff) << 1, 0x800, 0xffff_f000, 0xffff_f800);
  }

  lemma NarrowFields(h: bv32)
    ensures ((h & 0xff) << 1) & 0xffff_fe00 == 0 && ((h & 0x7ff) << 1) & 0xffff_f000 == 0
  {
  }

  lemma WideFields(a: bv32, b: bv32)
    ensures FieldT3(a, b) & 0xffe0_0000 == 0 && FieldT4(a, b) & 0xfe00_0000 == 0
  {
    JoinFits((a & 0x400) << 14, BitOfI(b & 0x2000, a & 0x400, 0x80_0000), BitOfI(b & 0x800, a & 0x400, 0x40_0000), a & 0x3ff, b & 0x7ff);
  }

  lemma JoinFits(s: bv32, i1: bv32, i2: bv32, imm10: bv32, imm11: bv32)
    requires s & 0xfeff_ffff == 0 && i1 & 0xff7f_ffff == 0 && i2 & 0xffbf_ffff == 0 && imm10 <= 0x3ff && imm11 <= 0x7ff
    ensures JoinT4(s, i1, i2, imm10, imm11) & 0xfe00_0000 == 0
  {
  }

  lemma OffsetT3Fits(a: bv32, b: bv32)
    ensures Fits(OffsetT3(a, b), 0xfff0_0000)
  {
    WideFields(a, b);
    SignExtendFits(FieldT3(a, b), 0x10_0000, 0xffe0_0000, 0xfff0_0000);
  }

  lemma OffsetT4Fits(a: bv32, b: bv32)
    ensures Fits(OffsetT4(a, b), 0xff00_0000)
  {
    WideFields(a, b);
    SignExtendFits(FieldT4(a, b), 0x100_0000, 0xfe00_0000, 0xff00_0000);
  }

  lemma SignExtendFits(field: bv32, sign: bv32, above: bv32, high: bv32)
    requires field & above == 0 && high == above | sign
    requires sign == 0x100 || sign == 0x800 || sign == 0x10_0000 || sign == 0x100_0000
    ensures Fits(SignExtend(field, sign, above), high)
  {
    if field & sign != 0 {
      SignIsSet(field, sign);
      WithAbove(field, sign, above);
    } else {
      WithoutAbove(field, sign, above);
    }
  }

  lemma SignIsSet(field: bv32, sign: bv32)
    requires field & sign != 0 && (sign == 0x100 || sign == 0x800 || sign == 0x10_0000 || sign == 0x100_0000)
    ensures field & sign == sign
  {
    if sign == 0x100 {} else if sign == 0x800 {} else if sign == 0x10_0000 {}
  }

  lemma WithAbove(field: bv32, sign: bv32, above: bv32)
    requires field & sign == sign
    ensures (field | above) & (above | sign) == above | sign
  {
  }

  lemma WithoutAbove(field: bv32, sign: bv32, above: bv32)
    requires field & sign == 0 && field & above == 0
    ensures field & (above | sign) == 0
  {
  }

  lemma EncodedT3(relative: bv32) returns (a: bv32, b: bv32)
    requires Fits(relative, 0xfff0_0000) && relative & 1 == 0
    ensures OffsetT3(a, b) == relative
  {
    a := 0xf000 | ((relative & 0x10_0000) >> 10) | ((0 & 0xf) << 6) | ((relative & 0x3_f000) >> 12);
    b := 0x8000 | ((relative & 0x8_0000) >> 8) | ((relative & 0x4_0000) >> 5) | ((relative & 0xffe) >> 1);
    FieldsT3(0, relative, a, b);
    ExtendT3(relative, FieldT3(a, b));
  }

  lemma EncodedT4(relative: bv32) returns (a: bv32, b: bv32)
    requires Fits(relative, 0xff00_0000) && relative & 1 == 0
    ensures OffsetT4(a, b) == relative
  {
    var r := Peculiar(relative);
    a, b := Wide(FirstT4(r)), Wide(SecondT4(r));
    WordsT4(r);
    FieldT4Of(relative, r, a, b);
    ExtendT4(relative, FieldT4(a, b));
  }

  lemma InRangeT1(location: bv32, to: bv32)
    requires IsEven(location) && IsEven(to) && CanBeJumpT1(location, to)
    ensures HasEncoding(T1, location, to)
  {
    var relative := Minus(Minus(to, location), 2);
    DistanceIsEven(location, to);
    var h := (relative & 0x1fe) >> 1;
    assert h & 0xff == h;
    ExtendT1(relative, h);
    NarrowReach(location, to, OffsetT1(h));
  }

  lemma EncodedInRangeT1(location: bv32, to: bv32, h: bv32)
    requires Plus(PcOf(location, 2), OffsetT1(h)) == to
    ensures CanBeJumpT1(location, to)
  {
    NarrowReach(location, to, OffsetT1(h));
    OffsetT1Fits(h);
  }

  lemma ExactT1(location: bv32, to: bv32)
    requires IsEven(location) && IsEven(to)
    ensures CanBeJumpT1(location, to) <==> HasEncoding(T1, location, to)
  {
    if CanBeJumpT1(location, to) {
      InRangeT1(location, to);
    } else {
      forall h ensures Plus(PcOf(location, 2), OffsetT1(h)) != to {
        if Plus(PcOf(location, 2), OffsetT1(h)) == to { EncodedInRangeT1(location, to, h); }
      }
    }
  }

  lemma InRangeT2(location: bv32, to: bv32)
    requires IsEven(location) && IsEven(to) && CanBeJumpT2(location, to)
    ensures HasEncoding(T2, location, to)
  {
    var relative := Minus(Minus(to, location), 2);
    DistanceIsEven(location, to);
    var h := (relative & 0xffe) >> 1;
    assert h & 0x7ff == h;
    ExtendT2(relative, h);
    NarrowReach(location, to, OffsetT2(h));
  }

  lemma EncodedInRangeT2(location: bv32, to: bv32, h: bv32)
    requires Plus(PcOf(location, 2), OffsetT2(h)) == to
    ensures CanBeJumpT2(location, to)
  {
    NarrowReach(location, to, OffsetT2(h));
    OffsetT2Fits(h);
  }

  lemma ExactT2(location: bv32, to: bv32)
    requires IsEven(location) && IsEven(to)
    ensures CanBeJumpT2(location, to) <==> HasEncoding(T2, location, to)
  {
    if CanBeJumpT2(location, to) {
      InRangeT2(location, to);
    } else {
      forall h ensures Plus(PcOf(location, 2), OffsetT2(h)) != to {
        if Plus(PcOf(location, 2), OffsetT2(h)) == to { EncodedInRangeT2(location, to, h); }
      }
    }
  }

  lemma InRangeT3(location: bv32, to: bv32)
    requires IsEven(location) && IsEven(to) && CanBeJumpT3(location, to)
    ensures HasEncoding(T3, location, to)
  {
    var relative := Minus(to, location);
    DistanceIsEven(location, to);
    var a, b := EncodedT3(relative);
    WideReach(location, to, OffsetT3(a, b));
  }

  lemma EncodedInRangeT3(location: bv32, to: bv32, a: bv32, b: bv32)
    requires Plus(PcOf(location, 4), OffsetT3(a, b)) == to
    ensures CanBeJumpT3(location, to)
  {
    WideReach(location, to, OffsetT3(a, b));
    OffsetT3Fits(a, b);
  }

  lemma ExactT3(location: bv32, to: bv32)
    requires IsEven(location) && IsEven(to)
    ensures CanBeJumpT3(location, to) <==> HasEncoding(T3, location, to)
  {
    if CanBeJumpT3(location, to) {
      InRangeT3(location, to);
    } else {
      forall a, b ensures Plus(PcOf(location, 4), OffsetT3(a, b)) != to {
        if Plus(PcOf(location, 4), OffsetT3(a, b)) == to { EncodedInRangeT3(location, to, a, b); }
      }
    }
  }

  lemma InRangeT4(location: bv32, to: bv32)
    requires IsEven(location) && IsEven(to) && CanBeJumpT4(location, to)
    ensures HasEncoding(T4, location, to)
  {
    var relative := Minus(to, location);
    DistanceIsEven(location, to);
    var a, b := EncodedT4(relative);
    WideReach(location, to, OffsetT4(a, b));
  }

  lemma EncodedInRangeT4(location: bv32, to: bv32, a: bv32, b: bv32)
    requires Plus(PcOf(location, 4), OffsetT4(a, b)) == to
    ensures CanBeJumpT4(location, to)
  {
    WideReach(location, to, OffsetT4(a, b));
    OffsetT4Fits(a, b);
  }

  lemma ExactT4(location: bv32, to: bv32)
    requires IsEven(location) && IsEven(to)
    ensures CanBeJumpT4(location, to) <==> HasEncoding(T4, location, to)
  {
    if CanBeJumpT4(location, to) {
      InRangeT4(location, to);
    } else {
      forall a, b ensures Plus(PcOf(location, 4), OffsetT4(a, b)) != to {
        if Plus(PcOf(location, 4), OffsetT4(a, b)) == to { EncodedInRangeT4(location, to, a, b); }
      }
    }
  }

  /** The range checks are exact: a form can be linked just when it has an encoding that goes there. */
  lemma RangeChecksAreExact(l: LinkType, location: bv32, to: bv32)
    requires !l.Invalid? && IsEven(location) && IsEven(to)
    ensures CanLink(l, location, to) <==> HasEncoding(l, location, to)
  {
    if l.T1? { ExactT1(location, to); }
    else if l.T2? { ExactT2(location, to); }
    else if l.T3? { ExactT3(location, to); }
    else if l.T4? || l.ConditionalT4? { ExactT4(location, to); }
  }

  lemma DeltaIsEven(j: JumpType, l: LinkType, from: bv32)
    requires IsEven(from)
    ensures IsEven(Minus(from, JumpSizeDelta(j, l)))
  {
    StillEven(from, JumpSizeDelta(j, l));
  }

  predicate IsNoLonger(picked: LinkType, l: LinkType) {
    picked == l || LinkSize(picked) < LinkSize(l)
  }

  lemma PicksShortestConditional(from: bv32, to: bv32, l: LinkType)
    requires IsConditional(l) && CanLink(l, Minus(from, JumpSizeDelta(Condition, l)), to)
    ensures IsNoLonger(ComputeJumpType(Condition, from, to), l)
  {
    if l.T1? {
      assert CanBeJumpT1(Minus(from, 10), to);
    } else if l.T3? {
      assert CanBeJumpT3(Minus(from, 8), to);
    } else if l.ConditionalT4? {
      assert CanBeJumpT4(Minus(from, 6), to);
    }
  }

  lemma PicksShortestUnconditional(from: bv32, to: bv32, l: LinkType)
    requires !IsConditional(l) && !l.Invalid? && CanLink(l, Minus(from, JumpSizeDelta(NoCondition, l)), to)
    ensures IsNoLonger(ComputeJumpType(NoCondition, from, to), l)
  {
    if l.T2? {
      assert CanBeJumpT2(Minus(from, 8), to);
    } else if l.T4? {
      assert CanBeJumpT4(Minus(from, 6), to);
    }
  }

  /** The form is of the jump's kind, and has an encoding from where the jump would then end. */
  ghost predicate WouldDo(j: JumpType, from: bv32, to: bv32, l: LinkType) {
    !l.Invalid? && IsConditional(l) == j.Condition? && HasEncoding(l, Minus(from, JumpSizeDelta(j, l)), to)
  }

  lemma WouldDoCanLink(j: JumpType, from: bv32, to: bv32, l: LinkType)
    requires IsEven(from) && IsEven(to) && WouldDo(j, from, to, l)
    ensures CanLink(l, Minus(from, JumpSizeDelta(j, l)), to)
  {
    DeltaIsEven(j, l, from);
    RangeChecksAreExact(l, Minus(from, JumpSizeDelta(j, l)), to);
  }

  /** For a jump whose size is not fixed, the form that is picked is shorter than any other that would do. */
  lemma PickedFormIsShortest(j: JumpType, from: bv32, to: bv32, l: LinkType)
    requires (j.Condition? || j.NoCondition?) && IsEven(from) && IsEven(to) && WouldDo(j, from, to, l)
    ensures IsNoLonger(ComputeJumpType(j, from, to), l)
  {
    WouldDoCanLink(j, from, to, l);
    if j.Condition? {
      PicksShortestConditional(from, to, l);
    } else {
      PicksShortestUnconditional(from, to, l);
    }
  }

  /** A jump of fixed size keeps all of its room. */
  lemma FixedSizeIsKept(j: JumpType, from: bv32, to: bv32)
    requires j.ConditionFixedSize? || j.NoConditionFixedSize?
    ensures JumpSizeDelta(j, ComputeJumpType(j, from, to)) == 0
  {
    FixedSizeForm(j, from, to);
  }

  lemma FixedSizeForm(j: JumpType, from: bv32, to: bv32)
    requires j.ConditionFixedSize? || j.NoConditionFixedSize?
    ensures ComputeJumpType(j, from, to) == if j.ConditionFixedSize? then ConditionalBX else BX
  {
  }
}
