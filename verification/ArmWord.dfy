/**
  32-bit ARM instruction words, as far as the constant pool and the jump linker look inside them.

  A word is kept as the bit fields that code reads and writes, so masking is a field update: bits 31-28 are the
  condition, 27-24 the kind of operation, 23 the direction of a data transfer, 22-16 its mode and base register, 15-12
  the register it transfers and 11-0 its offset. `Value` is the number the fields spell, `FromInt` its inverse.
 */
module ArmWord {

  type Bits4 = n: nat | n < 0x10
  type Bits7 = n: nat | n < 0x80
  type Bits12 = n: nat | n < 0x1000
  type UInt32 = n: nat | n < 0x1_0000_0000

  datatype Word = Word(cond: Bits4, kind: Bits4, up: bool, mode: Bits7, rd: Bits4, offset: Bits12)
  {
    /** Bits 23-0: the displacement field of a branch. */
    function Low24(): (r: nat)
      ensures r < 0x100_0000
    {
      (if up then 0x80_0000 else 0) + 0x1_0000 * mode + 0x1000 * rd + offset
    }

    function Value(): (r: UInt32) {
      0x1000_0000 * cond + 0x100_0000 * kind + Low24()
    }
  }

  /** The word with the given condition, kind and low 24 bits. */
  function WithLow24(cond: Bits4, kind: Bits4, low: nat): (r: Word)
    requires low < 0x100_0000
    ensures r.cond == cond && r.kind == kind && r.Low24() == low
  {
    var low23 := if low >= 0x80_0000 then low - 0x80_0000 else low;
    var low16 := low23 - 0x1_0000 * (low23 / 0x1_0000);
    Word(cond, kind, low >= 0x80_0000, low23 / 0x1_0000, low16 / 0x1000, low16 - 0x1000 * (low16 / 0x1000))
  }

  /** The word that spells a number. */
  function FromInt(n: UInt32): (r: Word)
    ensures r.Value() == n
  {
    var low28 := n - 0x1000_0000 * (n / 0x1000_0000);
    WithLow24(n / 0x1000_0000, low28 / 0x100_0000, low28 - 0x100_0000 * (low28 / 0x100_0000))
  }

  /** The target of a jump that was never linked: a word of ones. */
  const INVALID_BRANCH_TARGET := Word(0xf, 0xf, true, 0x7f, 0xf, 0xfff)
  const ALWAYS: Bits4 := 14
  const PAD := Word(ALWAYS, 1, false, 0x2f, 0xf, 0xf7f)  // bkpt 0xffff
  const BKPT := Word(ALWAYS, 1, false, 0x20, 0, 0x070)  // bkpt 0

  /** `BKPT`, encoding A1: cond 0001 0010 imm12 0111 imm4, always executed. */
  predicate IsBreakpoint(w: Word) {
    w.cond == ALWAYS && w.kind == 1 && !w.up && w.mode / 0x10 == 2 && w.offset / 0x10 % 0x10 == 7
  }

  /** Padding traps: in front of a pool with all ones, at the end of the code with zero. */
  lemma PaddingTraps()
    ensures IsBreakpoint(PAD) && PAD.Value() == 0xe12f_ff7f
    ensures IsBreakpoint(BKPT) && BKPT.Value() == 0xe120_0070
    ensures INVALID_BRANCH_TARGET.Value() == 0xffff_ffff
  {
  }

  // ----- literal loads -----

  /** `ldr rd, [pc, +/-offset]`: a load, relative to the pc, whatever its condition and direction. */
  predicate IsLoadLiteral(w: Word) {
    w.kind == 5 && w.mode == 0x1f
  }

  /** The load before its pool is placed: the offset field carries the pool index and an odd marker bit. */
  function StampIndex(load: Word, index: nat): (r: Word)
    requires index < 0x800
  {
    load.(offset := 2 * index + 1)
  }

  /** The pool index a stamped load carries. */
  function StampedIndex(load: Word): (r: nat) {
    load.offset / 2
  }

  /** Whether the pc-relative offset to entry `index` of a pool `diff` words further on fits its twelve bits. */
  predicate OffsetFits(load: Word, diff: nat) {
    diff >= 1 && 4 * (diff + StampedIndex(load) - 2) <= 0xfff
  }

  /** The load once its pool is placed `diff` words after it. */
  function PatchLoad(load: Word, diff: nat): (r: Word)
    requires OffsetFits(load, diff)
  {
    var index := StampedIndex(load);
    if diff >= 2 || index > 0 then load.(offset := 4 * (diff + index - 2)) else load.(up := false, offset := 4)
  }

  /** The byte address a literal load at byte address `at` reads; the pc runs two words ahead. */
  function LiteralAddress(load: Word, at: int): (r: int) {
    if load.up then at + 8 + load.offset else at + 8 - load.offset
  }

  /** A template for a literal load: it adds its offset, which is still to be filled in. */
  predicate IsLoadTemplate(w: Word) {
    IsLoadLiteral(w) && w.up
  }

  /** The words agree on everything but the address they read. */
  predicate SameButAddress(v: Word, w: Word) {
    v.cond == w.cond && v.kind == w.kind && v.mode == w.mode && v.rd == w.rd
  }

  /** A placed load reads the pool entry whose index it was stamped with, and stays the same load otherwise. */
  lemma PatchedLoadReadsItsEntry(load: Word, index: nat, diff: nat, at: int)
    requires IsLoadTemplate(load) && index < 0x800
    requires OffsetFits(StampIndex(load, index), diff)
    ensures var placed := PatchLoad(StampIndex(load, index), diff);
            && LiteralAddress(placed, at) == at + 4 * (diff + index)
            && SameButAddress(placed, load)
            && placed.offset % 2 == 0
  {
    assert StampedIndex(StampIndex(load, index)) == index;
    if diff < 2 && index == 0 {
      assert diff == 1;
    }
  }

  // ----- branches -----

  /** A branch by `words` relative to the pc. */
  function Branch(cond: Bits4, words: int): (r: Word)
    requires -0x80_0000 <= words <= 0x7f_ffff
  {
    WithLow24(cond, 0xa, if words < 0 then words + 0x100_0000 else words)
  }

  predicate IsBranch(w: Word) {
    w.kind == 0xa
  }

  /** The byte address a branch at byte address `at` goes to. */
  function BranchAddress(w: Word, at: int): (r: int) {
    at + 8 + 4 * (if w.Low24() < 0x80_0000 then w.Low24() else w.Low24() - 0x100_0000)
  }

  /** A branch displacement that fits 24 signed bits is reached exactly. */
  lemma BranchReaches(cond: Bits4, words: int, at: int)
    requires -0x80_0000 <= words <= 0x7f_ffff
    ensures IsBranch(Branch(cond, words)) && Branch(cond, words).cond == cond
    ensures BranchAddress(Branch(cond, words), at) == at + 8 + 4 * words
  {
  }

  /** The branch that skips the `words` words of padding and constants placed right after it. */
  function PoolBarrier(words: nat): (r: Word)
    requires words < 0x1000
  {
    Branch(ALWAYS, words - 1)
  }
}
