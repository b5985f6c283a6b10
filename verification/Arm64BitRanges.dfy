/**
  Numbers that consist of two or three runs of equal bits: how the ARM64 assembler finds the runs, and why these numbers
  are exactly the rotations of a single run.
 */
module Arm64BitRanges {
  const ALL: bv64 := 0xffff_ffff_ffff_ffff

  // Bitwise operations, by name.
  function Common(x: bv64, y: bv64): (r: bv64) { x & y }
  function Flip(x: bv64, y: bv64): (r: bv64) { x ^ y }
  function With(x: bv64, y: bv64): (r: bv64) { x | y }
  function Half(x: bv64): (r: bv64) { x >> 1 }
  function Grow(x: bv64): (r: bv64) { (x << 1) | 1 }

  // ----- runs of low bits -----

  /** The number whose `n` lowest bits are set. */
  function Low(n: nat): (r: bv64) {
    if n == 0 then 0 else Grow(Low(n - 1))
  }

  /** A right shift, one place at a time. */
  function Shr(x: bv64, n: nat): (r: bv64) {
    if n == 0 then x else Shr(Half(x), n - 1)
  }

  /** `mask`: the bits `hsb` to 0. */
  function Mask(hsb: nat): (r: bv64)
    requires hsb < 64
  {
    Shr(ALL, 63 - hsb)
  }

  lemma SubmaskGrows(x: bv64, y: bv64)
    requires Common(x, y) == x
    ensures Common(Grow(x), Grow(y)) == Grow(x)
  {
  }

  lemma {:induction false} LowNests(n: nat, m: nat)
    requires n <= m
    ensures Common(Low(n), Low(m)) == Low(n)
  {
    if n == 0 {
      NothingNests(Low(m));
    } else {
      LowNests(n - 1, m - 1);
      SubmaskGrows(Low(n - 1), Low(m - 1));
    }
  }

  lemma NothingNests(x: bv64)
    ensures Common(0, x) == 0
  {
  }

  function Grow2(x: bv64): (r: bv64) { (x << 2) | 3 }
  function Grow4(x: bv64): (r: bv64) { (x << 4) | 0xf }
  function Grow8(x: bv64): (r: bv64) { (x << 8) | 0xff }
  function Grow16(x: bv64): (r: bv64) { (x << 16) | 0xffff }
  function Grow32(x: bv64): (r: bv64) { (x << 32) | 0xffff_ffff }

  lemma GrowTwice(x: bv64)
    ensures Grow(Grow(x)) == Grow2(x)
  {
    assert Grow(x) == (x << 1) | 1;
  }

  lemma Grow2Twice(x: bv64)
    ensures Grow2(Grow2(x)) == Grow4(x)
  {
    assert Grow2(x) == (x << 2) | 3;
  }

  lemma Grow4Twice(x: bv64)
    ensures Grow4(Grow4(x)) == Grow8(x)
  {
    assert Grow4(x) == (x << 4) | 0xf;
  }

  lemma Grow8Twice(x: bv64)
    ensures Grow8(Grow8(x)) == Grow16(x)
  {
    assert Grow8(x) == (x << 8) | 0xff;
  }

  lemma Grow16Twice(x: bv64)
    ensures Grow16(Grow16(x)) == Grow32(x)
  {
    assert Grow16(x) == (x << 16) | 0xffff;
  }

  lemma LowBy2(n: nat)
    ensures Low(n + 2) == Grow2(Low(n))
  {
    assert Low(n + 1) == Grow(Low(n));
    assert Low(n + 2) == Grow(Low(n + 1));
    GrowTwice(Low(n));
  }

  lemma LowBy4(n: nat)
    ensures Low(n + 4) == Grow4(Low(n))
  {
    LowBy2(n);
    LowBy2(n + 2);
    Grow2Twice(Low(n));
  }

  lemma LowBy8(n: nat)
    ensures Low(n + 8) == Grow8(Low(n))
  {
    LowBy4(n);
    LowBy4(n + 4);
    Grow4Twice(Low(n));
  }

  lemma LowBy16(n: nat)
    ensures Low(n + 16) == Grow16(Low(n))
  {
    LowBy8(n);
    LowBy8(n + 8);
    Grow8Twice(Low(n));
  }

  lemma LowBy32(n: nat)
    ensures Low(n + 32) == Grow32(Low(n))
  {
    LowBy16(n);
    LowBy16(n + 16);
    Grow16Twice(Low(n));
  }

  lemma LowValues()
    ensures Low(1) == 1 && Low(2) == 3 && Low(3) == 7 && Low(4) == 0xf && Low(7) == 0x7f && Low(8) == 0xff
    ensures Low(15) == 0x7fff && Low(16) == 0xffff && Low(31) == 0x7fff_ffff && Low(32) == 0xffff_ffff
    ensures Low(63) == 0x7fff_ffff_ffff_ffff && Low(64) == ALL
  {
    LowBy4(3);
    LowBy4(4);
    LowBy8(7);
    LowBy8(8);
    LowBy16(15);
    LowBy16(16);
    LowBy32(31);
    LowBy32(32);
  }

  lemma GrowHalves(x: bv64)
    ensures Common(Grow(x), 1) == 1
    ensures Common(x, 0x7fff_ffff_ffff_ffff) == x ==> Half(Grow(x)) == x
  {
  }

  lemma LowHalves(n: nat)
    requires 0 < n <= 64
    ensures Half(Low(n)) == Low(n - 1) && Common(Low(n), 1) == 1
  {
    LowValues();
    LowNests(n - 1, 63);
    GrowHalves(Low(n - 1));
  }

  lemma {:induction false} LowShifted(n: nat, k: nat)
    requires k <= n <= 64
    ensures Shr(Low(n), k) == Low(n - k)
    decreases k
  {
    if k > 0 {
      LowHalves(n);
      LowShifted(n - 1, k - 1);
    }
  }

  lemma MaskIsLow(hsb: nat)
    requires hsb < 64
    ensures Mask(hsb) == Low(hsb + 1)
  {
    LowValues();
    LowShifted(64, 63 - hsb);
  }

  // ----- the highest set bit -----

  lemma {:induction false} ShiftsAdd(x: bv64, a: nat, b: nat)
    ensures Shr(x, a + b) == Shr(Shr(x, a), b)
    decreases a
  {
    if a > 0 {
      ShiftsAdd(Half(x), a - 1, b);
    }
  }

  lemma ShiftBy1(x: bv64)
    ensures Shr(x, 1) == x >> 1
  {
    assert Shr(x, 1) == Shr(Half(x), 0);
  }

  lemma ShiftBy2(x: bv64)
    ensures Shr(x, 2) == x >> 2
  {
    ShiftBy1(x);
    ShiftBy1(x >> 1);
    ShiftsAdd(x, 1, 1);
  }

  lemma ShiftBy4(x: bv64)
    ensures Shr(x, 4) == x >> 4
  {
    ShiftBy2(x);
    ShiftBy2(x >> 2);
    ShiftsAdd(x, 2, 2);
  }

  lemma ShiftBy8(x: bv64)
    ensures Shr(x, 8) == x >> 8
  {
    ShiftBy4(x);
    ShiftBy4(x >> 4);
    ShiftsAdd(x, 4, 4);
  }

  lemma ShiftBy16(x: bv64)
    ensures Shr(x, 16) == x >> 16
  {
    ShiftBy8(x);
    ShiftBy8(x >> 8);
    ShiftsAdd(x, 8, 8);
  }

  lemma ShiftBy32(x: bv64)
    ensures Shr(x, 32) == x >> 32
  {
    ShiftBy16(x);
    ShiftBy16(x >> 16);
    ShiftsAdd(x, 16, 16);
  }

  /** `highestSetBit`, by binary search. */
  method HighestSetBit(value: bv64) returns (hsb: nat)
    requires value != 0
    ensures hsb < 64 && Shr(value, hsb) == 1
  {
    var x := value;
    hsb := 0;
    if x & 0xffff_ffff_0000_0000 != 0 {
      ShiftBy32(x);
      hsb, x := hsb + 32, x >> 32;
    }
    assert x != 0 && x <= 0xffff_ffff && hsb <= 32 && Shr(value, hsb) == x;
    if x & 0xffff_ffff_ffff_0000 != 0 {
      ShiftBy16(x);
      ShiftsAdd(value, hsb, 16);
      hsb, x := hsb + 16, x >> 16;
    }
    assert x != 0 && x <= 0xffff && hsb <= 48 && Shr(value, hsb) == x;
    if x & 0xffff_ffff_ffff_ff00 != 0 {
      ShiftBy8(x);
      ShiftsAdd(value, hsb, 8);
      hsb, x := hsb + 8, x >> 8;
    }
    assert x != 0 && x <= 0xff && hsb <= 56 && Shr(value, hsb) == x;
    if x & 0xffff_ffff_ffff_fff0 != 0 {
      ShiftBy4(x);
      ShiftsAdd(value, hsb, 4);
      hsb, x := hsb + 4, x >> 4;
    }
    assert x != 0 && x <= 0xf && hsb <= 60 && Shr(value, hsb) == x;
    if x & 0xffff_ffff_ffff_fffc != 0 {
      ShiftBy2(x);
      ShiftsAdd(value, hsb, 2);
      hsb, x := hsb + 2, x >> 2;
    }
    assert x != 0 && x <= 3 && hsb <= 62 && Shr(value, hsb) == x;
    if x & 0xffff_ffff_ffff_fffe != 0 {
      ShiftBy1(x);
      ShiftsAdd(value, hsb, 1);
      hsb, x := hsb + 1, x >> 1;
    }
    assert x == 1;
  }

  lemma {:induction false} ShiftOfZero(n: nat)
    ensures Shr(0, n) == 0
  {
    if n > 0 {
      assert Half(0) == 0;
      ShiftOfZero(n - 1);
    }
  }

  lemma HighestIsUnique(x: bv64, a: nat, b: nat)
    requires Shr(x, a) == 1 && Shr(x, b) == 1
    ensures a == b
  {
    if a < b {
      HigherIsZero(x, a, b);
    } else if b < a {
      HigherIsZero(x, b, a);
    }
  }

  lemma HigherIsZero(x: bv64, a: nat, b: nat)
    requires Shr(x, a) == 1 && a < b
    ensures Shr(x, b) == 0
  {
    ShiftsAdd(x, a, b - a);
    assert Half(1) == 0;
    ShiftOfZero(b - a - 1);
  }

  // ----- ranges of bits -----

  predicate IsWidth(w: nat) {
    w == 2 || w == 4 || w == 8 || w == 16 || w == 32 || w == 64
  }

  /** The highest bit of a width. */
  function Top(w: nat): (r: bv64)
    requires IsWidth(w)
  {
    if w == 2 then 0x2 else if w == 4 then 0x8 else if w == 8 then 0x80 else if w == 16 then 0x8000
    else if w == 32 then 0x8000_0000 else 0x8000_0000_0000_0000
  }

  /** Whether a number has no bits outside the `n` lowest. */
  predicate Fits(x: bv64, n: nat) {
    Common(x, Low(n)) == x
  }

  /** Bits `h` to `l` set and the others clear, or the other way round. */
  function Pattern(w: nat, h: nat, l: nat, inverted: bool): (r: bv64)
    requires IsWidth(w)
  {
    var range := Flip(Low(h + 1), Low(l));
    if inverted then Flip(Low(w), range) else range
  }

  predicate IsRange(w: nat, h: nat, l: nat) {
    l <= h <= w - 2
  }

  lemma WidthFacts(w: nat)
    requires IsWidth(w)
    ensures Flip(Low(w - 1), Top(w)) == Low(w) && Common(Low(w - 1), Top(w)) == 0 && Common(Low(w), Top(w)) == Top(w) && Top(w) != 0
  {
    LowValues();
    if w == 2 {} else if w == 4 {} else if w == 8 {} else if w == 16 {} else if w == 32 {}
  }

  lemma NestedMisses(x: bv64, y: bv64, top: bv64)
    requires Common(x, y) == x && Common(y, top) == 0
    ensures Common(x, top) == 0
  {
  }

  lemma LowMissesTop(n: nat, w: nat)
    requires IsWidth(w) && n < w
    ensures Common(Low(n), Top(w)) == 0
  {
    WidthFacts(w);
    LowNests(n, w - 1);
    NestedMisses(Low(n), Low(w - 1), Top(w));
  }

  lemma FlipMisses(x: bv64, y: bv64, top: bv64)
    requires Common(x, top) == 0 && Common(y, top) == 0
    ensures Common(Flip(x, y), top) == 0
  {
  }

  lemma FlipHits(full: bv64, x: bv64, top: bv64)
    requires Common(full, top) == top && Common(x, top) == 0
    ensures Common(Flip(full, x), top) == top
  {
  }

  /** A pattern is inverted just when its top bit is set. */
  lemma PatternTop(w: nat, h: nat, l: nat, inverted: bool)
    requires IsWidth(w) && IsRange(w, h, l)
    ensures Common(Pattern(w, h, l, inverted), Top(w)) == (if inverted then Top(w) else 0)
  {
    WidthFacts(w);
    LowMissesTop(h + 1, w);
    LowMissesTop(l, w);
    FlipMisses(Low(h + 1), Low(l), Top(w));
    FlipHits(Low(w), Flip(Low(h + 1), Low(l)), Top(w));
  }

  lemma FlipHalves(x: bv64, y: bv64)
    ensures Half(Flip(x, y)) == Flip(Half(x), Half(y))
  {
    assert Flip(x, y) == x ^ y;
    HalvesOfFlipped(x, y);
  }

  lemma HalvesOfFlipped(x: bv64, y: bv64)
    ensures Half(x ^ y) == Flip(x >> 1, y >> 1)
  {
  }

  lemma {:induction false} ShiftOfFlip(x: bv64, y: bv64, n: nat)
    ensures Shr(Flip(x, y), n) == Flip(Shr(x, n), Shr(y, n))
    decreases n
  {
    if n > 0 {
      FlipHalves(x, y);
      ShiftOfFlip(Half(x), Half(y), n - 1);
    }
  }

  lemma FitsHalves(x: bv64, y: bv64, half: bv64)
    requires Common(x, y) == x && Half(y) == half
    ensures Common(Half(x), half) == Half(x)
  {
  }

  lemma FitsNothing(x: bv64)
    requires Fits(x, 0)
    ensures x == 0
  {
    assert Low(0) == 0;
  }

  lemma FitsHalf(x: bv64, n: nat)
    requires Fits(x, n) && 0 < n <= 64
    ensures Fits(Half(x), n - 1)
  {
    var low, half := Low(n), Low(n - 1);
    LowHalves(n);
    assert Half(low) == half;
    FitsHalves(x, low, half);
  }

  lemma {:induction false} ShiftedOut(x: bv64, n: nat)
    requires Fits(x, n) && n <= 64
    ensures Shr(x, n) == 0
    decreases n
  {
    if n == 0 {
      FitsNothing(x);
    } else {
      FitsHalf(x, n);
      ShiftedOut(Half(x), n - 1);
    }
  }

  lemma ShiftedOutFurther(x: bv64, n: nat, m: nat)
    requires Shr(x, n) == 0 && n <= m
    ensures Shr(x, m) == 0
  {
    ShiftsAdd(x, n, m - n);
    ShiftOfZero(m - n);
  }

  /** The highest bit of a range is where it starts. */
  lemma RangeHighest(h: nat, l: nat)
    requires l <= h < 64
    ensures Shr(Flip(Low(h + 1), Low(l)), h) == 1
  {
    ShiftOfFlip(Low(h + 1), Low(l), h);
    LowShifted(h + 1, h);
    LowNests(l, l);
    ShiftedOut(Low(l), l);
    ShiftedOutFurther(Low(l), l, h);
    LowValues();
    assert Flip(1, 0) == 1;
  }

  lemma FlipAgain(x: bv64, y: bv64)
    ensures Flip(Flip(x, y), x) == y && Flip(Flip(x, y), y) == x && Flip(x, x) == 0 && Flip(x, 0) == x
    ensures Flip(x, y) == 0 ==> x == y
  {
  }

  lemma FitsBelowTop(x: bv64, full: bv64, half: bv64, top: bv64)
    requires Common(x, full) == x && Flip(half, top) == full && Common(x, top) == 0
    ensures Common(x, half) == x
  {
  }

  lemma TopBit(x: bv64, w: nat)
    requires IsWidth(w) && Common(x, Top(w)) != 0
    ensures Common(x, Top(w)) == Top(w)
  {
    if w == 2 {} else if w == 4 {} else if w == 8 {} else if w == 16 {} else if w == 32 {}
  }

  lemma InvertedFits(x: bv64, full: bv64, half: bv64, top: bv64)
    requires Common(x, full) == x && Flip(half, top) == full && Common(half, top) == 0 && Common(x, top) == top
    ensures Common(Flip(x, full), half) == Flip(x, full)
  {
  }

  /** What is left once the highest run has been flipped is below it. */
  lemma FlippedIsLower(x: bv64, hsb: nat, lsb: nat)
    requires hsb < 64 && Shr(x, hsb) == 1 && Shr(Flip(x, Low(hsb + 1)), lsb) == 1
    ensures lsb < hsb
  {
    ShiftOfFlip(x, Low(hsb + 1), hsb);
    LowShifted(hsb + 1, hsb);
    LowValues();
    FlipAgain(1, 1);
    if lsb >= hsb {
      ShiftedOutFurther(Flip(x, Low(hsb + 1)), hsb, lsb);
    }
  }

  lemma HighestIsInside(x: bv64, n: nat, hsb: nat)
    requires Fits(x, n) && n <= 64 && Shr(x, hsb) == 1
    ensures hsb < n
  {
    ShiftedOut(x, n);
    if hsb >= n {
      ShiftedOutFurther(x, n, hsb);
    }
  }

  /** `value` as `findBitRange` sees it first: without its top bit. */
  lemma WithoutTop(value: bv64, w: nat)
    requires IsWidth(w) && Fits(value, w) && value != 0 && value != Low(w)
    ensures var inverted := Common(value, Top(w)) != 0;
            var x := if inverted then Flip(value, Low(w)) else value;
            x != 0 && Fits(x, w - 1)
  {
    WidthFacts(w);
    FlipAgain(value, Low(w));
    if Common(value, Top(w)) != 0 {
      TopBit(value, w);
      InvertedFits(value, Low(w), Low(w - 1), Top(w));
    } else {
      FitsBelowTop(value, Low(w), Low(w - 1), Top(w));
    }
  }

  ghost predicate IsPattern(value: bv64, w: nat)
    requires IsWidth(w)
  {
    exists h: nat, l: nat, inverted :: IsRange(w, h, l) && value == Pattern(w, h, l, inverted)
  }

  /** What `findBitRange` flips away, in order: the inversion, the highest run, the run below it. */
  ghost predicate Peeled(value: bv64, w: nat, inverted: bool, x: bv64, hsb: nat, y: bv64)
    requires IsWidth(w)
  {
    && inverted == (Common(value, Top(w)) != 0)
    && x == (if inverted then Flip(value, Low(w)) else value)
    && Shr(x, hsb) == 1 && hsb < 64
    && y == Flip(x, Low(hsb + 1))
  }

  lemma PeelsPattern(value: bv64, w: nat, inverted: bool, x: bv64, hsb: nat, y: bv64, h: nat, l: nat, inv: bool)
    requires IsWidth(w) && Peeled(value, w, inverted, x, hsb, y)
    requires IsRange(w, h, l) && value == Pattern(w, h, l, inv)
    ensures hsb == h && y == Low(l)
  {
    var range := Flip(Low(h + 1), Low(l));
    PatternTop(w, h, l, inv);
    WidthFacts(w);
    FlipAgain(Low(w), range);
    RangeHighest(h, l);
    HighestIsUnique(range, hsb, h);
    FlipAgain(Low(h + 1), Low(l));
  }

  lemma PeelsLow(y: bv64, l: nat, lsb: nat)
    requires y == Low(l) && 0 < l <= 64 && Shr(y, lsb) == 1
    ensures lsb + 1 == l
  {
    LowShifted(l, l - 1);
    LowValues();
    HighestIsUnique(y, lsb, l - 1);
  }

  lemma NoPattern(value: bv64, w: nat, inverted: bool, x: bv64, hsb: nat, y: bv64, lsb: nat)
    requires IsWidth(w) && Peeled(value, w, inverted, x, hsb, y)
    requires y != 0 && lsb < 64 && Shr(y, lsb) == 1 && Flip(y, Low(lsb + 1)) != 0
    ensures !IsPattern(value, w)
  {
    forall h: nat, l: nat, inv | IsRange(w, h, l) ensures value != Pattern(w, h, l, inv) {
      if value == Pattern(w, h, l, inv) {
        PeelsPattern(value, w, inverted, x, hsb, y, h, l, inv);
        if l > 0 {
          PeelsLow(y, l, lsb);
          FlipAgain(y, y);
        }
        assert false;
      }
    }
  }

  /** The first half of `findBitRange`: the inversion and the highest run. */
  method FindHighestRun(value: bv64, w: nat) returns (inverted: bool, hsb: nat, y: bv64, ghost x: bv64)
    requires IsWidth(w) && Fits(value, w) && value != 0 && value != Low(w)
    ensures Peeled(value, w, inverted, x, hsb, y) && hsb <= w - 2
  {
    WithoutTop(value, w);
    MaskIsLow(w - 1);
    inverted := Common(value, Top(w)) != 0;
    var flipped := if inverted then Flip(value, Mask(w - 1)) else value;
    hsb := HighestSetBit(flipped);
    HighestIsInside(flipped, w - 1, hsb);
    MaskIsLow(hsb);
    x, y := flipped, Flip(flipped, Mask(hsb));
  }

  /** One run, down to the lowest bit. */
  lemma FoundFirst(value: bv64, w: nat, inverted: bool, x: bv64, hsb: nat)
    requires IsWidth(w) && Peeled(value, w, inverted, x, hsb, 0) && hsb <= w - 2
    ensures IsRange(w, hsb, 0) && value == Pattern(w, hsb, 0, inverted) && IsPattern(value, w)
  {
    assert Low(0) == 0;
    FoundRange(value, w, inverted, x, hsb, 0, 0);
  }

  /** A run, and one below it. */
  lemma FoundSecond(value: bv64, w: nat, inverted: bool, x: bv64, hsb: nat, y: bv64, lsb: nat)
    requires IsWidth(w) && Peeled(value, w, inverted, x, hsb, y) && hsb <= w - 2
    requires lsb < 64 && Shr(y, lsb) == 1 && Flip(y, Low(lsb + 1)) == 0
    ensures IsRange(w, hsb, lsb + 1) && value == Pattern(w, hsb, lsb + 1, inverted) && IsPattern(value, w)
  {
    FlippedIsLower(x, hsb, lsb);
    FlipAgain(y, Low(lsb + 1));
    FoundRange(value, w, inverted, x, hsb, y, lsb + 1);
  }

  /** `findBitRange`: finds the range just when there is one. */
  method FindBitRange(value: bv64, w: nat) returns (ok: bool, hsb: nat, lsb: nat, inverted: bool)
    requires IsWidth(w) && Fits(value, w) && value != 0 && value != Low(w)
    ensures ok <==> IsPattern(value, w)
    ensures ok ==> IsRange(w, hsb, lsb) && value == Pattern(w, hsb, lsb, inverted)
  {
    var y;
    ghost var x;
    inverted, hsb, y, x := FindHighestRun(value, w);
    if y == 0 {
      FoundFirst(value, w, inverted, x, hsb);
      return true, hsb, 0, inverted;
    }
    lsb := HighestSetBit(y);
    MaskIsLow(lsb);
    if Flip(y, Mask(lsb)) == 0 {
      FoundSecond(value, w, inverted, x, hsb, y, lsb);
      return true, hsb, lsb + 1, inverted;
    }
    NoPattern(value, w, inverted, x, hsb, y, lsb);
    return false, hsb, lsb, inverted;
  }

  lemma FoundRange(value: bv64, w: nat, inverted: bool, x: bv64, hsb: nat, y: bv64, l: nat)
    requires IsWidth(w) && Peeled(value, w, inverted, x, hsb, y) && y == Low(l)
    ensures value == Pattern(w, hsb, l, inverted)
    ensures IsRange(w, hsb, l) ==> IsPattern(value, w)
  {
    FlipAgain(x, Low(hsb + 1));
    FlipAgain(value, Low(w));
    FlipCommutes(value, Low(w));
    FlipCommutes(y, Low(hsb + 1));
    FlipCommutes(x, Low(w));
  }

  lemma FlipCommutes(x: bv64, y: bv64)
    ensures Flip(x, y) == Flip(y, x)
  {
  }

  // ----- rotated runs -----

  /** A rotation right by one place within a width. */
  function RotateOne(x: bv64, w: nat): (r: bv64)
    requires IsWidth(w)
  {
    if Common(x, 1) == 1 then With(Half(x), Top(w)) else Half(x)
  }

  function Rotate(x: bv64, r: nat, w: nat): (y: bv64)
    requires IsWidth(w)
  {
    if r == 0 then x else RotateOne(Rotate(x, r - 1, w), w)
  }

  lemma RotateClear(x: bv64, w: nat, y: bv64)
    requires IsWidth(w) && Common(x, 1) == 0 && Half(x) == y
    ensures RotateOne(x, w) == y
  {
  }

  lemma RotateSet(x: bv64, w: nat, y: bv64, z: bv64)
    requires IsWidth(w) && Common(x, 1) == 1 && Half(x) == y && With(y, Top(w)) == z
    ensures RotateOne(x, w) == z
  {
  }

  lemma FlipLowest(x: bv64, y: bv64)
    ensures Common(Flip(x, y), 1) == Flip(Common(x, 1), Common(y, 1))
    ensures Flip(0, 0) == 0 && Flip(0, 1) == 1 && Flip(1, 0) == 1 && Flip(1, 1) == 0
  {
  }

  lemma SetTop(full: bv64, half: bv64, x: bv64, top: bv64)
    requires Common(x, top) == 0 && Flip(half, top) == full && Common(half, top) == 0
    ensures With(Flip(half, x), top) == Flip(full, x) && With(x, top) == Flip(full, Flip(half, x))
  {
    SetTopOutside(full, half, x, top);
    SetTopInside(full, half, x, top);
  }

  lemma SetTopOutside(full: bv64, half: bv64, x: bv64, top: bv64)
    requires Common(x, top) == 0 && Flip(half, top) == full && Common(half, top) == 0
    ensures With(Flip(half, x), top) == Flip(full, x)
  {
  }

  lemma SetTopInside(full: bv64, half: bv64, x: bv64, top: bv64)
    requires Common(x, top) == 0 && Flip(half, top) == full && Common(half, top) == 0
    ensures With(x, top) == Flip(full, Flip(half, x))
  {
    FlipMisses(half, x, top);
    FlipAgain(half, x);
    FlipCommutes(half, Flip(half, x));
    SetTopOutside(full, half, Flip(half, x), top);
  }

  /** A range inside the width moves down one place. */
  lemma RangeMoves(h: nat, l: nat)
    requires l <= h < 63
    ensures var range := Flip(Low(h + 2), Low(l + 1)); Common(range, 1) == 0 && Half(range) == Flip(Low(h + 1), Low(l))
  {
    LowHalves(h + 2);
    LowHalves(l + 1);
    FlipHalves(Low(h + 2), Low(l + 1));
    FlipLowest(Low(h + 2), Low(l + 1));
  }

  lemma StepInside(w: nat, h: nat, l: nat)
    requires IsWidth(w) && IsRange(w, h + 1, l + 1)
    ensures RotateOne(Pattern(w, h + 1, l + 1, false), w) == Pattern(w, h, l, false)
  {
    RangeMoves(h, l);
    RotateClear(Flip(Low(h + 2), Low(l + 1)), w, Flip(Low(h + 1), Low(l)));
  }

  lemma StepInsideInverted(w: nat, h: nat, l: nat)
    requires IsWidth(w) && IsRange(w, h + 1, l + 1)
    ensures RotateOne(Pattern(w, h + 1, l + 1, true), w) == Pattern(w, h, l, true)
  {
    var range, moved := Flip(Low(h + 2), Low(l + 1)), Flip(Low(h + 1), Low(l));
    RangeMoves(h, l);
    LowHalves(w);
    FlipHalves(Low(w), range);
    FlipLowest(Low(w), range);
    MovedMisses(w, h, l);
    SetTop(Low(w), Low(w - 1), moved, Top(w));
    RotateSet(Flip(Low(w), range), w, Flip(Low(w - 1), moved), Flip(Low(w), moved));
  }

  lemma MovedMisses(w: nat, h: nat, l: nat)
    requires IsWidth(w) && IsRange(w, h + 1, l + 1)
    ensures Common(Flip(Low(h + 1), Low(l)), Top(w)) == 0
    ensures Flip(Low(w - 1), Top(w)) == Low(w) && Common(Low(w - 1), Top(w)) == 0
  {
    WidthFacts(w);
    LowMissesTop(h + 1, w);
    LowMissesTop(l, w);
    FlipMisses(Low(h + 1), Low(l), Top(w));
  }

  /** A range at the bottom comes in again at the top, as the other kind of range. */
  lemma StepRound(w: nat, h: nat, top: nat)
    requires IsWidth(w) && IsRange(w, h, 0) && top == w - 2
    ensures RotateOne(Pattern(w, h, 0, false), w) == Pattern(w, top, h, true)
  {
    LowHalves(h + 1);
    WidthFacts(w);
    LowMissesTop(h, w);
    RunIsPattern(w, h);
    SetTop(Low(w), Low(w - 1), Low(h), Top(w));
    RotateSet(Low(h + 1), w, Low(h), Flip(Low(w), Flip(Low(w - 1), Low(h))));
  }

  lemma StepRoundInverted(w: nat, h: nat, top: nat)
    requires IsWidth(w) && IsRange(w, h, 0) && top == w - 2
    ensures RotateOne(Pattern(w, h, 0, true), w) == Pattern(w, top, h, false)
  {
    LowHalves(h + 1);
    LowHalves(w);
    RunIsPattern(w, h);
    FlipHalves(Low(w), Low(h + 1));
    FlipLowest(Low(w), Low(h + 1));
    RotateClear(Flip(Low(w), Low(h + 1)), w, Flip(Low(w - 1), Low(h)));
  }

  lemma RunIsPattern(w: nat, s: nat)
    requires IsWidth(w)
    ensures Low(s + 1) == Pattern(w, s, 0, false) && Flip(Low(w), Low(s + 1)) == Pattern(w, s, 0, true)
  {
    FlipAgain(Low(s + 1), 0);
    assert Low(0) == 0;
  }

  lemma OneMore(x: bv64, r: nat, w: nat, p: bv64, q: bv64)
    requires IsWidth(w) && r > 0 && Rotate(x, r - 1, w) == p && RotateOne(p, w) == q
    ensures Rotate(x, r, w) == q
  {
  }

  /** Up to `s + 1` places, a run of `s + 1` bits is an inverted range. */
  lemma {:induction false} RotatedRound(w: nat, s: nat, r: nat, h: nat, l: nat)
    requires IsWidth(w) && s <= w - 2 && 0 < r <= s + 1 && h == w - 1 - r && l == s + 1 - r
    ensures Rotate(Low(s + 1), r, w) == Pattern(w, h, l, true)
    decreases r
  {
    if r == 1 {
      RunIsPattern(w, s);
      StepRound(w, s, h);
      OneMore(Low(s + 1), r, w, Pattern(w, s, 0, false), Pattern(w, h, l, true));
    } else {
      RotatedRound(w, s, r - 1, h + 1, l + 1);
      RoundNext(w, s, r, h, l);
    }
  }

  lemma RoundNext(w: nat, s: nat, r: nat, h: nat, l: nat)
    requires IsWidth(w) && r > 0 && IsRange(w, h + 1, l + 1) && Rotate(Low(s + 1), r - 1, w) == Pattern(w, h + 1, l + 1, true)
    ensures Rotate(Low(s + 1), r, w) == Pattern(w, h, l, true)
  {
    StepInsideInverted(w, h, l);
    OneMore(Low(s + 1), r, w, Pattern(w, h + 1, l + 1, true), Pattern(w, h, l, true));
  }

  lemma FurtherNext(w: nat, s: nat, r: nat, h: nat, l: nat)
    requires IsWidth(w) && r > 0 && IsRange(w, h + 1, l + 1) && Rotate(Low(s + 1), r - 1, w) == Pattern(w, h + 1, l + 1, false)
    ensures Rotate(Low(s + 1), r, w) == Pattern(w, h, l, false)
  {
    StepInside(w, h, l);
    OneMore(Low(s + 1), r, w, Pattern(w, h + 1, l + 1, false), Pattern(w, h, l, false));
  }

  /** Further round it is a range again. */
  lemma {:induction false} RotatedFurther(w: nat, s: nat, r: nat, h: nat, l: nat)
    requires IsWidth(w) && s <= w - 2 && s + 1 < r < w && h == w - r + s && l == w - r
    ensures Rotate(Low(s + 1), r, w) == Pattern(w, h, l, false)
    decreases r
  {
    if r == s + 2 {
      RotatedRound(w, s, s + 1, l, 0);
      StepRoundInverted(w, l, h);
      OneMore(Low(s + 1), r, w, Pattern(w, l, 0, true), Pattern(w, h, l, false));
    } else {
      RotatedFurther(w, s, r - 1, h + 1, l + 1);
      FurtherNext(w, s, r, h, l);
    }
  }

  /** Every rotated run is a pattern. */
  lemma RotatedIsPattern(w: nat, s: nat, r: nat)
    requires IsWidth(w) && s <= w - 2 && r < w
    ensures IsPattern(Rotate(Low(s + 1), r, w), w)
  {
    if r == 0 {
      RunIsPattern(w, s);
      assert IsRange(w, s, 0);
    } else if r <= s + 1 {
      RotatedRound(w, s, r, w - 1 - r, s + 1 - r);
      assert IsRange(w, w - 1 - r, s + 1 - r);
    } else {
      RotatedFurther(w, s, r, w - r + s, w - r);
      assert IsRange(w, w - r + s, w - r);
    }
  }
}
