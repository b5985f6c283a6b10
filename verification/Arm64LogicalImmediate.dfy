/**
  Logical immediates of ARM64: which 32- and 64-bit numbers an `and`, `orr` or `eor` can carry, and how they are encoded.
  The reference is the pseudocode function `DecodeBitMasks` of the Arm Architecture Reference Manual (DDI 0487).
 */
module Arm64LogicalImmediate {
  import opened Shared
  import opened Arm64BitRanges

  const INVALID := -1

  // ----- repeated elements -----

  function Double(x: bv64): (r: bv64) { x << 1 }

  /** A left shift, one place at a time. */
  function Shl(x: bv64, n: nat): (r: bv64) {
    if n == 0 then x else Double(Shl(x, n - 1))
  }

  /** Two copies of an element of width `w`, side by side. */
  function Twice(x: bv64, w: nat): (r: bv64) {
    With(x, Shl(x, w))
  }

  /** Copies of an element of width `w` until they fill `m` bits. */
  function RepeatTo(x: bv64, w: nat, m: nat): (r: bv64)
    requires IsWidth(w) && IsWidth(m)
    decreases 64 - w
  {
    if w >= m then x else RepeatTo(Twice(x, w), 2 * w, m)
  }

  function Repeat(x: bv64, w: nat): (r: bv64)
    requires IsWidth(w)
  {
    RepeatTo(x, w, 64)
  }

  // ----- DecodeBitMasks -----

  /** The element size, from the highest set bit of immN and the complement of imms; zero if there is none. */
  function ElementSize(immN: nat, imms: nat): (w: nat)
    requires imms < 64
    ensures w == 0 || IsWidth(w)
  {
    if immN == 1 then 64
    else
      var complement := 63 - imms;
      if complement >= 32 then 32 else if complement >= 16 then 16 else if complement >= 8 then 8
      else if complement >= 4 then 4 else if complement >= 2 then 2 else 0
  }

  /** The fields of an encoding. */
  function ImmN(e: nat): (r: nat) { (e / 4096) % 2 }
  function Immr(e: nat): (r: nat) { (e / 64) % 64 }
  function Imms(e: nat): (r: nat) { e % 64 }

  /** A run of `S + 1` bits, rotated by `R` within its element, repeated. */
  function DecodeFields(immN: nat, immr: nat, imms: nat): (r: Option<bv64>)
    requires imms < 64
  {
    var w := ElementSize(immN, imms);
    if w == 0 || imms % w == w - 1 then None else Some(Repeat(Rotate(Low(imms % w + 1), immr % w, w), w))
  }

  /** The number an encoding stands for. */
  function DecodeBitMasks(e: nat): (r: Option<bv64>) {
    DecodeFields(ImmN(e), Immr(e), Imms(e))
  }

  function SizeOf(e: nat): (w: nat)
    ensures w == 0 || IsWidth(w)
  {
    ElementSize(ImmN(e), Imms(e))
  }

  /** No encoding whose elements have width `w` or less stands for `x`. */
  ghost predicate Misses(x: bv64, w: nat) {
    forall e: nat :: SizeOf(e) <= w ==> DecodeBitMasks(e) != Some(x)
  }

  /** `v`, repeated, is not the meaning of any encoding whose elements have width `w` or less. */
  ghost predicate NotEncodable(v: bv64, w: nat)
    requires IsWidth(w)
  {
    Misses(Repeat(v, w), w)
  }

  // ----- encoding -----

  function Pack(immN: nat, immr: nat, imms: nat): (e: nat) {
    immN * 4096 + immr * 64 + imms
  }

  lemma Unpack(immN: nat, immr: nat, imms: nat)
    requires immN < 2 && immr < 64 && imms < 64
    ensures var e := Pack(immN, immr, imms); ImmN(e) == immN && Immr(e) == immr && Imms(e) == imms && e < 8192
  {
  }

  function NBit(w: nat): (r: nat) {
    if w == 64 then 1 else 0
  }

  /** The ones that imms starts with when the element is narrower than 64 bits. */
  function LeadingOnes(w: nat): (r: nat)
    requires IsWidth(w)
  {
    if w == 64 then 0 else 64 - 2 * w
  }

  lemma SizeIsEncoded(w: nat, s: nat)
    requires IsWidth(w) && s < w
    ensures LeadingOnes(w) + s < 64 && ElementSize(NBit(w), LeadingOnes(w) + s) == w
    ensures (LeadingOnes(w) + s) % w == s
  {
    if w == 2 {} else if w == 4 {} else if w == 8 {} else if w == 16 {} else if w == 32 {}
  }

  lemma FieldsDecode(immN: nat, immr: nat, imms: nat, w: nat, s: nat)
    requires imms < 64 && ElementSize(immN, imms) == w && IsWidth(w) && imms % w == s && s <= w - 2 && immr % w == immr
    ensures DecodeFields(immN, immr, imms) == Some(Repeat(Rotate(Low(s + 1), immr, w), w))
  {
  }

  lemma Packed(w: nat, immr: nat, imms: nat)
    requires IsWidth(w) && immr < w && imms < 64
    ensures var immN := NBit(w);
            var e := Pack(immN, immr, imms);
            e < 8192 && (w < 64 ==> e < 4096) && DecodeBitMasks(e) == DecodeFields(immN, immr, imms)
  {
    Unpack(NBit(w), immr, imms);
  }

  lemma EncodesRotated(w: nat, s: nat, r: nat)
    requires IsWidth(w) && s <= w - 2 && r < w
    ensures var e := Pack(NBit(w), r, LeadingOnes(w) + s);
            e < 8192 && (w < 64 ==> e < 4096) && DecodeBitMasks(e) == Some(Repeat(Rotate(Low(s + 1), r, w), w))
  {
    SizeIsEncoded(w, s);
    SmallRemainder(r, w);
    Packed(w, r, LeadingOnes(w) + s);
    FieldsDecode(NBit(w), r, LeadingOnes(w) + s, w, s);
  }

  lemma SmallRemainder(r: nat, w: nat)
    requires r < w
    ensures r % w == r
  {
  }

  /** The range is a run of `s + 1` bits, rotated by `r`. */
  predicate IsRotation(w: nat, hsb: nat, lsb: nat, inverted: bool, r: nat, s: nat)
    requires IsWidth(w) && IsRange(w, hsb, lsb)
  {
    s <= w - 2 && r < w && Rotate(Low(s + 1), r, w) == Pattern(w, hsb, lsb, inverted)
  }

  lemma InvertedRotation(w: nat, hsb: nat, lsb: nat)
    requires IsWidth(w) && IsRange(w, hsb, lsb)
    ensures IsRotation(w, hsb, lsb, true, (w - 1) - hsb, (w - ((hsb - lsb) + 1)) - 1)
  {
    RotatedRound(w, (w - ((hsb - lsb) + 1)) - 1, (w - 1) - hsb, hsb, lsb);
  }

  lemma PlainRotation(w: nat, hsb: nat, lsb: nat)
    requires IsWidth(w) && IsRange(w, hsb, lsb)
    ensures IsRotation(w, hsb, lsb, false, if lsb == 0 then 0 else w - lsb, hsb - lsb)
  {
    if lsb == 0 {
      RunIsPattern(w, hsb);
    } else {
      RotatedFurther(w, hsb - lsb, w - lsb, hsb, lsb);
    }
  }

  /** `encodeLogicalImmediate`: the fields of a range. */
  method EncodeLogicalImmediate(w: nat, hsb: nat, lsb: nat, inverted: bool) returns (e: nat)
    requires IsWidth(w) && IsRange(w, hsb, lsb)
    ensures e < 8192 && (w < 64 ==> e < 4096)
    ensures DecodeBitMasks(e) == Some(Repeat(Pattern(w, hsb, lsb, inverted), w))
  {
    var r, s;
    if inverted {
      r, s := (w - 1) - hsb, (w - ((hsb - lsb) + 1)) - 1;
      InvertedRotation(w, hsb, lsb);
    } else {
      r, s := if lsb == 0 then 0 else w - lsb, hsb - lsb;
      PlainRotation(w, hsb, lsb);
    }
    assert IsRotation(w, hsb, lsb, inverted, r, s);
    EncodesRotated(w, s, r);
    return Pack(NBit(w), r, LeadingOnes(w) + s);
  }

  // ----- which numbers have an encoding -----

  /** Every encoding stands for a pattern of its width, repeated. */
  lemma DecodesToPattern(e: nat)
    requires DecodeBitMasks(e).Some?
    ensures var w := SizeOf(e);
            IsWidth(w) && (w == 64 <==> ImmN(e) == 1)
            && exists x :: IsPattern(x, w) && DecodeBitMasks(e) == Some(Repeat(x, w))
  {
    var w := SizeOf(e);
    RotatedIsPattern(w, Imms(e) % w, Immr(e) % w);
  }

  lemma FlipFits(x: bv64, y: bv64, m: bv64)
    requires Common(x, m) == x && Common(y, m) == y
    ensures Common(Flip(x, y), m) == Flip(x, y)
  {
  }

  lemma PatternFits(w: nat, h: nat, l: nat, inverted: bool)
    requires IsWidth(w) && IsRange(w, h, l)
    ensures Fits(Pattern(w, h, l, inverted), w)
  {
    LowNests(h + 1, w);
    LowNests(l, w);
    LowNests(w, w);
    FlipFits(Low(h + 1), Low(l), Low(w));
    FlipFits(Low(w), Flip(Low(h + 1), Low(l)), Low(w));
  }

  lemma PatternsFit(x: bv64, w: nat)
    requires IsWidth(w) && IsPattern(x, w)
    ensures Fits(x, w)
  {
    var h: nat, l: nat, inverted :| IsRange(w, h, l) && x == Pattern(w, h, l, inverted);
    PatternFits(w, h, l, inverted);
  }

  // Splitting a number into a lower and an upper part, at any place.

  lemma WithParts(a: bv64, b: bv64, m: bv64)
    ensures Common(With(a, b), m) == With(Common(a, m), Common(b, m))
  {
    assert With(a, b) == a | b && Common(a, m) == a & m && Common(b, m) == b & m;
    PartsOfEither(a, b, m);
  }

  lemma PartsOfEither(a: bv64, b: bv64, m: bv64)
    ensures Common(a | b, m) == With(a & m, b & m)
  {
  }

  lemma HalfOfWith(a: bv64, b: bv64)
    ensures Half(With(a, b)) == With(Half(a), Half(b))
  {
    assert With(a, b) == a | b;
    HalvesOfEither(a, b);
  }

  lemma HalvesOfEither(a: bv64, b: bv64)
    ensures Half(a | b) == With(a >> 1, b >> 1)
  {
  }

  lemma {:induction false} ShrOfWith(a: bv64, b: bv64, n: nat)
    ensures Shr(With(a, b), n) == With(Shr(a, n), Shr(b, n))
    decreases n
  {
    if n > 0 {
      HalfOfWith(a, b);
      ShrOfWith(Half(a), Half(b), n - 1);
    }
  }

  lemma DoubleOfCommon(a: bv64, b: bv64)
    ensures Common(Double(a), Grow(b)) == Double(Common(a, b))
  {
    assert Common(a, b) == a & b && Double(a) == a << 1 && Grow(b) == (b << 1) | 1;
    DoublesOfBoth(a, b);
  }

  lemma DoublesOfBoth(a: bv64, b: bv64)
    ensures Common(a << 1, (b << 1) | 1) == Double(a & b)
  {
  }

  lemma {:induction false} ShlMissesLow(x: bv64, n: nat)
    ensures Common(Shl(x, n), Low(n)) == 0
  {
    if n > 0 {
      ShlMissesLow(x, n - 1);
      DoubleOfCommon(Shl(x, n - 1), Low(n - 1));
      assert Double(0) == 0;
    } else {
      assert Common(x, 0) == 0;
    }
  }

  lemma {:induction false} ShlFits(x: bv64, m: nat, n: nat)
    requires Fits(x, m)
    ensures Fits(Shl(x, n), m + n)
    decreases n
  {
    if n > 0 {
      ShlFits(x, m, n - 1);
      DoubleOfCommon(Shl(x, n - 1), Low(m + n - 1));
    }
  }

  lemma HalfOfDouble(x: bv64)
    requires Common(x, 0x7fff_ffff_ffff_ffff) == x
    ensures Half(Double(x)) == x
  {
  }

  lemma FitsWider(x: bv64, n: nat, m: nat)
    requires Fits(x, n) && n <= m
    ensures Fits(x, m)
  {
    LowNests(n, m);
    NestedFits(x, Low(n), Low(m));
  }

  lemma NestedFits(x: bv64, small: bv64, big: bv64)
    requires Common(x, small) == x && Common(small, big) == small
    ensures Common(x, big) == x
  {
  }

  lemma {:induction false} ShrOfShl(x: bv64, m: nat, n: nat)
    requires Fits(x, m) && m + n <= 64
    ensures Shr(Shl(x, n), n) == x
    decreases n
  {
    if n > 0 {
      ShlFits(x, m, n - 1);
      FitsWider(Shl(x, n - 1), m + n - 1, 63);
      HalfOfFitting(Shl(x, n - 1));
      ShrOfShl(x, m, n - 1);
    }
  }

  lemma HalfOfFitting(x: bv64)
    requires Fits(x, 63)
    ensures Half(Double(x)) == x
  {
    LowValues();
    HalfOfDouble(x);
  }

  lemma SplitLowest(v: bv64, m: bv64)
    ensures v == With(Common(v, 1), Double(Half(v)))
    ensures Common(v, Grow(m)) == With(Common(v, 1), Double(Common(Half(v), m)))
  {
    assert Half(v) == v >> 1 && Common(v, 1) == v & 1 && Grow(m) == (m << 1) | 1;
    assert Common(v >> 1, m) == (v >> 1) & m && Double(v >> 1) == (v >> 1) << 1;
    LowestOf(v, m);
  }

  lemma LowestOf(v: bv64, m: bv64)
    ensures v == With(v & 1, (v >> 1) << 1)
    ensures Common(v, (m << 1) | 1) == With(v & 1, Double((v >> 1) & m))
  {
  }

  lemma DoubleOfWith(a: bv64, b: bv64, c: bv64)
    ensures With(c, Double(With(a, b))) == With(With(c, Double(a)), Double(b))
  {
  }

  /** A number is its lower `n` bits with the rest shifted back up. */
  lemma {:induction false} SplitAt(v: bv64, n: nat)
    ensures v == With(Common(v, Low(n)), Shl(Shr(v, n), n))
    decreases n
  {
    if n == 0 {
      assert With(Common(v, 0), v) == v;
    } else {
      var low, high := Common(Half(v), Low(n - 1)), Shl(Shr(Half(v), n - 1), n - 1);
      SplitAt(Half(v), n - 1);
      SplitLowest(v, Low(n - 1));
      DoubleOfWith(low, high, Common(v, 1));
    }
  }

  lemma WithNothing(x: bv64)
    ensures With(x, 0) == x && With(0, x) == x
  {
  }

  lemma TwiceFits(x: bv64, w: nat)
    requires IsWidth(w) && w < 64 && Fits(x, w)
    ensures Fits(Twice(x, w), 2 * w)
  {
    FitsWider(x, w, 2 * w);
    ShlFits(x, w, w);
    WithParts(x, Shl(x, w), Low(2 * w));
  }

  lemma TwiceHasHalves(x: bv64, w: nat)
    requires IsWidth(w) && w < 64 && Fits(x, w)
    ensures Common(Twice(x, w), Low(w)) == x && Shr(Twice(x, w), w) == x
  {
    var up := Shl(x, w);
    ShlMissesLow(x, w);
    WithParts(x, up, Low(w));
    ShrOfWith(x, up, w);
    ShrOfShl(x, w, w);
    ShiftedOut(x, w);
    WithNothing(x);
  }

  lemma CommonTwice(x: bv64, y: bv64)
    ensures Common(Common(x, y), y) == Common(x, y)
  {
  }

  lemma EqualHalvesAreTwice(v: bv64, w: nat)
    requires IsWidth(w) && Common(v, Low(w)) == Shr(v, w) && w < 64
    ensures v == Twice(Common(v, Low(w)), w) && Fits(Common(v, Low(w)), w)
  {
    SplitAt(v, w);
    CommonTwice(v, Low(w));
  }

  lemma CommonNested(x: bv64, big: bv64, small: bv64)
    requires Common(small, big) == small
    ensures Common(Common(x, big), small) == Common(x, small)
  {
  }

  /** Repeating keeps the lowest element. */
  lemma {:induction false} RepeatKeeps(x: bv64, w: nat)
    requires IsWidth(w) && Fits(x, w)
    ensures Common(Repeat(x, w), Low(w)) == x
    decreases 64 - w
  {
    if w < 64 {
      TwiceFits(x, w);
      TwiceHasHalves(x, w);
      RepeatKeeps(Twice(x, w), 2 * w);
      LowNests(w, 2 * w);
      CommonNested(Repeat(x, w), Low(2 * w), Low(w));
    }
  }

  lemma RepeatInjective(x: bv64, y: bv64, w: nat)
    requires IsWidth(w) && Fits(x, w) && Fits(y, w) && Repeat(x, w) == Repeat(y, w)
    ensures x == y
  {
    RepeatKeeps(x, w);
    RepeatKeeps(y, w);
  }

  lemma RepeatUnfolds(x: bv64, w: nat, m: nat)
    requires IsWidth(w) && IsWidth(m) && w < m
    ensures IsWidth(2 * w) && RepeatTo(x, w, m) == RepeatTo(Twice(x, w), 2 * w, m)
  {
  }

  lemma {:induction false} RepeatToFits(x: bv64, w: nat, m: nat)
    requires IsWidth(w) && IsWidth(m) && w <= m && Fits(x, w)
    ensures Fits(RepeatTo(x, w, m), m)
    decreases 64 - w
  {
    if w < m {
      TwiceFits(x, w);
      RepeatUnfolds(x, w, m);
      RepeatToFits(Twice(x, w), 2 * w, m);
    }
  }

  lemma {:induction false} RepeatInSteps(x: bv64, w: nat, m: nat)
    requires IsWidth(w) && IsWidth(m) && w <= m
    ensures Repeat(x, w) == Repeat(RepeatTo(x, w, m), m)
    decreases 64 - w
  {
    if w < m {
      RepeatUnfolds(x, w, 64);
      RepeatUnfolds(x, w, m);
      RepeatInSteps(Twice(x, w), 2 * w, m);
    }
  }

  /** An element of a narrower width, in an encoding of `v`: the halves of `v` are equal. */
  lemma NarrowerHasEqualHalves(v: bv64, half: nat, x: bv64, w: nat)
    requires IsWidth(half) && IsWidth(w) && w <= half < 64
    requires Fits(v, 2 * half) && Fits(x, w) && Repeat(x, w) == Repeat(v, 2 * half)
    ensures Common(v, Low(half)) == Shr(v, half)
  {
    var y := RepeatTo(x, w, half);
    RepeatInSteps(x, w, half);
    RepeatToFits(x, w, half);
    RepeatUnfolds(y, half, 64);
    TwiceFits(y, half);
    TwiceHasHalves(y, half);
    RepeatInjective(v, Twice(y, half), 2 * half);
  }

  /** An encoding with elements as wide as `v` needs `v` to be a pattern. */
  lemma NotAtThisWidth(v: bv64, w: nat, e: nat)
    requires IsWidth(w) && Fits(v, w) && !IsPattern(v, w) && SizeOf(e) == w
    ensures DecodeBitMasks(e) != Some(Repeat(v, w))
  {
    if DecodeBitMasks(e) == Some(Repeat(v, w)) {
      DecodesToPattern(e);
      var x :| IsPattern(x, w) && DecodeBitMasks(e) == Some(Repeat(x, w));
      PatternsFit(x, w);
      RepeatInjective(v, x, w);
      assert false;
    }
  }

  lemma NarrowerMisses(v: bv64, half: nat, x: bv64, w: nat)
    requires IsWidth(half) && half < 64 && Fits(v, 2 * half) && IsWidth(w) && w < 2 * half && IsPattern(x, w)
    requires Common(v, Low(half)) != Shr(v, half)
    ensures Repeat(x, w) != Repeat(v, 2 * half)
  {
    PatternsFit(x, w);
    NextWidth(w, half);
    if Repeat(x, w) == Repeat(v, 2 * half) {
      NarrowerHasEqualHalves(v, half, x, w);
    }
  }

  lemma NotWithUnequalHalves(v: bv64, half: nat, e: nat)
    requires IsWidth(half) && half < 64 && Fits(v, 2 * half) && SizeOf(e) < 2 * half
    requires Common(v, Low(half)) != Shr(v, half)
    ensures DecodeBitMasks(e) != Some(Repeat(v, 2 * half))
  {
    if DecodeBitMasks(e) == Some(Repeat(v, 2 * half)) {
      var w := SizeOf(e);
      DecodesToPattern(e);
      var x :| IsPattern(x, w) && DecodeBitMasks(e) == Some(Repeat(x, w));
      NarrowerMisses(v, half, x, w);
      assert false;
    }
  }

  lemma UnequalHalves(v: bv64, half: nat)
    requires IsWidth(half) && half < 64 && Fits(v, 2 * half) && !IsPattern(v, 2 * half)
    requires Common(v, Low(half)) != Shr(v, half)
    ensures NotEncodable(v, 2 * half)
  {
    var x := Repeat(v, 2 * half);
    forall e: nat | SizeOf(e) <= 2 * half ensures DecodeBitMasks(e) != Some(x) {
      if SizeOf(e) == 2 * half {
        NotAtThisWidth(v, 2 * half, e);
      } else {
        NotWithUnequalHalves(v, half, e);
      }
    }
  }

  lemma RepeatOfEqualHalves(v: bv64, half: nat)
    requires IsWidth(half) && half < 64 && Common(v, Low(half)) == Shr(v, half)
    ensures Repeat(v, 2 * half) == Repeat(Common(v, Low(half)), half)
  {
    var low := Common(v, Low(half));
    EqualHalvesAreTwice(v, half);
    assert RepeatTo(low, half, 64) == RepeatTo(Twice(low, half), 2 * half, 64);
  }

  lemma NextWidth(w: nat, half: nat)
    requires (w == 0 || IsWidth(w)) && IsWidth(half) && w < 2 * half
    ensures w <= half
  {
  }

  lemma EqualHalves(v: bv64, half: nat, low: bv64)
    requires IsWidth(half) && half < 64 && Fits(v, 2 * half) && !IsPattern(v, 2 * half)
    requires Repeat(v, 2 * half) == Repeat(low, half) && NotEncodable(low, half)
    ensures NotEncodable(v, 2 * half)
  {
    var x := Repeat(v, 2 * half);
    forall e: nat | SizeOf(e) <= 2 * half ensures DecodeBitMasks(e) != Some(x) {
      if SizeOf(e) == 2 * half {
        NotAtThisWidth(v, 2 * half, e);
      } else {
        NextWidth(SizeOf(e), half);
      }
    }
  }

  // ----- create32, create64 -----

  lemma HalfIsMixed(v: bv64, half: nat)
    requires IsWidth(half) && half < 64 && Fits(v, 2 * half) && v != 0 && v != Low(2 * half)
    requires Common(v, Low(half)) == Shr(v, half)
    ensures var low := Common(v, Low(half)); Fits(low, half) && low != 0 && low != Low(half)
  {
    var low := Common(v, Low(half));
    EqualHalvesAreTwice(v, half);
    SplitAt(Low(2 * half), half);
    LowNests(half, 2 * half);
    LowShifted(2 * half, half);
    CommonCommutes(Low(half), Low(2 * half));
    SplitAt(0, half);
    ShiftOfZero(half);
    NothingNests(Low(half));
  }

  lemma CommonCommutes(x: bv64, y: bv64)
    ensures Common(x, y) == Common(y, x)
  {
  }

  /** At width two every number that reaches the last step has a range. */
  lemma PairIsPattern(value: bv64, w: nat)
    requires IsWidth(w) && Fits(value, w) && value != 0 && value != Low(w)
    ensures w == 2 ==> IsPattern(value, w)
  {
    if w == 2 {
      LowValues();
      PairBits(value);
      assert Pattern(2, 0, 0, false) == Flip(1, 0) && Pattern(2, 0, 0, true) == Flip(3, Flip(1, 0));
      assert IsRange(2, 0, 0);
    }
  }

  lemma PairBits(value: bv64)
    requires Common(value, 3) == value && value != 0 && value != 3
    ensures value == Flip(1, 0) || value == Flip(3, Flip(1, 0))
  {
  }

  /** The range of a given width, encoded. */
  method EncodeRange(value: bv64, w: nat) returns (r: int)
    requires IsWidth(w) && Fits(value, w) && value != 0 && value != Low(w)
    ensures r == INVALID || 0 <= r < (if w == 64 then 8192 else 4096)
    ensures r != INVALID ==> DecodeBitMasks(r) == Some(Repeat(value, w))
    ensures r == INVALID ==> !IsPattern(value, w) && w > 2
  {
    PairIsPattern(value, w);
    var ok, hsb, lsb, inverted := FindBitRange(value, w);
    if !ok {
      return INVALID;
    }
    r := EncodeLogicalImmediate(w, hsb, lsb, inverted);
  }

  method Halved(w: nat) returns (half: nat)
    requires IsWidth(w) && w > 2
    ensures IsWidth(half) && w == 2 * half
  {
    half := w / 2;
  }

  /** An encoding of `value`, repeated, with N clear; or nothing, if there is none. */
  ghost predicate Creates(value: bv64, w: nat, r: int)
    requires IsWidth(w)
  {
    && (r == INVALID || 0 <= r < 4096)
    && (r != INVALID ==> DecodeBitMasks(r) == Some(Repeat(value, w)))
    && (r == INVALID ==> NotEncodable(value, w))
  }

  /** The steps of `create32`, one for each width: a range of that width, or equal halves and the next width. */
  method CreateAtWidth(value: bv64, w: nat) returns (r: int)
    requires IsWidth(w) && w <= 32 && Fits(value, w) && value != 0 && value != Low(w)
    ensures Creates(value, w, r)
    decreases w, 0
  {
    r := EncodeRange(value, w);
    if r == INVALID {
      var half := Halved(w);
      r := CreateFromHalves(value, half);
    }
  }

  method CreateFromHalves(value: bv64, half: nat) returns (r: int)
    requires IsWidth(half) && half < 32
    requires Fits(value, 2 * half) && value != 0 && value != Low(2 * half) && !IsPattern(value, 2 * half)
    ensures Creates(value, 2 * half, r)
    decreases half, 1
  {
    var low := Common(value, Low(half));
    if low != Shr(value, half) {
      UnequalHalves(value, half);
      return INVALID;
    }
    HalfIsMixed(value, half);
    RepeatOfEqualHalves(value, half);
    r := CreateAtWidth(low, half);
    if r == INVALID {
      EqualHalves(value, half, low);
    }
  }

  lemma WholeFits(value: bv64)
    ensures Fits(value, 64) && (value <= 0xffff_ffff ==> Fits(value, 32))
  {
    LowValues();
  }

  /** `create32`: exactly the 32-bit numbers that have an encoding with N clear are encoded, and decode to themselves. */
  method Create32(value: bv64) returns (r: int)
    requires value <= 0xffff_ffff
    ensures r == INVALID || 0 <= r < 4096
    ensures r != INVALID ==> DecodeBitMasks(r) == Some(Repeat(value, 32))
    ensures r == INVALID ==> NotEncodable(value, 32)
  {
    WholeFits(value);
    LowValues();
    if value == 0 || value == 0xffff_ffff {
      UniformIsNotEncodable(value, 32);
      return INVALID;
    }
    r := CreateAtWidth(value, 32);
  }

  /** `create64`: exactly the 64-bit numbers that have an encoding are encoded, and decode to themselves. */
  method Create64(value: bv64) returns (r: int)
    ensures r == INVALID || 0 <= r < 8192
    ensures r != INVALID ==> DecodeBitMasks(r) == Some(value)
    ensures r == INVALID ==> forall e: nat :: DecodeBitMasks(e) != Some(value)
  {
    WholeFits(value);
    LowValues();
    if value == 0 || value == ALL {
      UniformIsNotEncodable(value, 64);
      NotEncodableAtAll(value);
      return INVALID;
    }
    r := EncodeRange(value, 64);
    if r != INVALID {
      return;
    }
    if Common(value, Low(32)) != Shr(value, 32) {
      UnequalHalves(value, 32);
      NotEncodableAtAll(value);
      return;
    }
    var low := Common(value, Low(32));
    LowWord(value);
    RepeatOfEqualHalves(value, 32);
    r := Create32(low);
    if r == INVALID {
      EqualHalves(value, 32, low);
      NotEncodableAtAll(value);
    }
  }

  lemma LowWord(value: bv64)
    ensures Common(value, Low(32)) <= 0xffff_ffff
  {
    LowValues();
    assert Common(value, 0xffff_ffff) <= 0xffff_ffff;
  }

  lemma NotEncodableAtAll(value: bv64)
    requires NotEncodable(value, 64)
    ensures forall e: nat :: DecodeBitMasks(e) != Some(value)
  {
    forall e: nat ensures DecodeBitMasks(e) != Some(value) {
      assert SizeOf(e) <= 64;
    }
  }

  /** Nothing and everything are not patterns of any width. */
  lemma UniformIsNotPattern(value: bv64, w: nat)
    requires IsWidth(w) && (value == 0 || value == Low(w))
    ensures !IsPattern(value, w)
  {
    forall h: nat, l: nat, inverted | IsRange(w, h, l) ensures value != Pattern(w, h, l, inverted) {
      var range := Flip(Low(h + 1), Low(l));
      RangeIsNotUniform(w, h, l);
      FlipAgain(Low(w), range);
    }
  }

  lemma RangeIsNotUniform(w: nat, h: nat, l: nat)
    requires IsWidth(w) && IsRange(w, h, l)
    ensures var range := Flip(Low(h + 1), Low(l)); range != 0 && range != Low(w)
  {
    RangeHighest(h, l);
    ShiftOfZero(h);
    LowShifted(w, w - 1);
    LowValues();
    if Flip(Low(h + 1), Low(l)) == Low(w) {
      HighestIsUnique(Low(w), h, w - 1);
    }
  }

  lemma UniformHalves(value: bv64, half: nat)
    requires IsWidth(half) && half < 64 && (value == 0 || value == Low(2 * half))
    ensures var low := Common(value, Low(half)); Shr(value, half) == low && low == (if value == 0 then 0 else Low(half))
    ensures Fits(value, 2 * half)
  {
    if value == 0 {
      ZeroHalves(half);
    } else {
      OnesHalves(half);
    }
  }

  lemma ZeroHalves(half: nat)
    ensures Shr(0, half) == 0 && Common(0, Low(half)) == 0 && Fits(0, 2 * half)
  {
    NothingNests(Low(half));
    NothingNests(Low(2 * half));
    ShiftOfZero(half);
  }

  lemma OnesHalves(half: nat)
    requires IsWidth(half) && half < 64
    ensures var ones := Low(2 * half); Shr(ones, half) == Low(half) && Common(ones, Low(half)) == Low(half) && Fits(ones, 2 * half)
  {
    LowNests(half, 2 * half);
    LowNests(2 * half, 2 * half);
    CommonCommutes(Low(half), Low(2 * half));
    LowShifted(2 * half, half);
  }

  lemma UniformPair(value: bv64)
    requires value == 0 || value == Low(2)
    ensures NotEncodable(value, 2)
  {
    NothingNests(Low(2));
    LowNests(2, 2);
    UniformIsNotPattern(value, 2);
    forall e: nat | SizeOf(e) <= 2 ensures DecodeBitMasks(e) != Some(Repeat(value, 2)) {
      if SizeOf(e) == 2 {
        NotAtThisWidth(value, 2, e);
      }
    }
  }

  lemma {:induction false} UniformIsNotEncodable(value: bv64, w: nat)
    requires IsWidth(w) && (value == 0 || value == Low(w))
    ensures NotEncodable(value, w)
    decreases w
  {
    if w == 2 {
      UniformPair(value);
    } else {
      var half := w / 2;
      var low := Common(value, Low(half));
      UniformHalves(value, half);
      RepeatOfEqualHalves(value, half);
      UniformIsNotEncodable(low, half);
      UniformIsNotPattern(value, w);
      EqualHalves(value, half, low);
    }
  }
}
