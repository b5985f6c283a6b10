/**
  Modified immediate constants of Thumb-2. The reference is `ThumbExpandImm`, section A6.3.2 of ARM DDI 0406C.
 */
module ThumbImmediate {
  import opened Shared

  // ----- ThumbExpandImm -----

  function TopByte(e: bv32): (r: bv32) { 0x80 | (e & 0x7f) }
  function Rotation(e: bv32): (r: bv32)
    ensures r < 32
  {
    (e >> 7) & 0x1f
  }

  /** A byte in one of four arrangements, or a byte with its top bit set rotated right by eight or more places. */
  function ThumbExpandImm(e: bv32): (r: bv32) {
    if e & 0xc00 == 0 then
      var b := e & 0xff;
      if e & 0x300 == 0 then b
      else if e & 0x300 == 0x100 then b | (b << 16)
      else if e & 0x300 == 0x200 then (b << 8) | (b << 24)
      else b | (b << 8) | (b << 16) | (b << 24)
    else RotateRight(TopByte(e), Rotation(e))
  }

  /** The arrangements of a zero byte, which the architecture leaves unpredictable. */
  predicate IsUnpredictable(e: bv32) {
    e & 0xc00 == 0 && e & 0x300 != 0 && e & 0xff == 0
  }

  // ----- countLeadingZeros -----

  /** Shifts, by name. */
  function Up(x: bv32, n: bv32): (r: bv32)
    requires n < 32
  {
    x << n
  }

  function Down(x: bv32, n: bv32): (r: bv32)
    requires n < 32
  {
    x >> n
  }

  /** The highest set bit of the value has `zeros` bits above it. */
  predicate HasZeros(value: bv32, zeros: bv32) {
    zeros < 32 && Down(value, 31 - zeros) == 1
  }

  lemma HighestIsUnique(x: bv32, a: bv32, b: bv32)
    requires a < 32 && b < 32 && Down(x, a) == 1 && Down(x, b) == 1
    ensures a == b
  {
  }

  /** `countLeadingZeros`, by binary search. */
  method CountLeadingZeros(value: bv32) returns (zeros: bv32)
    ensures value == 0 ==> zeros == 32
    ensures value != 0 ==> HasZeros(value, zeros)
  {
    if value == 0 {
      return 32;
    }
    var x := value;
    zeros := 0;
    if x & 0xffff_0000 != 0 { x := x >> 16; } else { zeros := zeros + 16; }
    if x & 0xffff_ff00 != 0 { x := x >> 8; } else { zeros := zeros + 8; }
    if x & 0xffff_fff0 != 0 { x := x >> 4; } else { zeros := zeros + 4; }
    if x & 0xffff_fffc != 0 { x := x >> 2; } else { zeros := zeros + 2; }
    if x & 0xffff_fffe != 0 { x := x >> 1; } else { zeros := zeros + 1; }
  }

  // ----- makeEncodedImm -----

  lemma ShiftedByte(b: bv32, s: bv32)
    requires 0x80 <= b <= 0xff && s <= 24
    ensures Down(Up(b, s), s) == b && Down(Up(b, s), 7 + s) == 1
  {
  }

  lemma RotatedByte(b: bv32, n: bv32)
    requires 0x80 <= b <= 0xff && 8 <= n < 32
    ensures RotateRight(b, n) == Up(b, 32 - n)
  {
    ShiftedOut(b, n);
    OrNothing(b << (32 - n));
  }

  lemma ShiftedOut(b: bv32, n: bv32)
    requires b <= 0xff && 8 <= n < 32
    ensures b >> n == 0
  {
  }

  lemma OrNothing(x: bv32)
    ensures 0 | x == x
  {
  }

  /** Exactly the immediates whose fields select the rotated form. */
  predicate IsRotated(e: bv32) {
    e & 0xc00 != 0
  }

  lemma RotatedFields(lz: bv32, b: bv32, e: bv32)
    requires lz < 24 && 0x80 <= b <= 0xff && e == (b & 0x7f) | ((8 + lz) << 7)
    ensures e <= 0xfff && IsRotated(e) && TopByte(e) == b && Rotation(e) == 8 + lz
  {
  }

  lemma ByteOnTop(value: bv32, lz: bv32, b: bv32)
    requires lz < 24 && HasZeros(value, lz) && b == Down(value, 24 - lz)
    ensures 0x80 <= b <= 0xff
  {
    SevenBelow(lz);
    ShiftsAdd(value, 24 - lz);
  }

  lemma SevenBelow(lz: bv32)
    requires lz < 24
    ensures 24 - lz <= 24 && (24 - lz) + 7 == 31 - lz < 32
    ensures 8 <= 8 + lz < 32 && 32 - (8 + lz) == 24 - lz
  {
  }

  lemma ShiftsAdd(value: bv32, s: bv32)
    requires s <= 24
    ensures Down(value, s) >> 7 == Down(value, s + 7)
  {
  }

  lemma NotAByte(value: bv32, lz: bv32)
    requires HasZeros(value, lz) && value >= 256
    ensures lz < 24
  {
  }

  /** The value is one byte, with its highest bit below `lz` zeros. */
  predicate IsByteBelow(value: bv32, lz: bv32)
    requires lz < 24
  {
    value == Up(Down(value, 24 - lz), 24 - lz)
  }

  lemma Place(s: bv32, lz: bv32)
    requires s <= 24 && lz < 24 && 31 - lz == 7 + s
    ensures 24 - lz == s
  {
  }

  lemma ShiftedAtTop(value: bv32, b: bv32, s: bv32, lz: bv32)
    requires 0x80 <= b <= 0xff && s <= 24 && value == Up(b, s) && lz < 24 && HasZeros(value, lz)
    ensures IsByteBelow(value, lz)
  {
    ShiftedByte(b, s);
    HighestIsUnique(value, 31 - lz, 7 + s);
    Place(s, lz);
  }

  lemma ExpandsRotated(e: bv32)
    requires IsRotated(e)
    ensures ThumbExpandImm(e) == RotateRight(TopByte(e), Rotation(e))
  {
  }

  /** A rotated immediate is a byte shifted into place, and the leading zeros say where. */
  lemma RotatedIsShifted(e: bv32, value: bv32, lz: bv32)
    requires e <= 0xfff && IsRotated(e) && ThumbExpandImm(e) == value && lz < 24 && HasZeros(value, lz)
    ensures IsByteBelow(value, lz)
  {
    var b, n := TopByte(e), Rotation(e);
    ExpandsRotated(e);
    RotationAmount(e, n, b);
    RotatedByte(b, n);
    UpAmount(n);
    ShiftedAtTop(value, b, 32 - n, lz);
  }

  lemma UpAmount(n: bv32)
    requires 8 <= n < 32
    ensures 32 - n <= 24
  {
  }

  lemma RotationAmount(e: bv32, n: bv32, b: bv32)
    requires e <= 0xfff && IsRotated(e) && n == Rotation(e) && b == TopByte(e)
    ensures 8 <= n < 32 && 0x80 <= b <= 0xff
  {
  }

  lemma NoEncoding(value: bv32, lz: bv32)
    requires value >= 256 && lz < 24 && HasZeros(value, lz) && !IsByteBelow(value, lz)
    requires !IsArranged(value)
    ensures forall e: bv32 :: e <= 0xfff ==> ThumbExpandImm(e) != value
  {
    forall e: bv32 | e <= 0xfff ensures ThumbExpandImm(e) != value {
      if ThumbExpandImm(e) == value {
        if IsRotated(e) {
          RotatedIsShifted(e, value, lz);
        } else {
          ArrangedBytes(e, value);
        }
      }
    }
  }

  lemma EncodesShifted(value: bv32, lz: bv32, b: bv32, e: bv32)
    requires lz < 24 && HasZeros(value, lz) && b == Down(value, 24 - lz) && value == Up(b, 24 - lz)
    requires e == (b & 0x7f) | ((8 + lz) << 7)
    ensures e <= 0xfff && ThumbExpandImm(e) == value && !IsUnpredictable(e)
  {
    ByteOnTop(value, lz, b);
    RotatedFields(lz, b, e);
    ExpandsRotated(e);
    SevenBelow(lz);
    RotatedByte(b, 8 + lz);
  }

  predicate IsArranged(value: bv32) {
    var byte0, byte1, byte2, byte3 := value & 0xff, (value >> 8) & 0xff, (value >> 16) & 0xff, value >> 24;
    || (byte0 == byte1 && byte0 == byte2 && byte0 == byte3)
    || (byte0 == byte2 && byte1 | byte3 == 0)
    || (byte1 == byte3 && byte0 | byte2 == 0)
  }

  lemma FourCopies(value: bv32, b: bv32)
    requires value >= 256 && b == value & 0xff && b == (value >> 8) & 0xff && b == (value >> 16) & 0xff && b == value >> 24
    ensures b | 0x300 <= 0xfff && ThumbExpandImm(b | 0x300) == value && !IsUnpredictable(b | 0x300)
  {
    assert value == b | (b << 8) | (b << 16) | (b << 24) && b <= 0xff;
  }

  lemma LowCopies(value: bv32, b: bv32)
    requires value >= 256 && b == value & 0xff && b == (value >> 16) & 0xff && ((value >> 8) & 0xff) | (value >> 24) == 0
    ensures b | 0x100 <= 0xfff && ThumbExpandImm(b | 0x100) == value && !IsUnpredictable(b | 0x100)
  {
    assert value == b | (b << 16) && b <= 0xff;
  }

  lemma HighCopies(value: bv32, b: bv32)
    requires value >= 256 && b == (value >> 8) & 0xff && b == value >> 24 && (value & 0xff) | ((value >> 16) & 0xff) == 0
    ensures b | 0x200 <= 0xfff && ThumbExpandImm(b | 0x200) == value && !IsUnpredictable(b | 0x200)
  {
    assert value == (b << 8) | (b << 24) && b <= 0xff;
  }

  /** The last three cases of `makeEncodedImm`. */
  method MakeArranged(value: bv32) returns (r: Option<bv32>)
    requires value >= 256
    ensures r.Some? <==> IsArranged(value)
    ensures r.Some? ==> r.value <= 0xfff && ThumbExpandImm(r.value) == value && !IsUnpredictable(r.value)
  {
    var byte0, byte1 := value & 0xff, (value >> 8) & 0xff;
    var byte2, byte3 := (value >> 16) & 0xff, value >> 24;
    if byte0 == byte1 && byte0 == byte2 && byte0 == byte3 {
      FourCopies(value, byte0);
      return Some(byte0 | 0x300);
    }
    if byte0 == byte2 && byte1 | byte3 == 0 {
      LowCopies(value, byte0);
      return Some(byte0 | 0x100);
    }
    if byte1 == byte3 && byte0 | byte2 == 0 {
      HighCopies(value, byte1);
      return Some(byte1 | 0x200);
    }
    return None;
  }

  /** `makeEncodedImm`: an encoding that expands to the value, just when there is one. */
  method MakeEncodedImm(value: bv32) returns (r: Option<bv32>)
    ensures r.Some? ==> r.value <= 0xfff && ThumbExpandImm(r.value) == value && !IsUnpredictable(r.value)
    ensures r.None? ==> forall e: bv32 :: e <= 0xfff ==> ThumbExpandImm(e) != value
  {
    if value < 256 {
      return Some(value);
    }
    var lz := CountLeadingZeros(value);
    NotAByte(value, lz);
    if value == Up(Down(value, 24 - lz), 24 - lz) {
      var b := Down(value, 24 - lz);
      var e := (b & 0x7f) | ((8 + lz) << 7);
      EncodesShifted(value, lz, b, e);
      return Some(e);
    }
    r := MakeArranged(value);
    if r.None? {
      NoEncoding(value, lz);
    }
  }

  lemma ArrangedBytes(e: bv32, value: bv32)
    requires !IsRotated(e) && ThumbExpandImm(e) == value
    ensures value < 256 || IsArranged(value)
  {
  }
}
