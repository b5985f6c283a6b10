/**
  The comparison macros of the generated keyword matcher: several characters at once, read from memory as one number on
  little-endian machines. Whatever the character type and the machine, they compare character by character.
 */
module KeywordCompares {
  /** 8-bit or 16-bit characters. */
  datatype Chars = LChars | UChars

  /** Machines that cannot read unaligned numbers, that can, and that can read 64 bits as well. */
  datatype Machine = Aligned | Pairs | Quads

  type Unit = bv16

  predicate AreUnits(k: Chars, s: seq<Unit>) {
    k.LChars? ==> forall i :: 0 <= i < |s| ==> s[i] <= 0xff
  }

  // ----- the numbers that are compared -----

  function LPair(a: Unit, b: Unit): (r: bv16) { (b << 8) + a }
  function LQuad(ab: bv16, cd: bv16): (r: bv32) { ((cd as bv32) << 16) + (ab as bv32) }
  function UPair(a: Unit, b: Unit): (r: bv32) { ((b as bv32) << 16) + (a as bv32) }
  function UQuad(ab: bv32, cd: bv32): (r: bv64) { ((cd as bv64) << 32) + (ab as bv64) }

  // What memory holds, lowest part first.
  function LoadL2(a: Unit, b: Unit): (r: bv16) { a | (b << 8) }
  function LoadL4(ab: bv16, cd: bv16): (r: bv32) { (ab as bv32) | ((cd as bv32) << 16) }
  function LoadU2(a: Unit, b: Unit): (r: bv32) { (a as bv32) | ((b as bv32) << 16) }
  function LoadU4(ab: bv32, cd: bv32): (r: bv64) { (ab as bv64) | ((cd as bv64) << 32) }

  lemma LPairIsLoad(a: bv16, b: bv16)
    requires a <= 0xff && b <= 0xff
    ensures LPair(a, b) == LoadL2(a, b)
  {
  }

  lemma LoadL2Splits(a: bv16, b: bv16)
    requires a <= 0xff && b <= 0xff
    ensures LoadL2(a, b) & 0xff == a && LoadL2(a, b) >> 8 == b
  {
  }

  lemma LQuadIsLoad(a: bv16, b: bv16)
    ensures LQuad(a, b) == LoadL4(a, b)
  {
  }

  lemma LoadL4Splits(a: bv16, b: bv16)
    ensures (LoadL4(a, b) & 0xffff) as bv16 == a && (LoadL4(a, b) >> 16) as bv16 == b
  {
  }

  lemma UPairIsLoad(a: bv16, b: bv16)
    ensures UPair(a, b) == LoadU2(a, b)
  {
  }

  lemma LoadU2Splits(a: bv16, b: bv16)
    ensures (LoadU2(a, b) & 0xffff) as bv16 == a && (LoadU2(a, b) >> 16) as bv16 == b
  {
  }

  lemma UQuadIsLoad(a: bv32, b: bv32)
    ensures UQuad(a, b) == LoadU4(a, b)
  {
  }

  lemma LoadU4Splits(a: bv32, b: bv32)
    ensures (LoadU4(a, b) & 0xffff_ffff) as bv32 == a && (LoadU4(a, b) >> 32) as bv32 == b
  {
  }

  lemma LPairs(a: bv16, b: bv16, c: bv16, d: bv16)
    requires a <= 0xff && b <= 0xff && c <= 0xff && d <= 0xff
    ensures LoadL2(a, b) == LPair(c, d) <==> a == c && b == d
  {
    LPairIsLoad(c, d);
    LoadL2Splits(a, b);
    LoadL2Splits(c, d);
  }

  lemma LQuads(a: bv16, b: bv16, c: bv16, d: bv16)
    ensures LoadL4(a, b) == LQuad(c, d) <==> a == c && b == d
  {
    LQuadIsLoad(c, d);
    LoadL4Splits(a, b);
    LoadL4Splits(c, d);
  }

  lemma UPairs(a: bv16, b: bv16, c: bv16, d: bv16)
    ensures LoadU2(a, b) == UPair(c, d) <==> a == c && b == d
  {
    UPairIsLoad(c, d);
    LoadU2Splits(a, b);
    LoadU2Splits(c, d);
  }

  lemma UQuads(a: bv32, b: bv32, c: bv32, d: bv32)
    ensures LoadU4(a, b) == UQuad(c, d) <==> a == c && b == d
  {
    UQuadIsLoad(c, d);
    LoadU4Splits(a, b);
    LoadU4Splits(c, d);
  }

  // ----- the macros -----

  predicate Compare2(k: Chars, m: Machine, code: seq<Unit>, i: nat, cs: seq<Unit>)
    requires |cs| == 2 && i + 2 <= |code|
  {
    if m.Aligned? then code[i] == cs[0] && code[i + 1] == cs[1]
    else if k.LChars? then LoadL2(code[i], code[i + 1]) == LPair(cs[0], cs[1])
    else LoadU2(code[i], code[i + 1]) == UPair(cs[0], cs[1])
  }

  predicate Compare4(k: Chars, m: Machine, code: seq<Unit>, i: nat, cs: seq<Unit>)
    requires |cs| == 4 && i + 4 <= |code|
  {
    if !m.Quads? then Compare2(k, m, code, i, cs[..2]) && Compare2(k, m, code, i + 2, cs[2..])
    else if k.LChars? then
      LoadL4(LoadL2(code[i], code[i + 1]), LoadL2(code[i + 2], code[i + 3])) == LQuad(LPair(cs[0], cs[1]), LPair(cs[2], cs[3]))
    else
      LoadU4(LoadU2(code[i], code[i + 1]), LoadU2(code[i + 2], code[i + 3])) == UQuad(UPair(cs[0], cs[1]), UPair(cs[2], cs[3]))
  }

  /** The macro for as many characters as there are to compare. */
  predicate Compare(k: Chars, m: Machine, code: seq<Unit>, i: nat, cs: seq<Unit>)
    requires 1 <= |cs| <= 8 && i + |cs| <= |code|
  {
    match |cs|
    case 1 => code[i] == cs[0]
    case 2 => Compare2(k, m, code, i, cs)
    case 3 => Compare2(k, m, code, i, cs[..2]) && code[i + 2] == cs[2]
    case 4 => Compare4(k, m, code, i, cs)
    case 5 => Compare4(k, m, code, i, cs[..4]) && code[i + 4] == cs[4]
    case 6 => Compare4(k, m, code, i, cs[..4]) && Compare2(k, m, code, i + 4, cs[4..])
    case 7 => Compare4(k, m, code, i, cs[..4]) && Compare4(k, m, code, i + 3, cs[3..])
    case _ => Compare4(k, m, code, i, cs[..4]) && Compare4(k, m, code, i + 4, cs[4..])
  }

  lemma Compare2IsEquality(k: Chars, m: Machine, code: seq<Unit>, i: nat, cs: seq<Unit>)
    requires |cs| == 2 && i + 2 <= |code| && AreUnits(k, code) && AreUnits(k, cs)
    ensures Compare2(k, m, code, i, cs) <==> code[i..i + 2] == cs
  {
    var a, b, c, d := code[i], code[i + 1], cs[0], cs[1];
    if k.LChars? {
      LPairs(a, b, c, d);
    } else {
      UPairs(a, b, c, d);
    }
    assert code[i..i + 2] == [a, b] && cs == [c, d];
  }

  lemma FourLChars(a: Unit, b: Unit, c: Unit, d: Unit, e: Unit, f: Unit, g: Unit, h: Unit)
    requires a <= 0xff && b <= 0xff && c <= 0xff && d <= 0xff && e <= 0xff && f <= 0xff && g <= 0xff && h <= 0xff
    ensures LoadL4(LoadL2(a, b), LoadL2(c, d)) == LQuad(LPair(e, f), LPair(g, h)) <==> a == e && b == f && c == g && d == h
  {
    LQuads(LoadL2(a, b), LoadL2(c, d), LPair(e, f), LPair(g, h));
    LPairs(a, b, e, f);
    LPairs(c, d, g, h);
  }

  lemma FourUChars(a: Unit, b: Unit, c: Unit, d: Unit, e: Unit, f: Unit, g: Unit, h: Unit)
    ensures LoadU4(LoadU2(a, b), LoadU2(c, d)) == UQuad(UPair(e, f), UPair(g, h)) <==> a == e && b == f && c == g && d == h
  {
    UQuads(LoadU2(a, b), LoadU2(c, d), UPair(e, f), UPair(g, h));
    UPairs(a, b, e, f);
    UPairs(c, d, g, h);
  }

  lemma SplitEquality(code: seq<Unit>, i: nat, n: nat, cs: seq<Unit>)
    requires n <= |cs| && i + |cs| <= |code|
    ensures code[i..i + |cs|] == cs <==> code[i..i + n] == cs[..n] && code[i + n..i + |cs|] == cs[n..]
  {
    var s := code[i..i + |cs|];
    assert s == code[i..i + n] + code[i + n..i + |cs|] && cs == cs[..n] + cs[n..];
    assert code[i..i + n] == s[..n] && code[i + n..i + |cs|] == s[n..];
  }

  lemma Compare4IsEquality(k: Chars, m: Machine, code: seq<Unit>, i: nat, cs: seq<Unit>)
    requires |cs| == 4 && i + 4 <= |code| && AreUnits(k, code) && AreUnits(k, cs)
    ensures Compare4(k, m, code, i, cs) <==> code[i..i + 4] == cs
  {
    if !m.Quads? {
      Compare2IsEquality(k, m, code, i, cs[..2]);
      Compare2IsEquality(k, m, code, i + 2, cs[2..]);
      SplitEquality(code, i, 2, cs);
    } else {
      var a, b, c, d := code[i], code[i + 1], code[i + 2], code[i + 3];
      if k.LChars? {
        FourLChars(a, b, c, d, cs[0], cs[1], cs[2], cs[3]);
      } else {
        FourUChars(a, b, c, d, cs[0], cs[1], cs[2], cs[3]);
      }
      assert code[i..i + 4] == [a, b, c, d] && cs == [cs[0], cs[1], cs[2], cs[3]];
    }
  }

  lemma OneIsEquality(code: seq<Unit>, i: nat, c: Unit)
    requires i < |code|
    ensures code[i..i + 1] == [c] <==> code[i] == c
  {
  }

  lemma OverlapIsEquality(code: seq<Unit>, i: nat, cs: seq<Unit>)
    requires |cs| == 7 && i + 7 <= |code|
    ensures code[i..i + 4] == cs[..4] && code[i + 3..i + 7] == cs[3..] <==> code[i..i + 7] == cs
  {
    SplitEquality(code, i, 4, cs);
    SplitEquality(code, i, 3, cs);
    if code[i + 3..i + 7] == cs[3..] {
      assert forall j :: 1 <= j < 4 ==> code[i + 3..i + 7][j] == cs[3..][j];
      assert code[i + 4..i + 7] == code[i + 3..i + 7][1..] && cs[4..] == cs[3..][1..];
    }
  }

  lemma Compare3IsEquality(k: Chars, m: Machine, code: seq<Unit>, i: nat, cs: seq<Unit>)
    requires |cs| == 3 && i + 3 <= |code| && AreUnits(k, code) && AreUnits(k, cs)
    ensures Compare2(k, m, code, i, cs[..2]) && code[i + 2] == cs[2] <==> code[i..i + 3] == cs
  {
    Compare2IsEquality(k, m, code, i, cs[..2]);
    OneIsEquality(code, i + 2, cs[2]);
    assert cs[2..] == [cs[2]];
    SplitEquality(code, i, 2, cs);
  }

  /** A macro compares the characters one by one. */
  lemma CompareIsEquality(k: Chars, m: Machine, code: seq<Unit>, i: nat, cs: seq<Unit>)
    requires 1 <= |cs| <= 8 && i + |cs| <= |code| && AreUnits(k, code) && AreUnits(k, cs)
    ensures Compare(k, m, code, i, cs) <==> code[i..i + |cs|] == cs
  {
    if |cs| == 1 {
      OneIsEquality(code, i, cs[0]);
      assert cs == [cs[0]];
    } else if |cs| == 2 {
      Compare2IsEquality(k, m, code, i, cs);
    } else if |cs| == 3 {
      Compare3IsEquality(k, m, code, i, cs);
    } else if |cs| == 4 {
      Compare4IsEquality(k, m, code, i, cs);
    } else {
      LongCompareIsEquality(k, m, code, i, cs);
    }
  }

  lemma LongCompareIsEquality(k: Chars, m: Machine, code: seq<Unit>, i: nat, cs: seq<Unit>)
    requires 5 <= |cs| <= 8 && i + |cs| <= |code| && AreUnits(k, code) && AreUnits(k, cs)
    ensures Compare(k, m, code, i, cs) <==> code[i..i + |cs|] == cs
  {
    Compare4IsEquality(k, m, code, i, cs[..4]);
    SplitEquality(code, i, 4, cs);
    if |cs| == 5 {
      OneIsEquality(code, i + 4, cs[4]);
      assert cs[4..] == [cs[4]];
    } else if |cs| == 6 {
      Compare2IsEquality(k, m, code, i + 4, cs[4..]);
    } else if |cs| == 7 {
      Compare4IsEquality(k, m, code, i + 3, cs[3..]);
      OverlapIsEquality(code, i, cs);
    } else {
      Compare4IsEquality(k, m, code, i + 4, cs[4..]);
    }
  }
}
