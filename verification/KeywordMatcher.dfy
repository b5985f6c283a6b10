/**
  The generated keyword matcher: a tree of comparisons, taken without going back. It gives the token of the keyword that
  the input starts with and that no identifier character follows.
 */
module KeywordMatcher {
  import opened Shared
  import opened KeywordTrie
  import opened KeywordShape
  import opened KeywordCompares

  /** The character type, `isIdentPart`, and how the input is compared at a place with one or more characters. */
  datatype Setup = Setup(chars: Chars, isIdentPart: Unit -> bool, compare: (seq<Unit>, nat, seq<Unit>) -> bool)

  /** Comparing with the macros for a machine. */
  function WithMacros(chars: Chars, machine: Machine, isIdentPart: Unit -> bool): (x: Setup) {
    Setup(chars, isIdentPart,
          (code: seq<Unit>, i: nat, cs: seq<Unit>) => 1 <= |cs| <= 8 && i + |cs| <= |code| && Compare(chars, machine, code, i, cs))
  }

  ghost predicate ComparesExactly(x: Setup) {
    forall code, i: nat, cs ::
      1 <= |cs| <= 8 && i + |cs| <= |code| && AreUnits(x.chars, code) && AreUnits(x.chars, cs) ==>
        (x.compare(code, i, cs) <==> code[i..i + |cs|] == cs)
  }

  lemma MacrosCompareExactly(chars: Chars, machine: Machine, isIdentPart: Unit -> bool)
    ensures ComparesExactly(WithMacros(chars, machine, isIdentPart))
  {
    var x := WithMacros(chars, machine, isIdentPart);
    forall code, i: nat, cs | 1 <= |cs| <= 8 && i + |cs| <= |code| && AreUnits(x.chars, code) && AreUnits(x.chars, cs)
      ensures x.compare(code, i, cs) <==> code[i..i + |cs|] == cs
    {
      CompareIsEquality(chars, machine, code, i, cs);
    }
  }

  /** There are macros for up to eight characters. */
  predicate EdgesFit<V>(t: Trie<Unit, V>)
    decreases t
  {
    AllEdgesFit(t.children)
  }

  predicate AllEdgesFit<V>(ts: seq<Trie<Unit, V>>)
    decreases ts
  {
    if ts == [] then true else 1 <= |ts[0].prefix| <= 8 && EdgesFit(ts[0]) && AllEdgesFit(ts[1..])
  }

  function Larger(a: nat, b: nat): (r: nat) {
    if a < b then b else a
  }

  /** `maxLength`: the longest word of the trie below a node with `n` letters. */
  function MaxLength<V>(t: Trie<Unit, V>, n: nat): (r: nat)
    ensures r >= n
    decreases t
  {
    MaxLengthIn(t.children, n)
  }

  function MaxLengthIn<V>(ts: seq<Trie<Unit, V>>, n: nat): (r: nat)
    ensures r >= n
    decreases ts
  {
    if ts == [] then n else Larger(MaxLength(ts[0], n + |ts[0].prefix|), MaxLengthIn(ts[1..], n))
  }

  /** The comparison for an edge: with three letters the one before them is compared again. */
  predicate TakesEdge(x: Setup, full: seq<Unit>, edge: seq<Unit>, code: seq<Unit>)
    requires 1 <= |edge| <= 8 && |full| + |edge| <= |code|
  {
    if |full| > 0 && |edge| == 3 then x.compare(code, |full| - 1, [full[|full| - 1]] + edge)
    else x.compare(code, |full|, edge)
  }

  /** The generated code below a node whose letters, `full`, have been matched. */
  function Decide<V>(x: Setup, t: Trie<Unit, V>, full: seq<Unit>, code: seq<Unit>): (r: Option<V>)
    requires EdgesFit(t) && MaxLength(t, |full|) < |code|
    decreases t
  {
    if t.value.Some? && !x.isIdentPart(code[|full|]) then t.value else DecideIn(x, t.children, full, code)
  }

  function DecideIn<V>(x: Setup, ts: seq<Trie<Unit, V>>, full: seq<Unit>, code: seq<Unit>): (r: Option<V>)
    requires AllEdgesFit(ts) && MaxLengthIn(ts, |full|) < |code|
    decreases ts
  {
    if ts == [] then None
    else if TakesEdge(x, full, ts[0].prefix, code) then Decide(x, ts[0], full + ts[0].prefix, code)
    else DecideIn(x, ts[1..], full, code)
  }

  lemma SliceIsPrefix(code: seq<Unit>, n: nat, s: seq<Unit>)
    requires n + |s| <= |code|
    ensures code[n..n + |s|] == s <==> s <= code[n..]
  {
    assert code[n..n + |s|] == code[n..][..|s|];
  }

  /** An edge is taken just when its letters come next. */
  lemma TakesEdgeIsPrefix(x: Setup, full: seq<Unit>, edge: seq<Unit>, code: seq<Unit>)
    requires 1 <= |edge| <= 8 && |full| + |edge| <= |code| && full <= code
    requires AreUnits(x.chars, code) && AreUnits(x.chars, edge) && ComparesExactly(x)
    ensures TakesEdge(x, full, edge, code) <==> edge <= code[|full|..]
  {
    var n := |full|;
    SliceIsPrefix(code, n, edge);
    if n > 0 && |edge| == 3 {
      var test := [full[n - 1]] + edge;
      assert full[n - 1] == code[n - 1];
      assert x.compare(code, n - 1, test) <==> code[n - 1..n + 3] == test;
      assert code[n - 1..n + 3] == [code[n - 1]] + code[n..n + 3];
      assert test[1..] == edge;
    }
  }

  /** How many identifier characters the input starts with. */
  function IdentRun(x: Setup, code: seq<Unit>): (n: nat)
    ensures n <= |code| && (n < |code| ==> !x.isIdentPart(code[n]))
    ensures forall i :: 0 <= i < n ==> x.isIdentPart(code[i])
    decreases |code|
  {
    if code == [] || !x.isIdentPart(code[0]) then 0 else 1 + IdentRun(x, code[1..])
  }

  /** The characters a keyword may consist of. */
  function Letters(x: Setup): (ok: Unit -> bool) {
    c => x.isIdentPart(c) && (x.chars.LChars? ==> c <= 0xff)
  }

  lemma {:induction false} RunAfter(x: Setup, code: seq<Unit>, n: nat)
    requires n <= IdentRun(x, code)
    ensures IdentRun(x, code[n..]) == IdentRun(x, code) - n
    decreases n
  {
    if n > 0 {
      RunAfter(x, code[1..], n - 1);
      assert code[1..][n - 1..] == code[n..];
    } else {
      assert code[0..] == code;
    }
  }

  /** Letters that come next are within the run. */
  lemma EdgeIsInRun(x: Setup, edge: seq<Unit>, rest: seq<Unit>)
    requires AreLetters(edge, Letters(x))
    ensures edge <= rest <==> edge <= rest[..IdentRun(x, rest)]
  {
    if edge <= rest {
      assert forall i :: 0 <= i < |edge| ==> rest[i] == edge[i] && x.isIdentPart(rest[i]);
    }
  }

  lemma FirstEdge<V>(x: Setup, ts: seq<Trie<Unit, V>>, n: nat)
    requires ts != [] && AllEdgesFit(ts) && AllSpell(ts, Letters(x))
    ensures var edge := ts[0].prefix;
            && 1 <= |edge| <= 8 && AreLetters(edge, Letters(x)) && AreUnits(x.chars, edge)
            && EdgesFit(ts[0]) && Spells(ts[0], Letters(x)) && AllEdgesFit(ts[1..]) && AllSpell(ts[1..], Letters(x))
            && n + |edge| <= MaxLength(ts[0], n + |edge|) <= MaxLengthIn(ts, n) && MaxLengthIn(ts[1..], n) <= MaxLengthIn(ts, n)
  {
  }

  lemma AfterEdge(x: Setup, full: seq<Unit>, edge: seq<Unit>, code: seq<Unit>)
    requires full <= code && AreLetters(edge, Letters(x)) && edge <= code[|full|..]
    ensures full + edge <= code
    ensures var rest, rest' := code[|full|..], code[|full + edge|..];
            rest[..IdentRun(x, rest)][|edge|..] == rest'[..IdentRun(x, rest')]
  {
    var rest := code[|full|..];
    EdgeIsInRun(x, edge, rest);
    assert code[|full + edge|..] == rest[|edge|..];
    RunAfter(x, rest, |edge|);
  }

  lemma {:induction false} DecideIsLookup<V>(x: Setup, t: Trie<Unit, V>, full: seq<Unit>, code: seq<Unit>)
    requires EdgesFit(t) && MaxLength(t, |full|) < |code| && Spells(t, Letters(x))
    requires full <= code && AreUnits(x.chars, code) && ComparesExactly(x)
    ensures var rest := code[|full|..]; Decide(x, t, full, code) == ValueAt(t, rest[..IdentRun(x, rest)])
    decreases t
  {
    DecideInIsLookup(x, t.children, full, code);
  }

  lemma {:induction false} DecideInIsLookup<V>(x: Setup, ts: seq<Trie<Unit, V>>, full: seq<Unit>, code: seq<Unit>)
    requires AllEdgesFit(ts) && MaxLengthIn(ts, |full|) < |code| && AllSpell(ts, Letters(x))
    requires full <= code && AreUnits(x.chars, code) && ComparesExactly(x)
    ensures var rest := code[|full|..]; DecideIn(x, ts, full, code) == ValueIn(ts, rest[..IdentRun(x, rest)])
    decreases ts
  {
    if ts != [] {
      var rest, edge := code[|full|..], ts[0].prefix;
      FirstEdge(x, ts, |full|);
      TakesEdgeIsPrefix(x, full, edge, code);
      EdgeIsInRun(x, edge, rest);
      if edge <= rest {
        AfterEdge(x, full, edge, code);
        DecideIsLookup(x, ts[0], full + edge, code);
      } else {
        DecideInIsLookup(x, ts[1..], full, code);
      }
    }
  }

  // ----- keywords -----

  /** The input starts with the keyword, and no identifier character follows it. */
  predicate IsMatch(x: Setup, k: seq<Unit>, code: seq<Unit>) {
    k <= code && |k| < |code| && !x.isIdentPart(code[|k|])
  }

  lemma MatchIsRun(x: Setup, k: seq<Unit>, code: seq<Unit>)
    requires AreLetters(k, Letters(x))
    ensures IsMatch(x, k, code) <==> k == code[..IdentRun(x, code)] && |k| < |code|
  {
    var run := IdentRun(x, code);
    if IsMatch(x, k, code) {
      assert forall i :: 0 <= i < |k| ==> code[i] == k[i] && x.isIdentPart(code[i]);
      assert run == |k|;
    }
  }

  lemma {:induction false} WordsAreShort<V>(t: Trie<Unit, V>, w: seq<Unit>, n: nat)
    requires ValueAt(t, w).Some?
    ensures n + |w| <= MaxLength(t, n)
    decreases |w|, |t.children| + 1
  {
    if w != [] {
      WordsInAreShort(t.children, w, n);
    }
  }

  lemma {:induction false} WordsInAreShort<V>(ts: seq<Trie<Unit, V>>, w: seq<Unit>, n: nat)
    requires ValueIn(ts, w).Some?
    ensures n + |w| <= MaxLengthIn(ts, n)
    decreases |w|, |ts|
  {
    var edge := ts[0].prefix;
    if edge != [] && edge <= w {
      WordsAreShort(ts[0], w[|edge|..], n + |edge|);
    } else {
      WordsInAreShort(ts[1..], w, n);
    }
  }

  /** Some word is as long as the maximal length says. */
  lemma {:induction false} LongestWord<V>(t: Trie<Unit, V>, n: nat) returns (w: seq<Unit>)
    requires IsTrie(t) && IsGrounded(t)
    ensures ValueAt(t, w).Some? && n + |w| == MaxLength(t, n)
    decreases t
  {
    if t.children == [] {
      w := [];
    } else {
      w := LongestWordIn(t.children, n);
    }
  }

  lemma {:induction false} LongestWordIn<V>(ts: seq<Trie<Unit, V>>, n: nat) returns (w: seq<Unit>)
    requires AreTries(ts) && AllGrounded(ts) && ts != []
    ensures w != [] && ValueIn(ts, w).Some? && n + |w| == MaxLengthIn(ts, n)
    decreases ts
  {
    var edge := ts[0].prefix;
    if MaxLengthIn(ts[1..], n) <= MaxLength(ts[0], n + |edge|) {
      var rest := LongestWord(ts[0], n + |edge|);
      w := edge + rest;
      assert w[|edge|..] == rest;
    } else {
      w := LongestWordIn(ts[1..], n);
      if w[0] == edge[0] {
        NoneStartsIsNone(ts[1..], w);
      }
      FirstLetterDecides(ts, w);
    }
  }

  /** `maxLength` is the length of the longest keyword, and zero if there is none. */
  lemma MaxLengthIsLongest<V>(words: seq<(seq<Unit>, V)>, weights: map<seq<Unit>, int>)
    ensures var n := MaxLength(Compile(words, weights), 0);
            && (forall i :: 0 <= i < |words| ==> |words[i].0| <= n)
            && (if words == [] then n == 0 else exists i :: 0 <= i < |words| && |words[i].0| == n)
  {
    var t := Compile(words, weights);
    forall i | 0 <= i < |words| ensures |words[i].0| <= MaxLength(t, 0) {
      ListedHasValue(words, i);
      CompileHolds(words, weights, words[i].0);
      WordsAreShort(t, words[i].0, 0);
    }
    if words != [] {
      CompileShapes(words, weights);
      CompileHolds(words, weights, []);
      var w := LongestWord(t, 0);
      CompileHolds(words, weights, w);
      var i := ValueIsListed(words, w);
    }
  }

  lemma {:induction false} ListedHasValue<V>(words: seq<(seq<Unit>, V)>, i: nat)
    requires i < |words|
    ensures LastValue(words, words[i].0).Some?
    decreases |words|
  {
    if i < |words| - 1 {
      ListedHasValue(words[..|words| - 1], i);
    }
  }

  lemma {:induction false} ValueIsListed<V>(words: seq<(seq<Unit>, V)>, w: seq<Unit>) returns (i: nat)
    requires LastValue(words, w).Some?
    ensures i < |words| && words[i].0 == w
    decreases |words|
  {
    if words[|words| - 1].0 == w {
      i := |words| - 1;
    } else {
      i := ValueIsListed(words[..|words| - 1], w);
    }
  }

  /** The matcher for a list of keywords. */
  function Classify<V>(x: Setup, words: seq<(seq<Unit>, V)>, weights: map<seq<Unit>, int>, code: seq<Unit>): (r: Option<V>)
    requires EdgesFit(Compile(words, weights)) && MaxLength(Compile(words, weights), 0) < |code|
  {
    Decide(x, Compile(words, weights), [], code)
  }

  /**
    The matcher gives the token of the keyword that the input starts with and that no identifier character follows, and
    nothing when there is none.
   */
  lemma MatcherFindsKeyword<V>(x: Setup, machine: Machine, words: seq<(seq<Unit>, V)>, weights: map<seq<Unit>, int>, code: seq<Unit>)
    requires x == WithMacros(x.chars, machine, x.isIdentPart)
    requires forall i :: 0 <= i < |words| ==> AreLetters(words[i].0, Letters(x))
    requires EdgesFit(Compile(words, weights)) && MaxLength(Compile(words, weights), 0) < |code| && AreUnits(x.chars, code)
    ensures forall k :: AreLetters(k, Letters(x)) && LastValue(words, k).Some? && IsMatch(x, k, code) ==>
              Classify(x, words, weights, code) == LastValue(words, k)
    ensures Classify(x, words, weights, code).Some? ==>
              var k := code[..IdentRun(x, code)];
              IsMatch(x, k, code) && LastValue(words, k) == Classify(x, words, weights, code)
  {
    var t, word := Compile(words, weights), code[..IdentRun(x, code)];
    MacrosCompareExactly(x.chars, machine, x.isIdentPart);
    CompileSpells(words, weights, Letters(x));
    CompileHolds(words, weights, word);
    assert code[0..] == code;
    DecideIsLookup(x, t, [], code);
    forall k | AreLetters(k, Letters(x)) && IsMatch(x, k, code) ensures k == word {
      MatchIsRun(x, k, code);
    }
    if ValueAt(t, word).Some? {
      WordsAreShort(t, word, 0);
    }
  }

  /** Nothing at or beyond `maxTokenLength` is read: the result depends on the characters before it only. */
  lemma MatcherReadsNoFurther<V>(x: Setup, machine: Machine, words: seq<(seq<Unit>, V)>, weights: map<seq<Unit>, int>, code: seq<Unit>)
    requires x == WithMacros(x.chars, machine, x.isIdentPart)
    requires forall i :: 0 <= i < |words| ==> AreLetters(words[i].0, Letters(x))
    requires EdgesFit(Compile(words, weights)) && MaxLength(Compile(words, weights), 0) < |code| && AreUnits(x.chars, code)
    ensures var maxTokenLength := MaxLength(Compile(words, weights), 0) + 1;
            Classify(x, words, weights, code) == Classify(x, words, weights, code[..maxTokenLength])
  {
    var t := Compile(words, weights);
    var short := code[..MaxLength(t, 0) + 1];
    MacrosCompareExactly(x.chars, machine, x.isIdentPart);
    CompileSpells(words, weights, Letters(x));
    assert code[0..] == code && short[0..] == short;
    DecideIsLookup(x, t, [], code);
    DecideIsLookup(x, t, [], short);
    LookupReadsNoFurther(x, t, code, |short|);
  }

  /** A trie holds the same for an identifier run and for what is left of it after cutting past the longest word. */
  lemma LookupReadsNoFurther<V>(x: Setup, t: Trie<Unit, V>, code: seq<Unit>, n: nat)
    requires MaxLength(t, 0) < n <= |code|
    ensures var short := code[..n]; ValueAt(t, code[..IdentRun(x, code)]) == ValueAt(t, short[..IdentRun(x, short)])
  {
    var short := code[..n];
    var word, word' := code[..IdentRun(x, code)], short[..IdentRun(x, short)];
    LongRuns(x, code, n);
    if IdentRun(x, code) < n {
      assert word == word';
    } else {
      if ValueAt(t, word).Some? { WordsAreShort(t, word, 0); }
      if ValueAt(t, word').Some? { WordsAreShort(t, word', 0); }
    }
  }

  lemma LongRuns(x: Setup, code: seq<Unit>, n: nat)
    requires n <= |code|
    ensures var run, run' := IdentRun(x, code), IdentRun(x, code[..n]); run' == if run < n then run else n
  {
    assert forall i :: 0 <= i < n ==> code[..n][i] == code[i];
  }
}
