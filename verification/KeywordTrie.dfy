/**
  The keyword trie: words are inserted letter by letter, chains of single children are merged into one edge, and children
  are sorted by weight. None of this changes which words the trie holds, or their tokens.
 */
module KeywordTrie {
  import opened Shared

  datatype Trie<C, V> = Node(prefix: seq<C>, value: Option<V>, children: seq<Trie<C, V>>)

  // ----- the words of a trie -----

  /** The token of a word that starts after the node's prefix. */
  function ValueAt<C(==), V>(t: Trie<C, V>, w: seq<C>): (r: Option<V>)
    decreases |w|, |t.children| + 1
  {
    if w == [] then t.value else ValueIn(t.children, w)
  }

  /** The token of a word, looked up through the first child that the word goes through. */
  function ValueIn<C(==), V>(ts: seq<Trie<C, V>>, w: seq<C>): (r: Option<V>)
    decreases |w|, |ts|
  {
    if ts == [] || w == [] then None
    else if ts[0].prefix != [] && ts[0].prefix <= w then ValueAt(ts[0], w[|ts[0].prefix|..])
    else ValueIn(ts[1..], w)
  }

  // ----- insert -----

  function Insert<C(==), V>(t: Trie<C, V>, key: seq<C>, value: V): (r: Trie<C, V>)
    decreases |key|, |t.children| + 1
  {
    if key == [] then t.(value := Some(value)) else t.(children := InsertIn(t.children, key, value))
  }

  /** Into the child for the first letter; a new child goes last. */
  function InsertIn<C(==), V>(ts: seq<Trie<C, V>>, key: seq<C>, value: V): (r: seq<Trie<C, V>>)
    requires key != []
    decreases |key|, |ts|
  {
    if ts == [] then [Insert(Node([key[0]], None, []), key[1..], value)]
    else if ts[0].prefix == [key[0]] then [Insert(ts[0], key[1..], value)] + ts[1..]
    else [ts[0]] + InsertIn(ts[1..], key, value)
  }

  function Build<C(==), V>(words: seq<(seq<C>, V)>): (t: Trie<C, V>) {
    if words == [] then Node([], None, [])
    else
      var (k, v) := words[|words| - 1];
      Insert(Build(words[..|words| - 1]), k, v)
  }

  /** The token of a word in the list; a word listed twice has its last token. */
  function LastValue<C(==), V>(words: seq<(seq<C>, V)>, w: seq<C>): (r: Option<V>) {
    if words == [] then None
    else if words[|words| - 1].0 == w then Some(words[|words| - 1].1)
    else LastValue(words[..|words| - 1], w)
  }

  /** Every edge is a single letter. */
  predicate IsLettered<C(==), V>(t: Trie<C, V>)
    decreases t
  {
    AreLettered(t.children)
  }

  predicate AreLettered<C(==), V>(ts: seq<Trie<C, V>>)
    decreases ts
  {
    if ts == [] then true else |ts[0].prefix| == 1 && IsLettered(ts[0]) && AreLettered(ts[1..])
  }

  lemma {:induction false} InsertSets<C, V>(t: Trie<C, V>, key: seq<C>, value: V, w: seq<C>)
    requires IsLettered(t)
    ensures ValueAt(Insert(t, key, value), w) == if w == key then Some(value) else ValueAt(t, w)
    decreases |key|, |t.children| + 1
  {
    if key != [] && w != [] {
      InsertInSets(t.children, key, value, w);
    }
  }

  lemma {:induction false} InsertInSets<C, V>(ts: seq<Trie<C, V>>, key: seq<C>, value: V, w: seq<C>)
    requires AreLettered(ts) && key != [] && w != []
    ensures ValueIn(InsertIn(ts, key, value), w) == if w == key then Some(value) else ValueIn(ts, w)
    decreases |key|, |ts|
  {
    var r := InsertIn(ts, key, value);
    assert w == [w[0]] + w[1..] && key == [key[0]] + key[1..];
    if ts == [] {
      InsertSets(Node([key[0]], None, []), key[1..], value, w[1..]);
    } else if ts[0].prefix == [key[0]] {
      InsertSets(ts[0], key[1..], value, w[1..]);
      assert r[1..] == ts[1..];
    } else {
      assert r[1..] == InsertIn(ts[1..], key, value);
      InsertInSets(ts[1..], key, value, w);
    }
  }

  /** The words of a trie are those that were inserted. */
  lemma {:induction false} BuildHolds<C, V>(words: seq<(seq<C>, V)>, w: seq<C>)
    ensures IsLettered(Build(words)) && IsTrie(Build(words)) && Build(words).prefix == []
    ensures ValueAt(Build(words), w) == LastValue(words, w)
    decreases |words|
  {
    if words != [] {
      var before := words[..|words| - 1];
      var (k, v) := words[|words| - 1];
      BuildHolds(before, w);
      InsertKeepsShape(Build(before), k, v);
      InsertSets(Build(before), k, v, w);
    }
  }

  // ----- shape -----

  /** Edges are not empty, and no two edges of a node start with the same letter. */
  predicate IsTrie<C(==), V>(t: Trie<C, V>)
    decreases t
  {
    AreTries(t.children)
  }

  predicate AreTries<C(==), V>(ts: seq<Trie<C, V>>)
    decreases ts
  {
    if ts == [] then true
    else ts[0].prefix != [] && IsTrie(ts[0]) && NoneStarts(ts[1..], ts[0].prefix[0]) && AreTries(ts[1..])
  }

  predicate NoneStarts<C(==), V>(ts: seq<Trie<C, V>>, c: C) {
    forall i :: 0 <= i < |ts| ==> ts[i].prefix != [] && ts[i].prefix[0] != c
  }

  lemma {:induction false} InsertKeepsShape<C, V>(t: Trie<C, V>, key: seq<C>, value: V)
    requires IsLettered(t) && IsTrie(t)
    ensures IsLettered(Insert(t, key, value)) && IsTrie(Insert(t, key, value)) && Insert(t, key, value).prefix == t.prefix
    decreases |key|, |t.children| + 1
  {
    if key != [] {
      InsertInKeepsShape(t.children, key, value);
    }
  }

  lemma {:induction false} InsertInKeepsShape<C, V>(ts: seq<Trie<C, V>>, key: seq<C>, value: V)
    requires AreLettered(ts) && AreTries(ts) && key != []
    ensures AreLettered(InsertIn(ts, key, value)) && AreTries(InsertIn(ts, key, value))
    ensures forall c :: c != key[0] && NoneStarts(ts, c) ==> NoneStarts(InsertIn(ts, key, value), c)
    decreases |key|, |ts|
  {
    var r := InsertIn(ts, key, value);
    if ts == [] {
      InsertKeepsShape(Node([key[0]], None, []), key[1..], value);
      assert r[1..] == [];
    } else if ts[0].prefix == [key[0]] {
      InsertKeepsShape(ts[0], key[1..], value);
      assert r[1..] == ts[1..];
    } else {
      InsertInKeepsShape(ts[1..], key, value);
      assert r[1..] == InsertIn(ts[1..], key, value);
      forall c | c != key[0] && NoneStarts(ts, c) ensures NoneStarts(r, c) {
        assert forall i :: 0 <= i < |ts[1..]| ==> ts[1..][i] == ts[i + 1];
        assert NoneStarts(r[1..], c) && r[0] == ts[0];
      }
      assert ts[0].prefix[0] != key[0];
    }
  }

  // ----- coalesce -----

  function Coalesce<C, V>(t: Trie<C, V>): (r: Trie<C, V>)
    decreases t
  {
    var ts := CoalesceAll(t.children);
    if t.value.Some? || |ts| != 1 then Node(t.prefix, t.value, ts)
    else Node(t.prefix + ts[0].prefix, ts[0].value, ts[0].children)
  }

  function CoalesceAll<C, V>(ts: seq<Trie<C, V>>): (r: seq<Trie<C, V>>)
    ensures |r| == |ts|
    decreases ts
  {
    if ts == [] then [] else [Coalesce(ts[0])] + CoalesceAll(ts[1..])
  }

  /** The root keeps its place: only what is below it is merged. */
  function CoalesceRoot<C, V>(t: Trie<C, V>): (r: Trie<C, V>) {
    t.(children := CoalesceAll(t.children))
  }

  lemma {:induction false} NoneStartsIsNone<C, V>(ts: seq<Trie<C, V>>, w: seq<C>)
    requires w != [] && NoneStarts(ts, w[0])
    ensures ValueIn(ts, w) == None
    decreases |ts|
  {
    if ts != [] {
      assert forall i :: 0 <= i < |ts[1..]| ==> ts[1..][i] == ts[i + 1];
      NoneStartsIsNone(ts[1..], w);
    }
  }

  /** In a trie a word goes through one child at most. */
  lemma FirstLetterDecides<C, V>(ts: seq<Trie<C, V>>, w: seq<C>)
    requires AreTries(ts) && ts != [] && w != []
    ensures ts[0].prefix[0] == w[0] ==>
              ValueIn(ts, w) == if ts[0].prefix <= w then ValueAt(ts[0], w[|ts[0].prefix|..]) else None
    ensures ts[0].prefix[0] != w[0] ==> ValueIn(ts, w) == ValueIn(ts[1..], w)
  {
    if ts[0].prefix[0] == w[0] {
      NoneStartsIsNone(ts[1..], w);
    }
  }

  lemma {:induction false} CoalesceKeepsShape<C, V>(t: Trie<C, V>)
    requires IsTrie(t)
    ensures IsTrie(Coalesce(t)) && t.prefix <= Coalesce(t).prefix
    decreases t
  {
    CoalesceAllKeepsShape(t.children);
  }

  lemma {:induction false} CoalesceAllKeepsShape<C, V>(ts: seq<Trie<C, V>>)
    requires AreTries(ts)
    ensures AreTries(CoalesceAll(ts))
    ensures forall c :: NoneStarts(ts, c) ==> NoneStarts(CoalesceAll(ts), c)
    decreases ts
  {
    if ts != [] {
      var r := CoalesceAll(ts);
      CoalesceKeepsShape(ts[0]);
      CoalesceAllKeepsShape(ts[1..]);
      assert r[1..] == CoalesceAll(ts[1..]);
      forall c | NoneStarts(ts, c) ensures NoneStarts(r, c) {
        assert forall i :: 0 <= i < |ts[1..]| ==> ts[1..][i] == ts[i + 1];
        assert NoneStarts(r[1..], c) && r[0] == Coalesce(ts[0]);
      }
    }
  }

  /** The token of a word through a node and its own prefix. */
  function Through<C(==), V>(t: Trie<C, V>, w: seq<C>): (r: Option<V>) {
    if t.prefix <= w then ValueAt(t, w[|t.prefix|..]) else None
  }

  lemma ThroughOnlyChild<C, V>(t: Trie<C, V>, u: seq<C>)
    requires t.prefix != []
    ensures u != [] ==> ValueIn([t], u) == Through(t, u)
    ensures u == [] ==> Through(t, u) == None
  {
  }

  lemma SplitPrefix<C>(p: seq<C>, q: seq<C>, w: seq<C>)
    ensures p + q <= w <==> p <= w && q <= w[|p|..]
    ensures p + q <= w ==> w[|p + q|..] == w[|p|..][|q|..]
  {
    if p <= w && q <= w[|p|..] {
      assert w == p + w[|p|..];
    }
    if p + q <= w {
      assert forall i :: 0 <= i < |q| ==> (p + q)[|p| + i] == q[i];
      assert forall i :: 0 <= i < |p| ==> (p + q)[i] == p[i];
    }
  }

  /** Merging a node with its only child. */
  lemma MergeKeepsWords<C, V>(p: seq<C>, c: Trie<C, V>, w: seq<C>)
    requires c.prefix != []
    ensures Through(Node(p + c.prefix, c.value, c.children), w) == Through(Node(p, None, [c]), w)
  {
    var merged := Node(p + c.prefix, c.value, c.children);
    SplitPrefix(p, c.prefix, w);
    if p <= w {
      ThroughOnlyChild(c, w[|p|..]);
      if c.prefix <= w[|p|..] {
        var rest := w[|p|..][|c.prefix|..];
        assert ValueAt(merged, rest) == ValueAt(c, rest);
      }
    }
  }

  lemma {:induction false} CoalesceKeepsWords<C, V>(t: Trie<C, V>, w: seq<C>)
    requires IsTrie(t)
    ensures Through(Coalesce(t), w) == Through(t, w)
    decreases t, 0
  {
    var ts := CoalesceAll(t.children);
    CoalesceAllKeepsShape(t.children);
    if t.prefix <= w && w[|t.prefix|..] != [] {
      CoalesceAllKeepsWords(t.children, w[|t.prefix|..]);
    }
    if t.value.None? && |ts| == 1 {
      assert ts == [ts[0]];
      MergeKeepsWords(t.prefix, ts[0], w);
    }
  }

  lemma {:induction false} CoalesceAllKeepsWords<C, V>(ts: seq<Trie<C, V>>, w: seq<C>)
    requires AreTries(ts) && w != []
    ensures ValueIn(CoalesceAll(ts), w) == ValueIn(ts, w)
    decreases ts, 0
  {
    if ts != [] {
      var r := CoalesceAll(ts);
      CoalesceAllKeepsShape(ts);
      CoalesceKeepsShape(ts[0]);
      FirstLetterDecides(ts, w);
      FirstLetterDecides(r, w);
      assert r[1..] == CoalesceAll(ts[1..]) && r[0].prefix[0] == ts[0].prefix[0];
      CoalesceKeepsWords(ts[0], w);
      CoalesceAllKeepsWords(ts[1..], w);
    }
  }

  // ----- fillOut -----

  /** The weight of a word of the trie; words without one weigh nothing. */
  function OwnWeight<C(==)>(weights: map<seq<C>, int>, full: seq<C>): (r: int) {
    if full in weights then weights[full] else 0
  }

  /** The weight of a node below the prefix `above`: its own and its children's. */
  function Weight<C(==), V>(t: Trie<C, V>, above: seq<C>, weights: map<seq<C>, int>): (r: int)
    decreases t
  {
    var full := above + t.prefix;
    OwnWeight(weights, full) + WeightAll(t.children, full, weights)
  }

  function WeightAll<C(==), V>(ts: seq<Trie<C, V>>, above: seq<C>, weights: map<seq<C>, int>): (r: int)
    decreases ts
  {
    if ts == [] then 0 else Weight(ts[0], above, weights) + WeightAll(ts[1..], above, weights)
  }

  /** The heaviest first; of equal weight the first first. */
  function Place<C(==), V>(t: Trie<C, V>, ts: seq<Trie<C, V>>, above: seq<C>, weights: map<seq<C>, int>): (r: seq<Trie<C, V>>)
    ensures |r| == |ts| + 1
    decreases |ts|
  {
    if ts == [] || Weight(t, above, weights) >= Weight(ts[0], above, weights) then [t] + ts
    else [ts[0]] + Place(t, ts[1..], above, weights)
  }

  function FillOut<C(==), V>(t: Trie<C, V>, above: seq<C>, weights: map<seq<C>, int>): (r: Trie<C, V>)
    decreases t
  {
    t.(children := FillOutAll(t.children, above + t.prefix, weights))
  }

  function FillOutAll<C(==), V>(ts: seq<Trie<C, V>>, above: seq<C>, weights: map<seq<C>, int>): (r: seq<Trie<C, V>>)
    decreases ts
  {
    if ts == [] then [] else Place(FillOut(ts[0], above, weights), FillOutAll(ts[1..], above, weights), above, weights)
  }

  predicate AtMost<C(==), V>(ts: seq<Trie<C, V>>, above: seq<C>, weights: map<seq<C>, int>, bound: int) {
    forall i :: 0 <= i < |ts| ==> Weight(ts[i], above, weights) <= bound
  }

  predicate IsSorted<C(==), V>(ts: seq<Trie<C, V>>, above: seq<C>, weights: map<seq<C>, int>) {
    if ts == [] then true
    else AtMost(ts[1..], above, weights, Weight(ts[0], above, weights)) && IsSorted(ts[1..], above, weights)
  }

  lemma {:induction false} PlaceBounds<C, V>(t: Trie<C, V>, ts: seq<Trie<C, V>>, above: seq<C>, weights: map<seq<C>, int>, bound: int)
    requires Weight(t, above, weights) <= bound && AtMost(ts, above, weights, bound)
    ensures AtMost(Place(t, ts, above, weights), above, weights, bound)
    decreases |ts|
  {
    if ts != [] {
      assert forall i :: 0 <= i < |ts[1..]| ==> ts[1..][i] == ts[i + 1];
      PlaceBounds(t, ts[1..], above, weights, bound);
    }
  }

  lemma {:induction false} PlaceSorts<C, V>(t: Trie<C, V>, ts: seq<Trie<C, V>>, above: seq<C>, weights: map<seq<C>, int>)
    requires IsSorted(ts, above, weights)
    ensures IsSorted(Place(t, ts, above, weights), above, weights)
    decreases |ts|
  {
    var r := Place(t, ts, above, weights);
    if ts == [] || Weight(t, above, weights) >= Weight(ts[0], above, weights) {
      assert r[1..] == ts;
      assert forall i :: 1 <= i < |ts| ==> ts[i] == ts[1..][i - 1];
    } else {
      assert r[1..] == Place(t, ts[1..], above, weights);
      PlaceSorts(t, ts[1..], above, weights);
      PlaceBounds(t, ts[1..], above, weights, Weight(ts[0], above, weights));
    }
  }

  predicate IsSortedBelow<C(==), V>(t: Trie<C, V>, above: seq<C>, weights: map<seq<C>, int>)
    decreases t
  {
    IsSorted(t.children, above + t.prefix, weights) && AreSortedBelow(t.children, above + t.prefix, weights)
  }

  predicate AreSortedBelow<C(==), V>(ts: seq<Trie<C, V>>, above: seq<C>, weights: map<seq<C>, int>)
    decreases ts
  {
    if ts == [] then true else IsSortedBelow(ts[0], above, weights) && AreSortedBelow(ts[1..], above, weights)
  }

  lemma {:induction false} PlaceKeepsSorted<C, V>(t: Trie<C, V>, ts: seq<Trie<C, V>>, above: seq<C>, weights: map<seq<C>, int>)
    requires IsSortedBelow(t, above, weights) && AreSortedBelow(ts, above, weights)
    ensures AreSortedBelow(Place(t, ts, above, weights), above, weights)
    decreases |ts|
  {
    var r := Place(t, ts, above, weights);
    if ts == [] || Weight(t, above, weights) >= Weight(ts[0], above, weights) {
      assert r[1..] == ts;
    } else {
      assert r[1..] == Place(t, ts[1..], above, weights);
      PlaceKeepsSorted(t, ts[1..], above, weights);
    }
  }

  /** The children of every node come out sorted by weight. */
  lemma {:induction false} FillOutSorts<C, V>(t: Trie<C, V>, above: seq<C>, weights: map<seq<C>, int>)
    ensures IsSortedBelow(FillOut(t, above, weights), above, weights)
    decreases t
  {
    FillOutAllSorts(t.children, above + t.prefix, weights);
  }

  lemma {:induction false} FillOutAllSorts<C, V>(ts: seq<Trie<C, V>>, above: seq<C>, weights: map<seq<C>, int>)
    ensures IsSorted(FillOutAll(ts, above, weights), above, weights)
    ensures AreSortedBelow(FillOutAll(ts, above, weights), above, weights)
    decreases ts
  {
    if ts != [] {
      var t, rest := FillOut(ts[0], above, weights), FillOutAll(ts[1..], above, weights);
      FillOutSorts(ts[0], above, weights);
      FillOutAllSorts(ts[1..], above, weights);
      PlaceSorts(t, rest, above, weights);
      PlaceKeepsSorted(t, rest, above, weights);
    }
  }

  lemma {:induction false} PlaceKeeps<C, V>(t: Trie<C, V>, ts: seq<Trie<C, V>>, above: seq<C>, weights: map<seq<C>, int>)
    requires t.prefix != [] && IsTrie(t) && AreTries(ts) && NoneStarts(ts, t.prefix[0])
    ensures AreTries(Place(t, ts, above, weights))
    ensures forall c :: c != t.prefix[0] && NoneStarts(ts, c) ==> NoneStarts(Place(t, ts, above, weights), c)
    ensures forall w :: w != [] ==> ValueIn(Place(t, ts, above, weights), w) == ValueIn([t] + ts, w)
    decreases |ts|
  {
    if ts == [] || Weight(t, above, weights) >= Weight(ts[0], above, weights) {
      assert ([t] + ts)[1..] == ts;
    } else {
      var rest := ts[1..];
      var r := Place(t, ts, above, weights);
      assert r[1..] == Place(t, rest, above, weights) && forall i :: 0 <= i < |rest| ==> rest[i] == ts[i + 1];
      PlaceKeeps(t, rest, above, weights);
      forall c | c != t.prefix[0] && NoneStarts(ts, c) ensures NoneStarts(r, c) {
        assert NoneStarts(rest, c) && NoneStarts(r[1..], c);
      }
      forall w: seq<C> | w != [] ensures ValueIn(r, w) == ValueIn([t] + ts, w) {
        SwapFirst(t, ts, w);
        assert ValueIn(r[1..], w) == ValueIn([t] + rest, w);
      }
    }
  }

  /** Two children with different first letters can be tried in either order. */
  lemma SwapFirst<C, V>(t: Trie<C, V>, ts: seq<Trie<C, V>>, w: seq<C>)
    requires w != [] && ts != [] && t.prefix != [] && ts[0].prefix != [] && t.prefix[0] != ts[0].prefix[0]
    ensures ValueIn([t] + ts, w)
         == if ts[0].prefix <= w then ValueAt(ts[0], w[|ts[0].prefix|..]) else ValueIn([t] + ts[1..], w)
  {
    assert ([t] + ts)[1..] == ts && ([t] + ts[1..])[1..] == ts[1..];
  }

  lemma {:induction false} FillOutKeeps<C, V>(t: Trie<C, V>, above: seq<C>, weights: map<seq<C>, int>)
    requires IsTrie(t)
    ensures IsTrie(FillOut(t, above, weights)) && FillOut(t, above, weights).prefix == t.prefix
    ensures forall w :: ValueAt(FillOut(t, above, weights), w) == ValueAt(t, w)
    decreases t
  {
    FillOutAllKeeps(t.children, above + t.prefix, weights);
  }

  lemma {:induction false} FillOutAllKeeps<C, V>(ts: seq<Trie<C, V>>, above: seq<C>, weights: map<seq<C>, int>)
    requires AreTries(ts)
    ensures AreTries(FillOutAll(ts, above, weights))
    ensures forall c :: NoneStarts(ts, c) ==> NoneStarts(FillOutAll(ts, above, weights), c)
    ensures forall w :: w != [] ==> ValueIn(FillOutAll(ts, above, weights), w) == ValueIn(ts, w)
    decreases ts
  {
    if ts != [] {
      var t, rest := FillOut(ts[0], above, weights), FillOutAll(ts[1..], above, weights);
      FillOutKeeps(ts[0], above, weights);
      FillOutAllKeeps(ts[1..], above, weights);
      PlaceKeeps(t, rest, above, weights);
      assert forall i :: 0 <= i < |ts[1..]| ==> ts[1..][i] == ts[i + 1];
      forall c | NoneStarts(ts, c) ensures NoneStarts(Place(t, rest, above, weights), c) {
        assert NoneStarts(ts[1..], c);
      }
      forall w: seq<C> | w != [] ensures ValueIn(FillOutAll(ts, above, weights), w) == ValueIn(ts, w) {
        assert ([t] + rest)[1..] == rest;
        assert ValueIn([t] + rest, w) == ValueIn(ts, w);
      }
    }
  }

  // ----- the letters on the edges -----

  predicate AreLetters<C>(s: seq<C>, ok: C -> bool) {
    forall i :: 0 <= i < |s| ==> ok(s[i])
  }

  /** All letters below a node are of a kind. */
  predicate Spells<C(==), V>(t: Trie<C, V>, ok: C -> bool)
    decreases t
  {
    AllSpell(t.children, ok)
  }

  predicate AllSpell<C(==), V>(ts: seq<Trie<C, V>>, ok: C -> bool)
    decreases ts
  {
    if ts == [] then true else AreLetters(ts[0].prefix, ok) && Spells(ts[0], ok) && AllSpell(ts[1..], ok)
  }

  lemma {:induction false} InsertSpells<C, V>(t: Trie<C, V>, key: seq<C>, value: V, ok: C -> bool)
    requires Spells(t, ok) && AreLetters(key, ok)
    ensures Spells(Insert(t, key, value), ok) && Insert(t, key, value).prefix == t.prefix
    decreases |key|, |t.children| + 1
  {
    if key != [] {
      InsertInSpells(t.children, key, value, ok);
    }
  }

  lemma {:induction false} InsertInSpells<C, V>(ts: seq<Trie<C, V>>, key: seq<C>, value: V, ok: C -> bool)
    requires AllSpell(ts, ok) && key != [] && AreLetters(key, ok)
    ensures AllSpell(InsertIn(ts, key, value), ok)
    decreases |key|, |ts|
  {
    var r := InsertIn(ts, key, value);
    if ts == [] {
      InsertSpells(Node([key[0]], None, []), key[1..], value, ok);
    } else if ts[0].prefix == [key[0]] {
      InsertSpells(ts[0], key[1..], value, ok);
      assert r[1..] == ts[1..];
    } else {
      InsertInSpells(ts[1..], key, value, ok);
      assert r[1..] == InsertIn(ts[1..], key, value);
    }
  }

  lemma {:induction false} CoalesceSpells<C, V>(t: Trie<C, V>, ok: C -> bool)
    requires Spells(t, ok) && AreLetters(t.prefix, ok)
    ensures Spells(Coalesce(t), ok) && AreLetters(Coalesce(t).prefix, ok)
    decreases t
  {
    CoalesceAllSpell(t.children, ok);
  }

  lemma {:induction false} CoalesceAllSpell<C, V>(ts: seq<Trie<C, V>>, ok: C -> bool)
    requires AllSpell(ts, ok)
    ensures AllSpell(CoalesceAll(ts), ok)
    decreases ts
  {
    if ts != [] {
      CoalesceSpells(ts[0], ok);
      CoalesceAllSpell(ts[1..], ok);
      assert CoalesceAll(ts)[1..] == CoalesceAll(ts[1..]);
    }
  }

  lemma {:induction false} PlaceSpells<C, V>(t: Trie<C, V>, ts: seq<Trie<C, V>>, above: seq<C>, weights: map<seq<C>, int>, ok: C -> bool)
    requires AreLetters(t.prefix, ok) && Spells(t, ok) && AllSpell(ts, ok)
    ensures AllSpell(Place(t, ts, above, weights), ok)
    decreases |ts|
  {
    var r := Place(t, ts, above, weights);
    if ts == [] || Weight(t, above, weights) >= Weight(ts[0], above, weights) {
      assert r[1..] == ts;
    } else {
      PlaceSpells(t, ts[1..], above, weights, ok);
      assert r[1..] == Place(t, ts[1..], above, weights);
    }
  }

  lemma {:induction false} FillOutSpells<C, V>(t: Trie<C, V>, above: seq<C>, weights: map<seq<C>, int>, ok: C -> bool)
    requires Spells(t, ok)
    ensures Spells(FillOut(t, above, weights), ok)
    decreases t
  {
    FillOutAllSpell(t.children, above + t.prefix, weights, ok);
  }

  lemma {:induction false} FillOutAllSpell<C, V>(ts: seq<Trie<C, V>>, above: seq<C>, weights: map<seq<C>, int>, ok: C -> bool)
    requires AllSpell(ts, ok)
    ensures AllSpell(FillOutAll(ts, above, weights), ok)
    decreases ts
  {
    if ts != [] {
      FillOutSpells(ts[0], above, weights, ok);
      FillOutAllSpell(ts[1..], above, weights, ok);
      PlaceSpells(FillOut(ts[0], above, weights), FillOutAll(ts[1..], above, weights), above, weights, ok);
    }
  }

  lemma {:induction false} BuildSpells<C, V>(words: seq<(seq<C>, V)>, ok: C -> bool)
    requires forall i :: 0 <= i < |words| ==> AreLetters(words[i].0, ok)
    ensures Spells(Build(words), ok)
    decreases |words|
  {
    if words != [] {
      var before := words[..|words| - 1];
      BuildSpells(before, ok);
      InsertSpells(Build(before), words[|words| - 1].0, words[|words| - 1].1, ok);
    }
  }

  /** The compiled trie is spelled with the letters of the words. */
  lemma CompileSpells<C, V>(words: seq<(seq<C>, V)>, weights: map<seq<C>, int>, ok: C -> bool)
    requires forall i :: 0 <= i < |words| ==> AreLetters(words[i].0, ok)
    ensures Spells(Compile(words, weights), ok)
  {
    BuildSpells(words, ok);
    CoalesceAllSpell(Build(words).children, ok);
    FillOutSpells(CoalesceRoot(Build(words)), [], weights, ok);
  }

  // ----- the whole compilation -----

  function Compile<C(==), V>(words: seq<(seq<C>, V)>, weights: map<seq<C>, int>): (t: Trie<C, V>) {
    FillOut(CoalesceRoot(Build(words)), [], weights)
  }

  /** Through inserting, merging and sorting, the trie holds exactly the listed words with their tokens. */
  lemma CompileHolds<C, V>(words: seq<(seq<C>, V)>, weights: map<seq<C>, int>, w: seq<C>)
    ensures IsTrie(Compile(words, weights))
    ensures ValueAt(Compile(words, weights), w) == LastValue(words, w)
  {
    var built := Build(words);
    BuildHolds(words, w);
    CoalesceAllKeepsShape(built.children);
    if w != [] {
      CoalesceAllKeepsWords(built.children, w);
    }
    FillOutKeeps(CoalesceRoot(built), [], weights);
  }

  /** The generator's loop over the keyword list. */
  method CompileWords<C(==), V>(words: seq<(seq<C>, V)>, weights: map<seq<C>, int>) returns (t: Trie<C, V>)
    ensures t == Compile(words, weights)
  {
    t := Node([], None, []);
    for i := 0 to |words|
      invariant t == Build(words[..i])
    {
      var (k, v) := words[i];
      assert words[..i + 1][..i] == words[..i];
      t := Insert(t, k, v);
    }
    assert words[..|words|] == words;
    t := CoalesceRoot(t);
    t := FillOut(t, [], weights);
  }
}
