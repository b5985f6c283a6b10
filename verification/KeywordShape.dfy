/**
  The shape of the compiled trie: chains are merged, every end is a word, and a node weighs what the words below it weigh.
 */
module KeywordShape {
  import opened Shared
  import opened KeywordTrie

  // ----- merged -----

  /** No node without a token has a single child. */
  predicate IsMerged<C(==), V>(t: Trie<C, V>)
    decreases t
  {
    (t.value.Some? || |t.children| != 1) && AllMerged(t.children)
  }

  predicate AllMerged<C(==), V>(ts: seq<Trie<C, V>>)
    decreases ts
  {
    if ts == [] then true else IsMerged(ts[0]) && AllMerged(ts[1..])
  }

  lemma {:induction false} CoalesceMerges<C, V>(t: Trie<C, V>)
    ensures IsMerged(Coalesce(t))
    decreases t
  {
    CoalesceAllMerges(t.children);
  }

  lemma {:induction false} CoalesceAllMerges<C, V>(ts: seq<Trie<C, V>>)
    ensures AllMerged(CoalesceAll(ts))
    decreases ts
  {
    if ts != [] {
      CoalesceMerges(ts[0]);
      CoalesceAllMerges(ts[1..]);
      assert CoalesceAll(ts)[1..] == CoalesceAll(ts[1..]);
    }
  }

  lemma {:induction false} PlaceMerges<C, V>(t: Trie<C, V>, ts: seq<Trie<C, V>>, above: seq<C>, weights: map<seq<C>, int>)
    requires IsMerged(t) && AllMerged(ts)
    ensures AllMerged(Place(t, ts, above, weights))
    decreases |ts|
  {
    var r := Place(t, ts, above, weights);
    if ts == [] || Weight(t, above, weights) >= Weight(ts[0], above, weights) {
      assert r[1..] == ts;
    } else {
      PlaceMerges(t, ts[1..], above, weights);
      assert r[1..] == Place(t, ts[1..], above, weights);
    }
  }

  lemma {:induction false} FillOutMerges<C, V>(t: Trie<C, V>, above: seq<C>, weights: map<seq<C>, int>)
    requires IsMerged(t)
    ensures IsMerged(FillOut(t, above, weights))
    decreases t
  {
    FillOutAllMerges(t.children, above + t.prefix, weights);
  }

  lemma {:induction false} FillOutAllMerges<C, V>(ts: seq<Trie<C, V>>, above: seq<C>, weights: map<seq<C>, int>)
    requires AllMerged(ts)
    ensures AllMerged(FillOutAll(ts, above, weights)) && |FillOutAll(ts, above, weights)| == |ts|
    decreases ts
  {
    if ts != [] {
      FillOutMerges(ts[0], above, weights);
      FillOutAllMerges(ts[1..], above, weights);
      PlaceMerges(FillOut(ts[0], above, weights), FillOutAll(ts[1..], above, weights), above, weights);
    }
  }

  // ----- grounded -----

  /** Every end is a word. */
  predicate IsGrounded<C(==), V>(t: Trie<C, V>)
    decreases t
  {
    (t.children == [] ==> t.value.Some?) && AllGrounded(t.children)
  }

  predicate AllGrounded<C(==), V>(ts: seq<Trie<C, V>>)
    decreases ts
  {
    if ts == [] then true else IsGrounded(ts[0]) && AllGrounded(ts[1..])
  }

  lemma {:induction false} InsertGrounds<C, V>(t: Trie<C, V>, key: seq<C>, value: V)
    requires AllGrounded(t.children)
    ensures IsGrounded(Insert(t, key, value))
    decreases |key|, |t.children| + 1
  {
    if key != [] {
      InsertInGrounds(t.children, key, value);
    }
  }

  lemma {:induction false} InsertInGrounds<C, V>(ts: seq<Trie<C, V>>, key: seq<C>, value: V)
    requires AllGrounded(ts) && key != []
    ensures AllGrounded(InsertIn(ts, key, value)) && InsertIn(ts, key, value) != []
    decreases |key|, |ts|
  {
    var r := InsertIn(ts, key, value);
    if ts == [] {
      InsertGrounds(Node([key[0]], None, []), key[1..], value);
    } else if ts[0].prefix == [key[0]] {
      InsertGrounds(ts[0], key[1..], value);
      assert r[1..] == ts[1..];
    } else {
      InsertInGrounds(ts[1..], key, value);
      assert r[1..] == InsertIn(ts[1..], key, value);
    }
  }

  lemma {:induction false} BuildGrounds<C, V>(words: seq<(seq<C>, V)>)
    ensures AllGrounded(Build(words).children) && (words != [] ==> IsGrounded(Build(words)))
    decreases |words|
  {
    if words != [] {
      var (k, v) := words[|words| - 1];
      BuildGrounds(words[..|words| - 1]);
      InsertGrounds(Build(words[..|words| - 1]), k, v);
    }
  }

  lemma {:induction false} CoalesceGrounds<C, V>(t: Trie<C, V>)
    requires IsGrounded(t)
    ensures IsGrounded(Coalesce(t))
    decreases t
  {
    CoalesceAllGrounds(t.children);
  }

  lemma {:induction false} CoalesceAllGrounds<C, V>(ts: seq<Trie<C, V>>)
    requires AllGrounded(ts)
    ensures AllGrounded(CoalesceAll(ts))
    decreases ts
  {
    if ts != [] {
      CoalesceGrounds(ts[0]);
      CoalesceAllGrounds(ts[1..]);
      assert CoalesceAll(ts)[1..] == CoalesceAll(ts[1..]);
    }
  }

  lemma {:induction false} PlaceGrounds<C, V>(t: Trie<C, V>, ts: seq<Trie<C, V>>, above: seq<C>, weights: map<seq<C>, int>)
    requires IsGrounded(t) && AllGrounded(ts)
    ensures AllGrounded(Place(t, ts, above, weights))
    decreases |ts|
  {
    var r := Place(t, ts, above, weights);
    if ts == [] || Weight(t, above, weights) >= Weight(ts[0], above, weights) {
      assert r[1..] == ts;
    } else {
      PlaceGrounds(t, ts[1..], above, weights);
      assert r[1..] == Place(t, ts[1..], above, weights);
    }
  }

  lemma {:induction false} FillOutGrounds<C, V>(t: Trie<C, V>, above: seq<C>, weights: map<seq<C>, int>)
    requires IsGrounded(t)
    ensures IsGrounded(FillOut(t, above, weights))
    decreases t
  {
    FillOutAllGrounds(t.children, above + t.prefix, weights);
  }

  lemma {:induction false} FillOutAllGrounds<C, V>(ts: seq<Trie<C, V>>, above: seq<C>, weights: map<seq<C>, int>)
    requires AllGrounded(ts)
    ensures AllGrounded(FillOutAll(ts, above, weights)) && |FillOutAll(ts, above, weights)| == |ts|
    decreases ts
  {
    if ts != [] {
      FillOutGrounds(ts[0], above, weights);
      FillOutAllGrounds(ts[1..], above, weights);
      PlaceGrounds(FillOut(ts[0], above, weights), FillOutAll(ts[1..], above, weights), above, weights);
    }
  }

  /** In the compiled trie every chain below the root is merged into one edge, and every end is a word. */
  lemma CompileShapes<C, V>(words: seq<(seq<C>, V)>, weights: map<seq<C>, int>)
    ensures AllMerged(Compile(words, weights).children)
    ensures words != [] ==> IsGrounded(Compile(words, weights))
  {
    var built := Build(words);
    CoalesceAllMerges(built.children);
    FillOutAllMerges(CoalesceAll(built.children), [] + built.prefix, weights);
    BuildGrounds(words);
    if words != [] {
      CoalesceAllGrounds(built.children);
      FillOutGrounds(CoalesceRoot(built), [], weights);
    }
  }

  // ----- weights -----

  lemma OwnWeightAdds<C>(weights: map<seq<C>, int>, k: seq<C>, x: int, full: seq<C>)
    requires k !in weights
    ensures OwnWeight(weights[k := x], full) == OwnWeight(weights, full) + OwnWeight(map[k := x], full)
  {
  }

  /** Each weighted word adds its weight, independently of the others. */
  lemma {:induction false} WeightAdds<C, V>(t: Trie<C, V>, above: seq<C>, weights: map<seq<C>, int>, k: seq<C>, x: int)
    requires k !in weights
    ensures Weight(t, above, weights[k := x]) == Weight(t, above, weights) + Weight(t, above, map[k := x])
    decreases t
  {
    OwnWeightAdds(weights, k, x, above + t.prefix);
    WeightAllAdds(t.children, above + t.prefix, weights, k, x);
  }

  lemma {:induction false} WeightAllAdds<C, V>(ts: seq<Trie<C, V>>, above: seq<C>, weights: map<seq<C>, int>, k: seq<C>, x: int)
    requires k !in weights
    ensures WeightAll(ts, above, weights[k := x]) == WeightAll(ts, above, weights) + WeightAll(ts, above, map[k := x])
    decreases ts
  {
    if ts != [] {
      WeightAdds(ts[0], above, weights, k, x);
      WeightAllAdds(ts[1..], above, weights, k, x);
    }
  }

  lemma {:induction false} NothingWeighs<C, V>(t: Trie<C, V>, above: seq<C>)
    ensures Weight(t, above, map[]) == 0
    decreases t
  {
    NothingWeighsAll(t.children, above + t.prefix);
  }

  lemma {:induction false} NothingWeighsAll<C, V>(ts: seq<Trie<C, V>>, above: seq<C>)
    ensures WeightAll(ts, above, map[]) == 0
    decreases ts
  {
    if ts != [] {
      NothingWeighs(ts[0], above);
      NothingWeighsAll(ts[1..], above);
    }
  }

  lemma PrefixOfPrefix<C>(above: seq<C>, edge: seq<C>, k: seq<C>)
    ensures above + edge <= k ==> above <= k
  {
    assert above <= above + edge;
  }

  lemma SameStart<C>(above: seq<C>, edge: seq<C>, w: seq<C>)
    requires edge != []
    ensures above + edge <= above + w ==> w != [] && w[0] == edge[0]
  {
    assert (above + edge)[|above|] == edge[0];
    assert w != [] ==> (above + w)[|above|] == w[0];
  }

  /** A word that does not go through a node does not weigh on it. */
  lemma {:induction false} OtherWeighsNothing<C, V>(t: Trie<C, V>, above: seq<C>, k: seq<C>, x: int)
    requires !(above + t.prefix <= k)
    ensures Weight(t, above, map[k := x]) == 0
    decreases t
  {
    OtherWeighsNothingAll(t.children, above + t.prefix, k, x);
  }

  lemma {:induction false} OtherWeighsNothingAll<C, V>(ts: seq<Trie<C, V>>, above: seq<C>, k: seq<C>, x: int)
    requires !(above <= k)
    ensures WeightAll(ts, above, map[k := x]) == 0
    decreases ts
  {
    if ts != [] {
      PrefixOfPrefix(above, ts[0].prefix, k);
      OtherWeighsNothing(ts[0], above, k, x);
      OtherWeighsNothingAll(ts[1..], above, k, x);
    }
  }

  /** Children that start with another letter, or a word that ends above them: nothing. */
  lemma {:induction false} NoneStartsWeighNothing<C, V>(ts: seq<Trie<C, V>>, above: seq<C>, w: seq<C>, x: int)
    requires if w == [] then forall i :: 0 <= i < |ts| ==> ts[i].prefix != [] else NoneStarts(ts, w[0])
    ensures WeightAll(ts, above, map[above + w := x]) == 0
    decreases |ts|
  {
    if ts != [] {
      assert forall i :: 0 <= i < |ts[1..]| ==> ts[1..][i] == ts[i + 1];
      NoneStartsWeighNothing(ts[1..], above, w, x);
      SameStart(above, ts[0].prefix, w);
      OtherWeighsNothing(ts[0], above, above + w, x);
    }
  }

  lemma {:induction false} TriesHaveEdges<C, V>(ts: seq<Trie<C, V>>)
    requires AreTries(ts)
    ensures forall i :: 0 <= i < |ts| ==> ts[i].prefix != []
    decreases |ts|
  {
    if ts != [] {
      TriesHaveEdges(ts[1..]);
      assert forall i :: 1 <= i < |ts| ==> ts[i] == ts[1..][i - 1];
    }
  }

  /** A word of the trie weighs its weight on every node it goes through, once. */
  lemma {:induction false} WordWeighs<C, V>(t: Trie<C, V>, above: seq<C>, w: seq<C>, x: int)
    requires IsTrie(t) && ValueAt(t, w).Some?
    ensures Weight(t, above, map[above + t.prefix + w := x]) == x
    decreases |w|, |t.children| + 1
  {
    var full := above + t.prefix;
    if w == [] {
      assert full + w == full;
      TriesHaveEdges(t.children);
      NoneStartsWeighNothing(t.children, full, w, x);
    } else {
      assert full + w != full;
      WordWeighsIn(t.children, full, w, x);
    }
  }

  lemma {:induction false} WordWeighsIn<C, V>(ts: seq<Trie<C, V>>, above: seq<C>, w: seq<C>, x: int)
    requires AreTries(ts) && ValueIn(ts, w).Some?
    ensures WeightAll(ts, above, map[above + w := x]) == x
    decreases |w|, |ts|
  {
    var edge := ts[0].prefix;
    FirstLetterDecides(ts, w);
    if edge[0] == w[0] {
      assert above + edge + w[|edge|..] == above + w;
      WordWeighs(ts[0], above, w[|edge|..], x);
      NoneStartsWeighNothing(ts[1..], above, w, x);
    } else {
      WordWeighsIn(ts[1..], above, w, x);
      SameStart(above, edge, w);
      OtherWeighsNothing(ts[0], above, above + w, x);
    }
  }
}
