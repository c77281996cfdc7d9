/**
  The comparison view fed from the store: it looks up the layers whose ids
  are selected for comparison and, when some of them show an effect that
  must be on top (a background removal, an extraction or a generative
  fill), orders a copy of them so those come first, then shows the first
  two.
 */
module StoreComparison {
  import opened Wrappers
  import opened JsString
  import opened LayerSlice
  import opened LayersComparison

  const PriorityKeywords: seq<string> := ["background_removal", "e_extract", "b_gen_fill"]

  /**
    `comparedLayers.map(id => layers.find(layer => layer.id === id)).filter(Boolean)`:
    the first layer for each selected id, in selection order, skipping ids
    that no layer has.
   */
  function Resolve(compared: seq<string>, layers: seq<Layer>): (r: seq<Layer>)
    ensures |r| <= |compared|
    ensures forall l :: l in r ==> l in layers && l.id in compared
  {
    if compared == [] then []
    else
      var rest := Resolve(compared[1..], layers);
      match FindById(layers, compared[0])
      case None => rest
      case Some(layer) => [layer] + rest
  }

  /** Resolving a concatenation of selections resolves each part, in order. */
  lemma {:induction false} ResolveAppend(a: seq<string>, b: seq<string>, layers: seq<Layer>)
    ensures Resolve(a + b, layers) == Resolve(a, layers) + Resolve(b, layers)
  {
    if a == [] {
      assert a + b == b;
    } else {
      assert (a + b)[0] == a[0] && (a + b)[1..] == a[1..] + b;
      ResolveAppend(a[1..], b, layers);
    }
  }

  /** One selected id resolves to the first layer with that id, or to nothing when no layer has it. */
  lemma ResolveOne(id: string, layers: seq<Layer>)
    ensures Resolve([id], layers) == if FindById(layers, id).Some? then [FindById(layers, id).value] else []
  {
    assert [id][1..] == [];
  }

  /** When every selected id has a layer, each id resolves, in order, to its first layer. */
  lemma {:induction false} ResolveAllFound(compared: seq<string>, layers: seq<Layer>)
    requires forall k :: 0 <= k < |compared| ==> FindById(layers, compared[k]).Some?
    ensures |Resolve(compared, layers)| == |compared|
    ensures forall k :: 0 <= k < |compared| ==> Resolve(compared, layers)[k] == FindById(layers, compared[k]).value
  {
    if compared != [] {
      assert forall k :: 0 <= k < |compared[1..]| ==> compared[1..][k] == compared[k + 1];
      ResolveAllFound(compared[1..], layers);
    }
  }

  /** `keywords.some(keyword => s.includes(keyword))`. */
  function IncludesAny(s: string, keywords: seq<string>): (b: bool)
    ensures b <==> exists k :: 0 <= k < |keywords| && Includes(s, keywords[k])
  {
    if keywords == [] then false
    else Includes(s, keywords[0]) || IncludesAny(s, keywords[1..])
  }

  /** `hasPriorityKeyword(url)`: the URL is defined and contains one of the three keywords. */
  function HasPriorityKeyword(url: Option<string>): (b: bool)
    ensures b <==> (url.Some? &&
      (Includes(url.value, "background_removal") || Includes(url.value, "e_extract") || Includes(url.value, "b_gen_fill")))
  {
    if url.None? then false
    else
      var s := url.value;
      assert IncludesAny(s, PriorityKeywords) ==
        (Includes(s, PriorityKeywords[0]) || IncludesAny(s, PriorityKeywords[1..]));
      assert IncludesAny(s, PriorityKeywords[1..]) ==
        (Includes(s, PriorityKeywords[1]) || IncludesAny(s, PriorityKeywords[2..]));
      assert IncludesAny(s, PriorityKeywords[2..]) ==
        (Includes(s, PriorityKeywords[2]) || IncludesAny(s, PriorityKeywords[3..]));
      IncludesAny(s, PriorityKeywords)
  }

  /** Where a layer belongs: a background removal first, another priority effect next, the rest last. */
  function Rank(layer: Layer): (k: nat)
    ensures k <= 2
    ensures k == 0 <==> ShowsBgRemoval(layer)
    ensures k < 2 <==> HasPriorityKeyword(layer.url)
  {
    if ShowsBgRemoval(layer) then 0 else if HasPriorityKeyword(layer.url) then 1 else 2
  }

  /**
    The comparator handed to `sort`, by rank: a lower rank first, two plain
    layers tied, and -1 for two layers of the same priority rank.
   */
  function PriorityCompare(a: Layer, b: Layer): (c: int)
    ensures Rank(a) < Rank(b) ==> c == -1
    ensures Rank(a) > Rank(b) ==> c == 1
    ensures Rank(a) == Rank(b) ==> c == (if Rank(a) == 2 then 0 else -1)
  {
    if ShowsBgRemoval(a) then -1
    else if ShowsBgRemoval(b) then 1
    else if HasPriorityKeyword(a.url) then -1
    else if HasPriorityKeyword(b.url) then 1
    else 0
  }

  /**
    The comparator puts a lower rank first and ties two plain layers; two
    layers of the same priority rank each claim to come first, so for those
    it is not consistent and the order a sort gives them is left to the engine.
   */
  lemma PriorityCompareByRank(a: Layer, b: Layer)
    ensures Rank(a) < Rank(b) ==> PriorityCompare(a, b) < 0 && PriorityCompare(b, a) > 0
    ensures Rank(a) == 2 && Rank(b) == 2 ==> PriorityCompare(a, b) == 0
    ensures Rank(a) == Rank(b) < 2 ==> PriorityCompare(a, b) < 0 && PriorityCompare(b, a) < 0
    ensures ShowsBgRemoval(a) ==> PriorityCompare(a, b) == -1
  {
    var ra, rb := Rank(a), Rank(b);
    assert ra == 0 || ra == 1 || ra == 2;
    assert rb == 0 || rb == 1 || rb == 2;
  }

  /** Ordered by `key`, position by position. */
  predicate OrderedBy(xs: seq<Layer>, key: Layer -> nat) {
    forall i :: 0 < i < |xs| ==> key(xs[i - 1]) <= key(xs[i])
  }

  /** Puts `x` in front of the first layer whose key is not lower than its own. */
  function Insert(x: Layer, xs: seq<Layer>, key: Layer -> nat): (r: seq<Layer>)
    requires OrderedBy(xs, key)
    ensures OrderedBy(r, key)
    ensures multiset(r) == multiset(xs) + multiset{x}
    ensures |r| == |xs| + 1
    ensures r[0] == x || (xs != [] && r[0] == xs[0])
  {
    if xs == [] || key(x) <= key(xs[0]) then [x] + xs
    else
      var rest := Insert(x, xs[1..], key);
      ConsOrdered(xs[0], rest, key);
      ConsCount(xs[0], xs[1..], rest, x);
      assert xs == [xs[0]] + xs[1..];
      [xs[0]] + rest
  }

  /** Proof step only: a layer with a key no higher than the head's keeps the list ordered. */
  lemma ConsOrdered(y: Layer, rest: seq<Layer>, key: Layer -> nat)
    requires OrderedBy(rest, key) && rest != [] && key(y) <= key(rest[0])
    ensures OrderedBy([y] + rest, key)
  {
  }

  /** Proof step only: the multiset of a list with one more layer in front. */
  lemma ConsCount(y: Layer, tail: seq<Layer>, rest: seq<Layer>, x: Layer)
    requires multiset(rest) == multiset(tail) + multiset{x}
    ensures multiset([y] + rest) == multiset([y] + tail) + multiset{x}
  {
  }

  /**
    A stable sort by `key`: with the rank as key, the order a sort with the
    comparator gives when no two layers share a priority rank.
   */
  function SortBy(xs: seq<Layer>, key: Layer -> nat): (r: seq<Layer>)
    ensures OrderedBy(r, key)
    ensures multiset(r) == multiset(xs)
    ensures |r| == |xs|
  {
    if xs == [] then []
    else
      assert xs == [xs[0]] + xs[1..];
      Insert(xs[0], SortBy(xs[1..], key), key)
  }

  /** The layers of `xs` whose key is `k`, in their order in `xs`. */
  function WithKey(xs: seq<Layer>, key: Layer -> nat, k: nat): (r: seq<Layer>)
    ensures |r| <= |xs|
    ensures forall l :: l in r ==> l in xs && key(l) == k
  {
    if xs == [] then []
    else (if key(xs[0]) == k then [xs[0]] else []) + WithKey(xs[1..], key, k)
  }

  /** Inserting keeps the layers of each key in their order, with `x` ahead of its equals. */
  lemma {:induction false} InsertIsStable(x: Layer, xs: seq<Layer>, key: Layer -> nat, k: nat)
    requires OrderedBy(xs, key)
    ensures WithKey(Insert(x, xs, key), key, k) == WithKey([x] + xs, key, k)
  {
    if xs != [] && key(x) > key(xs[0]) {
      var y, tail := xs[0], xs[1..];
      var rest := Insert(x, tail, key);
      assert Insert(x, xs, key) == [y] + rest;
      InsertIsStable(x, tail, key, k);
      WithKeyCons(y, rest, key, k);
      WithKeyCons(x, tail, key, k);
      WithKeyCons(x, xs, key, k);
      assert xs == [y] + tail;
      WithKeyCons(y, tail, key, k);
      SwapOne(if key(y) == k then [y] else [], if key(x) == k then [x] else [], WithKey(tail, key, k));
    }
  }

  /** Proof step only: the filter of a list with one more layer in front. */
  lemma WithKeyCons(y: Layer, xs: seq<Layer>, key: Layer -> nat, k: nat)
    ensures WithKey([y] + xs, key, k) == (if key(y) == k then [y] else []) + WithKey(xs, key, k)
  {
    assert ([y] + xs)[1..] == xs;
  }

  /** Proof step only: two parts of which one is empty commute. */
  lemma SwapOne(a: seq<Layer>, b: seq<Layer>, tail: seq<Layer>)
    requires a == [] || b == []
    ensures a + (b + tail) == b + (a + tail)
  {
    if a == [] {
      assert a + (b + tail) == b + tail;
    } else {
      assert b + (a + tail) == a + tail;
    }
  }

  /**
    `SortBy` is stable: for every key, the layers with that key come out in
    the order they went in.
   */
  lemma {:induction false} SortByIsStable(xs: seq<Layer>, key: Layer -> nat, k: nat)
    ensures WithKey(SortBy(xs, key), key, k) == WithKey(xs, key, k)
  {
    if xs != [] {
      var sorted := SortBy(xs[1..], key);
      SortByIsStable(xs[1..], key, k);
      InsertIsStable(xs[0], sorted, key, k);
      WithKeyCons(xs[0], sorted, key, k);
      WithKeyCons(xs[0], xs[1..], key, k);
      assert xs == [xs[0]] + xs[1..];
    }
  }

  /** Whether any layer has a priority keyword; only then is a sorted copy made. */
  predicate AnyPriority(xs: seq<Layer>) {
    exists k :: 0 <= k < |xs| && HasPriorityKeyword(xs[k].url)
  }

  /**
    `layersToCompare`: the resolved layers, or a sorted copy when any has a
    priority keyword; the layers of each rank keep their order either way.
   */
  function LayersToCompare(resolved: seq<Layer>): (r: seq<Layer>)
    ensures multiset(r) == multiset(resolved) && |r| == |resolved|
    ensures !AnyPriority(resolved) ==> r == resolved
    ensures AnyPriority(resolved) ==> OrderedBy(r, Rank)
    ensures forall k: nat :: WithKey(r, Rank, k) == WithKey(resolved, Rank, k)
  {
    if AnyPriority(resolved) then
      assert forall k: nat :: WithKey(SortBy(resolved, Rank), Rank, k) == WithKey(resolved, Rank, k) by {
        forall k: nat ensures WithKey(SortBy(resolved, Rank), Rank, k) == WithKey(resolved, Rank, k) {
          SortByIsStable(resolved, Rank, k);
        }
      }
      SortBy(resolved, Rank)
    else resolved
  }

  /** The first of a rank-ordered list has the lowest rank of them all. */
  lemma {:induction false} FirstHasLowestRank(xs: seq<Layer>, k: nat)
    requires OrderedBy(xs, Rank) && k < |xs|
    ensures Rank(xs[0]) <= Rank(xs[k])
  {
    if k > 0 {
      FirstHasLowestRank(xs, k - 1);
    }
  }

  /**
    The component: a message when no selected id has a layer, the one layer
    when one does, and otherwise the first two of the layers to compare;
    when any of them has a priority keyword, the first one shown has the
    lowest rank among them.
   */
  function ComparisonView(layers: seq<Layer>, compared: seq<string>): (v: View)
    ensures v.NoLayersMessage? <==> |Resolve(compared, layers)| == 0
    ensures v.Single? <==> |Resolve(compared, layers)| == 1
    ensures v.Single? ==> v.layer == Resolve(compared, layers)[0]
    ensures v.Slider? ==> v.itemOne in layers && v.itemTwo in layers
    ensures v.Slider? ==> multiset{v.itemOne, v.itemTwo} <= multiset(Resolve(compared, layers))
    ensures v.Slider? && !AnyPriority(Resolve(compared, layers)) ==>
      v == Slider(Resolve(compared, layers)[0], Resolve(compared, layers)[1])
    ensures v.Slider? && AnyPriority(Resolve(compared, layers)) ==>
      Rank(v.itemOne) <= Rank(v.itemTwo) &&
      forall l :: l in Resolve(compared, layers) ==> Rank(v.itemOne) <= Rank(l)
  {
    var resolved := Resolve(compared, layers);
    if |resolved| == 1 then Single(resolved[0])
    else
      var shown := LayersToCompare(resolved);
      var v := ViewOf(shown);
      if v.Slider? then
        FirstTwoIn(shown);
        assert shown[0] in multiset(resolved) && shown[1] in multiset(resolved);
        if AnyPriority(resolved) then
          FirstAllLowest(resolved, shown);
          v
        else v
      else v
  }

  /** Proof step only: the first two of a list are in it. */
  lemma FirstTwoIn(xs: seq<Layer>)
    requires |xs| >= 2
    ensures multiset{xs[0], xs[1]} <= multiset(xs)
  {
    assert xs == [xs[0], xs[1]] + xs[2..];
  }

  /** The first of a rank-ordered permutation has a rank no higher than any layer of the original. */
  lemma FirstAllLowest(resolved: seq<Layer>, shown: seq<Layer>)
    requires OrderedBy(shown, Rank) && multiset(shown) == multiset(resolved) && |shown| >= 2
    ensures Rank(shown[0]) <= Rank(shown[1])
    ensures forall l :: l in resolved ==> Rank(shown[0]) <= Rank(l)
  {
    forall l | l in resolved
      ensures Rank(shown[0]) <= Rank(l)
    {
      assert l in multiset(shown);
      var k :| 0 <= k < |shown| && shown[k] == l;
      FirstHasLowestRank(shown, k);
    }
  }
}
