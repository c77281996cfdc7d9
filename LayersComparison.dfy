/**
  The comparison view of the layers panel. Given the layers to compare, it
  shows a message when there are none, the one layer when there is one, and
  otherwise a slider over the first two; when there are exactly two it first
  sorts the caller's list in place so that a layer whose URL shows a
  background removal comes first.
 */
module LayersComparison {
  import opened JsString
  import opened LayerSlice

  const BgRemovedKeyword := "background_removal"

  /** What the view renders. */
  datatype View = NoLayersMessage | Single(layer: Layer) | Slider(itemOne: Layer, itemTwo: Layer)

  /** The view for an already ordered list: a message, the one layer, or the first two. */
  function ViewOf(shown: seq<Layer>): (v: View)
    ensures v.NoLayersMessage? <==> |shown| == 0
    ensures v.Single? <==> |shown| == 1
    ensures v.Single? ==> v.layer == shown[0]
    ensures v.Slider? ==> v.itemOne == shown[0] && v.itemTwo == shown[1]
  {
    if |shown| == 0 then NoLayersMessage
    else if |shown| == 1 then Single(shown[0])
    else Slider(shown[0], shown[1])
  }

  /** Whether the layer's URL is defined and contains "background_removal". */
  predicate ShowsBgRemoval(layer: Layer) {
    layer.url.Some? && Includes(layer.url.value, BgRemovedKeyword)
  }

  /** `a.url?.includes("background_removal") ? -1 : 1`. */
  function BgKey(layer: Layer): (k: int)
    ensures k == -1 <==> ShowsBgRemoval(layer)
    ensures k == 1 <==> !ShowsBgRemoval(layer)
  {
    if ShowsBgRemoval(layer) then -1 else 1
  }

  /** The comparator: the difference of the two keys, negative exactly when only `a` shows a background removal. */
  function Compare(a: Layer, b: Layer): (c: int)
    ensures c < 0 <==> ShowsBgRemoval(a) && !ShowsBgRemoval(b)
    ensures c > 0 <==> !ShowsBgRemoval(a) && ShowsBgRemoval(b)
    ensures c == 0 <==> ShowsBgRemoval(a) == ShowsBgRemoval(b)
  {
    BgKey(a) - BgKey(b)
  }

  /**
    The comparator is consistent in the sense of section 23.1.3.30 of
    ECMA-262: it is antisymmetric, and it orders a background-removed layer
    before any other and ties every other pair.
   */
  lemma CompareIsConsistent(a: Layer, b: Layer)
    ensures Compare(a, b) == -Compare(b, a)
    ensures Compare(a, b) < 0 <==> ShowsBgRemoval(a) && !ShowsBgRemoval(b)
    ensures Compare(a, b) == 0 <==> ShowsBgRemoval(a) == ShowsBgRemoval(b)
  {
    var ka, kb := BgKey(a), BgKey(b);
    assert ka == -1 || ka == 1;
    assert kb == -1 || kb == 1;
  }

  /**
    What a stable sort with that comparator makes of two layers: they are
    swapped exactly when the second shows a background removal and the first
    does not.
   */
  function SortedPair(pair: seq<Layer>): (r: seq<Layer>)
    requires |pair| == 2
    ensures |r| == 2 && multiset(r) == multiset(pair)
    ensures Compare(r[0], r[1]) <= 0
    ensures Compare(pair[0], pair[1]) <= 0 ==> r == pair
    ensures ShowsBgRemoval(pair[0]) != ShowsBgRemoval(pair[1]) ==> ShowsBgRemoval(r[0]) && !ShowsBgRemoval(r[1])
  {
    CompareIsConsistent(pair[0], pair[1]);
    if Compare(pair[0], pair[1]) > 0 then
      assert multiset([pair[1], pair[0]]) == multiset(pair) by {
        assert pair == [pair[0], pair[1]];
      }
      [pair[1], pair[0]]
    else pair
  }

  /**
    The component. The caller's array is reordered in place when it holds
    exactly two layers and is left alone otherwise; the view shows the
    array as it then stands.
   */
  method ImageComparison(layers: array<Layer>) returns (view: View)
    modifies layers
    ensures layers.Length == 2 ==> layers[..] == SortedPair(old(layers[..]))
    ensures layers.Length != 2 ==> layers[..] == old(layers[..])
    ensures view == ViewOf(layers[..])
  {
    if layers.Length == 0 {
      return NoLayersMessage;
    }
    if layers.Length == 1 {
      return Single(layers[0]);
    }
    if layers.Length == 2 {
      if Compare(layers[0], layers[1]) > 0 {
        layers[0], layers[1] := layers[1], layers[0];
      }
    }
    view := Slider(layers[0], layers[1]);
  }
}
