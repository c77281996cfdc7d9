/**
  The layer slice of the editor's store: the list of layers, the active
  layer, whether comparison mode is on, and the ids of the layers being
  compared. Each reducer updates the state in place.
 */
module LayerSlice {
  import opened Wrappers
  import opened JsString

  /** `LayerType`. An optional field is `None` when it is `undefined`; sizes are integral here. */
  datatype Layer = Layer(
    id: string,
    name: Option<string>,
    url: Option<string>,
    format: Option<string>,
    size: int,
    width: int,
    height: int,
    publicId: Option<string>,
    posterUrl: Option<string>,
    resourceType: Option<string>,
    transcriptionUrl: Option<string>)

  /** `generateLayer()`, with the fresh random id passed in: an empty layer with only sizes set. */
  function GenerateLayer(id: string): (layer: Layer)
    ensures layer.id == id && layer.size == 0 && layer.width == 0 && layer.height == 0
    ensures layer.url.None? && layer.name.None? && layer.publicId.None?
  {
    Layer(id, None, None, None, 0, 0, 0, None, None, None, None)
  }

  // ---- the list operations the reducers use ----

  /** `layers.map(f)`: the same length, and each layer replaced by its image under `f`. */
  function MapLayers(layers: seq<Layer>, f: Layer -> Layer): (r: seq<Layer>)
    ensures |r| == |layers|
    ensures forall i :: 0 <= i < |r| ==> r[i] == f(layers[i])
  {
    if layers == [] then [] else [f(layers[0])] + MapLayers(layers[1..], f)
  }

  /** Two lists holding layers with the same ids, position by position. */
  predicate SameIds(a: seq<Layer>, b: seq<Layer>) {
    |a| == |b| && forall i :: 0 <= i < |a| ==> a[i].id == b[i].id
  }

  /** `layers.findIndex(layer => layer.id === id)`, with `None` for -1: the first layer with that id. */
  function FindIndex(layers: seq<Layer>, id: string): (r: Option<nat>)
    ensures r.Some? ==> r.value < |layers| && layers[r.value].id == id
    ensures r.Some? ==> forall j :: 0 <= j < r.value ==> layers[j].id != id
    ensures r.None? ==> forall j :: 0 <= j < |layers| ==> layers[j].id != id
  {
    if layers == [] then None
    else if layers[0].id == id then Some(0)
    else match FindIndex(layers[1..], id)
      case None => None
      case Some(k) => Some(k + 1)
  }

  /** `layers.find(layer => layer.id === id)`. */
  function FindById(layers: seq<Layer>, id: string): (r: Option<Layer>)
    ensures r.Some? <==> exists i :: 0 <= i < |layers| && layers[i].id == id
    ensures r.Some? ==> r.value in layers && r.value.id == id
    ensures r.Some? ==> exists i :: 0 <= i < |layers| && layers[i] == r.value &&
                                   (forall j :: 0 <= j < i ==> layers[j].id != id)
  {
    match FindIndex(layers, id)
    case None => None
    case Some(i) => Some(layers[i])
  }

  /** Lists with the same ids position by position have their first match for every id at the same place. */
  lemma FindIndexSameIds(a: seq<Layer>, b: seq<Layer>, id: string)
    requires SameIds(a, b)
    ensures FindIndex(a, id) == FindIndex(b, id)
  {
    var fa, fb := FindIndex(a, id), FindIndex(b, id);
    if fa.Some? && fb.Some? {
      assert !(fa.value < fb.value) && !(fb.value < fa.value);
    }
  }

  /** `layers.filter(layer => layer.id !== id)`. */
  function Without(layers: seq<Layer>, id: string): (r: seq<Layer>)
    ensures forall l :: l in r <==> l in layers && l.id != id
    ensures |r| <= |layers|
    ensures (forall j :: 0 <= j < |layers| ==> layers[j].id != id) ==> r == layers
  {
    if layers == [] then []
    else if layers[0].id == id then Without(layers[1..], id)
    else [layers[0]] + Without(layers[1..], id)
  }

  /** Filtering keeps the order: the filter of a concatenation is the concatenation of the filters. */
  lemma {:induction false} WithoutAppend(a: seq<Layer>, b: seq<Layer>, id: string)
    ensures Without(a + b, id) == Without(a, id) + Without(b, id)
  {
    if a == [] {
      assert a + b == b;
    } else {
      assert (a + b)[0] == a[0] && (a + b)[1..] == a[1..] + b;
      WithoutAppend(a[1..], b, id);
    }
  }

  /** A removed id can no longer be found, and removing it again changes nothing. */
  lemma WithoutRemovesId(layers: seq<Layer>, id: string)
    ensures FindById(Without(layers, id), id).None?
    ensures Without(Without(layers, id), id) == Without(layers, id)
  {
    var r := Without(layers, id);
    assert forall j :: 0 <= j < |r| ==> r[j].id != id by {
      forall j | 0 <= j < |r| ensures r[j].id != id {
        assert r[j] in r;
      }
    }
  }

  /** The `layerUpdated` map: every layer with the payload's id becomes the payload. */
  function Replaced(layers: seq<Layer>, payload: Layer): (r: seq<Layer>)
    ensures |r| == |layers|
    ensures forall i :: 0 <= i < |layers| && layers[i].id == payload.id ==> r[i] == payload
    ensures forall i :: 0 <= i < |layers| && layers[i].id != payload.id ==> r[i] == layers[i]
  {
    MapLayers(layers, (layer: Layer) => if layer.id == payload.id then payload else layer)
  }

  /**
    Replacing keeps the ids, so a replaced layer is found where the old one
    was and is the payload; replacing twice is replacing once.
   */
  lemma ReplacedFacts(layers: seq<Layer>, payload: Layer)
    ensures SameIds(Replaced(layers, payload), layers)
    ensures FindById(Replaced(layers, payload), payload.id) ==
      if FindById(layers, payload.id).Some? then Some(payload) else None
    ensures Replaced(Replaced(layers, payload), payload) == Replaced(layers, payload)
    ensures forall i :: 0 <= i < |layers| && layers[i].id != payload.id ==> Replaced(layers, payload)[i] == layers[i]
  {
    var r := Replaced(layers, payload);
    FindIndexSameIds(r, layers, payload.id);
  }

  /**
    The `posterUrlUpdated` map: matching layers get the new poster URL, and
    nothing else changes, in any layer.
   */
  function WithPosterUrl(layers: seq<Layer>, id: string, posterUrl: Option<string>): (r: seq<Layer>)
    ensures SameIds(r, layers)
    ensures forall i :: 0 <= i < |layers| ==> r[i].(posterUrl := layers[i].posterUrl) == layers[i]
    ensures forall i :: 0 <= i < |layers| ==> r[i].posterUrl == if layers[i].id == id then posterUrl else layers[i].posterUrl
  {
    MapLayers(layers, (layer: Layer) => if layer.id == id then layer.(posterUrl := posterUrl) else layer)
  }

  /**
    The `transcriptionUrlUpdated` map: matching layers get the new
    transcription URL, and nothing else changes, in any layer.
   */
  function WithTranscriptionUrl(layers: seq<Layer>, id: string, transcriptionUrl: Option<string>): (r: seq<Layer>)
    ensures SameIds(r, layers)
    ensures forall i :: 0 <= i < |layers| ==> r[i].(transcriptionUrl := layers[i].transcriptionUrl) == layers[i]
    ensures forall i :: 0 <= i < |layers| ==>
      r[i].transcriptionUrl == if layers[i].id == id then transcriptionUrl else layers[i].transcriptionUrl
  {
    MapLayers(layers, (layer: Layer) => if layer.id == id then layer.(transcriptionUrl := transcriptionUrl) else layer)
  }

  /**
    `layers.find(layer => layer.id === id) || layers[0]`: the first layer
    with the id, else the first layer, else `undefined` for an empty list.
   */
  function ActiveAfterSet(layers: seq<Layer>, id: string): (r: Option<Layer>)
    ensures r.Some? <==> |layers| > 0
    ensures r.Some? ==> r.value in layers
    ensures FindIndex(layers, id).Some? ==> r == Some(layers[FindIndex(layers, id).value])
    ensures (exists i :: 0 <= i < |layers| && layers[i].id == id) <==> r.Some? && r.value.id == id
    ensures layers != [] && (forall i :: 0 <= i < |layers| ==> layers[i].id != id) ==> r == Some(layers[0])
  {
    match FindById(layers, id)
    case Some(layer) => Some(layer)
    case None => if layers == [] then None else Some(layers[0])
  }

  /** `ids.filter(x => x !== id)`. */
  function Dropped(ids: seq<string>, id: string): (r: seq<string>)
    ensures forall x :: x in r <==> x in ids && x != id
    ensures id in ids ==> |r| < |ids|
    ensures id !in ids ==> r == ids
    ensures multiset(r) == multiset(ids)[id := 0]
  {
    if ids == [] then []
    else
      assert ids == [ids[0]] + ids[1..];
      if ids[0] == id then Dropped(ids[1..], id)
      else [ids[0]] + Dropped(ids[1..], id)
  }

  /** Filtering ids keeps their order: the filter of a concatenation is the concatenation of the filters. */
  lemma {:induction false} DroppedAppend(a: seq<string>, b: seq<string>, id: string)
    ensures Dropped(a + b, id) == Dropped(a, id) + Dropped(b, id)
  {
    if a == [] {
      assert a + b == b;
    } else {
      assert (a + b)[0] == a[0] && (a + b)[1..] == a[1..] + b;
      DroppedAppend(a[1..], b, id);
    }
  }

  /**
    `layerToCompareSelected`'s new list: a selected id is deselected, and
    an unselected one is added at the end, keeping only the last two.
   */
  function ToggleCompared(compared: seq<string>, id: string): (r: seq<string>)
    ensures id in r <==> id !in compared
    ensures forall x :: x != id && x in r ==> x in compared
    ensures id in compared ==> forall x :: x != id && x in compared ==> x in r
    ensures id in compared ==> |r| < |compared|
    ensures id !in compared ==> |r| <= 2 && r[|r| - 1] == id
    ensures id !in compared && |compared| >= 1 ==> |r| == 2 && r[0] == compared[|compared| - 1]
    ensures compared == [] ==> r == [id]
    ensures id in compared ==> r == Dropped(compared, id)
  {
    if id in compared then Dropped(compared, id)
    else
      var r := LastTwo(compared + [id]);
      assert r[|r| - 1] == (compared + [id])[|compared|];
      r
  }

  /** Selecting a new layer while fewer than two are selected, then selecting it again, restores the selection. */
  lemma ToggleTwice(compared: seq<string>, id: string)
    requires id !in compared && |compared| <= 1
    ensures ToggleCompared(ToggleCompared(compared, id), id) == compared
  {
    var once := ToggleCompared(compared, id);
    assert once == compared + [id];
    DroppedAppend(compared, [id], id);
    assert Dropped([id], id) == Dropped([], id);
  }

  // ---- the store ----

  /** The slice's state, updated in place by the reducers. */
  class LayerStore {
    var layers: seq<Layer>
    var activeLayer: Option<Layer>
    var layerComparisonMode: bool
    var comparedLayers: seq<string>

    /** Comparison mode is on exactly when some layer is selected for comparison. */
    predicate ModeMatchesSelection()
      reads this
    {
      layerComparisonMode == (|comparedLayers| > 0)
    }

    /** `initialState`: one generated layer, active, and nothing compared. */
    constructor (initialLayer: Layer)
      ensures layers == [initialLayer] && activeLayer == Some(initialLayer)
      ensures !layerComparisonMode && comparedLayers == []
      ensures ModeMatchesSelection()
    {
      layers := [initialLayer];
      activeLayer := Some(initialLayer);
      layerComparisonMode := false;
      comparedLayers := [];
    }

    /** `layerAdded`: the layer goes at the end. */
    method LayerAdded(layer: Layer)
      modifies this
      ensures layers == old(layers) + [layer]
      ensures activeLayer == old(activeLayer) && layerComparisonMode == old(layerComparisonMode)
      ensures comparedLayers == old(comparedLayers)
    {
      layers := layers + [layer];
    }

    /** `layerUpdated`: layers with the payload's id become the payload; the active layer is left as it was. */
    method LayerUpdated(payload: Layer)
      modifies this
      ensures layers == Replaced(old(layers), payload)
      ensures activeLayer == old(activeLayer) && layerComparisonMode == old(layerComparisonMode)
      ensures comparedLayers == old(comparedLayers)
    {
      layers := Replaced(layers, payload);
    }

    /** `layerRemoved`: layers with the id are dropped; the active layer and the comparison are left as they were. */
    method LayerRemoved(id: string)
      modifies this
      ensures layers == Without(old(layers), id)
      ensures activeLayer == old(activeLayer) && layerComparisonMode == old(layerComparisonMode)
      ensures comparedLayers == old(comparedLayers)
    {
      layers := Without(layers, id);
    }

    /** `layersReordered`: the payload becomes the list, whatever it holds. */
    method LayersReordered(payload: seq<Layer>)
      modifies this
      ensures layers == payload
      ensures activeLayer == old(activeLayer) && layerComparisonMode == old(layerComparisonMode)
      ensures comparedLayers == old(comparedLayers)
    {
      layers := payload;
    }

    /** `activeLayerSet`: the first layer with the id, else the first layer. */
    method ActiveLayerSet(id: string)
      modifies this
      ensures activeLayer == ActiveAfterSet(old(layers), id)
      ensures layers == old(layers) && layerComparisonMode == old(layerComparisonMode)
      ensures comparedLayers == old(comparedLayers)
    {
      activeLayer := ActiveAfterSet(layers, id);
    }

    /** `posterUrlUpdated`. */
    method PosterUrlUpdated(id: string, posterUrl: Option<string>)
      modifies this
      ensures layers == WithPosterUrl(old(layers), id, posterUrl)
      ensures activeLayer == old(activeLayer) && layerComparisonMode == old(layerComparisonMode)
      ensures comparedLayers == old(comparedLayers)
    {
      layers := WithPosterUrl(layers, id, posterUrl);
    }

    /** `transcriptionUrlUpdated`. */
    method TranscriptionUrlUpdated(id: string, transcriptionUrl: Option<string>)
      modifies this
      ensures layers == WithTranscriptionUrl(old(layers), id, transcriptionUrl)
      ensures activeLayer == old(activeLayer) && layerComparisonMode == old(layerComparisonMode)
      ensures comparedLayers == old(comparedLayers)
    {
      layers := WithTranscriptionUrl(layers, id, transcriptionUrl);
    }

    /** `layerComparisonModeToggled`: flips the mode and nothing else, so toggling twice restores it. */
    method LayerComparisonModeToggled()
      modifies this
      ensures layerComparisonMode == !old(layerComparisonMode)
      ensures layers == old(layers) && activeLayer == old(activeLayer) && comparedLayers == old(comparedLayers)
    {
      layerComparisonMode := !layerComparisonMode;
    }

    /** `comparedLayersUpdated`: the payload becomes the selection, and the mode follows it. */
    method ComparedLayersUpdated(payload: seq<string>)
      modifies this
      ensures comparedLayers == payload && ModeMatchesSelection()
      ensures layers == old(layers) && activeLayer == old(activeLayer)
    {
      comparedLayers := payload;
      layerComparisonMode := |payload| > 0;
    }

    /** `comparedLayersCleared`: the selection empties but the mode is left as it was. */
    method ComparedLayersCleared()
      modifies this
      ensures comparedLayers == []
      ensures layerComparisonMode == old(layerComparisonMode)
      ensures layers == old(layers) && activeLayer == old(activeLayer)
    {
      comparedLayers := [];
    }

    /** `layerToCompareSelected`: the id is toggled in the selection, and the mode follows it. */
    method LayerToCompareSelected(id: string)
      modifies this
      ensures comparedLayers == ToggleCompared(old(comparedLayers), id)
      ensures ModeMatchesSelection()
      ensures |old(comparedLayers)| <= 2 ==> |comparedLayers| <= 2
      ensures layers == old(layers) && activeLayer == old(activeLayer)
    {
      var newComparedLayers := ToggleCompared(comparedLayers, id);
      comparedLayers := newComparedLayers;
      layerComparisonMode := |newComparedLayers| > 0;
    }
  }
}
