/**
 * What loading, removing and reloading a page does to the live pdf.js
 * editing surface (scripts/pdf-annotations.mjs `setPageAnnotations`,
 * `removePageAnnotations` and the page loop of `updateAnnotations`), as
 * functions on a value of the surface. The `AnnotationManager` methods are
 * proved to change their fields exactly as these functions say.
 */
module AnnotationLayers {
  import opened Wrappers
  import opened AnnotationStore

  /** `AnnotationEditorType` values passed to `uimanager.updateMode`. */
  const ToolNone := 0
  const ToolStamp := 13

  /** The part of the viewer the annotation code changes. */
  datatype Surface = Surface(
    layers: Layers,         // live editors by page index
    toolMode: int,          // the ui manager's last updateMode argument
    endEditPending: bool)   // debounceEndEdit has been called and not yet fired

  /** Page index `i` has an editor layer (`uimanager.getLayer(i)` is truthy). */
  predicate HasLayer(layers: Layers, i: int) {
    0 <= i && i in layers
  }

  /** Layers exist only for pages the viewer has. */
  predicate LayersWithin(layers: Layers, pageCount: nat) {
    forall i :: i in layers ==> i < pageCount
  }

  // ---------------------------------------------------------------------------
  // Placing loaded editors

  /** A deserialised editor as it is added: moved back by its size and unselected. */
  function Place(e: Editor): Editor {
    e.(x := e.x - e.width, y := e.y - e.height, selected := false)
  }

  function PlaceAll(es: seq<Editor>): (r: seq<Editor>)
    ensures |r| == |es|
    ensures forall i :: 0 <= i < |es| ==> r[i] == Place(es[i])
  {
    if es == [] then [] else PlaceAll(es[..|es| - 1]) + [Place(es[|es| - 1])]
  }

  /** The editors added for the descriptors `ds`: those that deserialise, in order, placed. */
  function Loaded(ds: seq<Descriptor>, c: Codec): seq<Editor> {
    PlaceAll(FilterMap(ds, c.deserialize))
  }

  /** One more descriptor adds its placed editor, if it deserialises. */
  lemma LoadedNext(ds: seq<Descriptor>, k: nat, c: Codec)
    requires k < |ds|
    ensures Loaded(ds[..k + 1], c) ==
      Loaded(ds[..k], c) + (match c.deserialize(ds[k]) case Some(e) => [Place(e)] case None => [])
  {
    assert ds[..k + 1][..k] == ds[..k];
    var before := FilterMap(ds[..k], c.deserialize);
    match c.deserialize(ds[k])
    case Some(e) =>
      assert PlaceAll(before + [e]) == PlaceAll(before) + [Place(e)];
    case None =>
  }

  /**
   * When every descriptor deserialises, each is added exactly once, in order,
   * at `(x - width, y - height)` and unselected.
   */
  lemma LoadedWhenAllDeserialise(ds: seq<Descriptor>, c: Codec)
    requires forall i :: 0 <= i < |ds| ==> c.deserialize(ds[i]).Some?
    ensures |Loaded(ds, c)| == |ds|
    ensures forall i :: 0 <= i < |ds| ==>
      var e := c.deserialize(ds[i]).value;
      Loaded(ds, c)[i] == e.(x := e.x - e.width, y := e.y - e.height, selected := false)
  {
    FilterMapAllSome(ds, c.deserialize);
  }

  /** Nothing is added when no descriptor deserialises. */
  lemma LoadedNothingWhenNoneDeserialise(ds: seq<Descriptor>, c: Codec)
    requires forall i :: 0 <= i < |ds| ==> c.deserialize(ds[i]).None?
    ensures Loaded(ds, c) == []
  {
    FilterMapEmpty(ds, c.deserialize);
  }

  // ---------------------------------------------------------------------------
  // setPageAnnotations and removePageAnnotations

  /** The four ways `setPageAnnotations(n)` can go. */
  datatype LoadPlan =
    | NothingStored          // the flag is absent or ""
    | NoLayer                // no editor layer yet: it is loaded when that layer renders
    | Malformed              // JSON.parse throws; the exception is not caught
    | Add(editors: seq<Editor>)

  function PlanLoad(store: Store, c: Codec, n: int, hasLayer: bool): LoadPlan {
    var key := PageKey(n);
    if key !in store || store[key] == "" then NothingStored
    else if !hasLayer then NoLayer
    else match c.parse(store[key])
      case None => Malformed
      case Some(ds) => Add(Loaded(ds, c))
  }

  /**
   * `setPageAnnotations(n)`: the new surface and whether it returned normally
   * (false: it threw after switching the tool mode to STAMP).
   */
  function Load(v: Surface, store: Store, c: Codec, n: int): (Surface, bool) {
    match PlanLoad(store, c, n, HasLayer(v.layers, n - 1))
    case NothingStored => (v, true)
    case NoLayer => (v, true)
    case Malformed => (v.(toolMode := ToolStamp), false)
    case Add(es) =>
      (v.(layers := v.layers[n - 1 := v.layers[n - 1] + es], toolMode := ToolStamp, endEditPending := true), true)
  }

  /** `removePageAnnotations(i)`: no-op without a page view, otherwise the page is emptied. */
  function Clear(v: Surface, pageCount: nat, i: int): Surface {
    if 0 <= i < pageCount && i in v.layers then v.(layers := v.layers[i := []]) else v
  }

  /** One iteration of the reload loop: `removePageAnnotations(n - 1); setPageAnnotations(n)`. */
  function ReloadPage(v: Surface, pageCount: nat, store: Store, c: Codec, n: int): (Surface, bool) {
    Load(Clear(v, pageCount, n - 1), store, c, n)
  }

  /** The editors page `n` shows after it has been reloaded (with its layer present or not). */
  function ReloadedEditors(store: Store, c: Codec, n: int, hasLayer: bool): seq<Editor> {
    match PlanLoad(store, c, n, hasLayer)
    case Add(es) => es
    case _ => []
  }

  /**
   * Reloading page `n` leaves it with exactly the editors loaded from the store,
   * whatever it showed before, and leaves every other page and the set of
   * layers untouched.
   */
  lemma ReloadPageEffect(v: Surface, pageCount: nat, store: Store, c: Codec, n: int)
    requires LayersWithin(v.layers, pageCount)
    ensures var (w, ok) := ReloadPage(v, pageCount, store, c, n);
      w.layers.Keys == v.layers.Keys
      && EditorsOn(w.layers, n - 1) == ReloadedEditors(store, c, n, HasLayer(v.layers, n - 1))
      && (forall j :: j != n - 1 ==> EditorsOn(w.layers, j) == EditorsOn(v.layers, j))
      && (ok <==> PlanLoad(store, c, n, HasLayer(v.layers, n - 1)) != Malformed)
  {
  }

  /** Reloading a page twice against an unchanged store gives the same surface as reloading it once. */
  lemma ReloadPageIdempotent(v: Surface, pageCount: nat, store: Store, c: Codec, n: int)
    requires LayersWithin(v.layers, pageCount)
    ensures var once := ReloadPage(v, pageCount, store, c, n);
      ReloadPage(once.0, pageCount, store, c, n) == once
  {
    var i := n - 1;
    var u := Clear(v, pageCount, i);
    var once := Load(u, store, c, n);
    if !HasLayer(v.layers, i) {
      assert u == v;
    } else {
      assert u.layers == v.layers[i := []];
      assert HasLayer(u.layers, i);
      var plan := PlanLoad(store, c, n, true);
      match plan
      case NothingStored =>
        assert once.0 == u;
        assert Clear(u, pageCount, i).layers == u.layers;
      case NoLayer =>
      case Malformed =>
        assert Clear(once.0, pageCount, i) == once.0;
      case Add(es) =>
        assert u.layers[i] + es == es;
        assert once.0.layers == u.layers[i := es];
        assert Clear(once.0, pageCount, i).layers == u.layers;
    }
  }

  // ---------------------------------------------------------------------------
  // The reload loop of updateAnnotations

  lemma ReloadPageKeepsLayers(v: Surface, pageCount: nat, store: Store, c: Codec, n: int)
    ensures ReloadPage(v, pageCount, store, c, n).0.layers.Keys == v.layers.Keys
  {
    var cleared := Clear(v, pageCount, n - 1);
    assert cleared.layers.Keys == v.layers.Keys;
    assert Load(cleared, store, c, n).0.layers.Keys == cleared.layers.Keys;
  }

  /** `changedPages.map(key => parseInt(key.slice(4)))`: the page number of each changed key. */
  function PagesOfKeys(keys: seq<string>): (pages: seq<Option<int>>)
    ensures |pages| == |keys|
    ensures forall k :: 0 <= k < |keys| ==> pages[k] == PageOfKey(keys[k])
  {
    if keys == [] then [] else PagesOfKeys(keys[..|keys| - 1]) + [PageOfKey(keys[|keys| - 1])]
  }

  /**
   * The loop of `updateAnnotations(changed)` over those page numbers, after
   * its first `k` steps: each page is removed then reloaded; a NaN page
   * number touches nothing (`_pages[NaN]` and `getLayer(NaN)` are both
   * undefined); the loop stops at the first page whose stored value does
   * not parse.
   */
  function ReloadPrefix(v: Surface, pageCount: nat, store: Store, c: Codec, ns: seq<Option<int>>, k: nat): (Surface, bool)
    requires k <= |ns|
  {
    if k == 0 then (v, true)
    else
      var (w, ok) := ReloadPrefix(v, pageCount, store, c, ns, k - 1);
      if !ok then (w, false)
      else match ns[k - 1]
        case None => (w, true)
        case Some(n) => ReloadPage(w, pageCount, store, c, n)
  }

  /** The whole reload loop over the page numbers `ns`. */
  function ReloadPages(v: Surface, pageCount: nat, store: Store, c: Codec, ns: seq<Option<int>>): (Surface, bool) {
    ReloadPrefix(v, pageCount, store, c, ns, |ns|)
  }

  /** One more step of the loop: nothing once a page has thrown, nothing for NaN, otherwise one page reloaded. */
  lemma ReloadPrefixNext(v: Surface, pageCount: nat, store: Store, c: Codec, ns: seq<Option<int>>, k: nat)
    requires k < |ns|
    ensures !ReloadPrefix(v, pageCount, store, c, ns, k).1 ==>
      ReloadPrefix(v, pageCount, store, c, ns, k + 1) == ReloadPrefix(v, pageCount, store, c, ns, k)
    ensures ReloadPrefix(v, pageCount, store, c, ns, k).1 && ns[k].None? ==>
      ReloadPrefix(v, pageCount, store, c, ns, k + 1) == ReloadPrefix(v, pageCount, store, c, ns, k)
    ensures ReloadPrefix(v, pageCount, store, c, ns, k).1 && ns[k].Some? ==>
      ReloadPrefix(v, pageCount, store, c, ns, k + 1) ==
        ReloadPage(ReloadPrefix(v, pageCount, store, c, ns, k).0, pageCount, store, c, ns[k].value)
  {
  }

  /** The reload loop neither creates nor drops layers. */
  lemma {:induction false} ReloadPagesKeepsLayers(v: Surface, pageCount: nat, store: Store, c: Codec, ns: seq<Option<int>>, k: nat)
    requires k <= |ns|
    ensures ReloadPrefix(v, pageCount, store, c, ns, k).0.layers.Keys == v.layers.Keys
  {
    if k > 0 {
      ReloadPagesKeepsLayers(v, pageCount, store, c, ns, k - 1);
      var w := ReloadPrefix(v, pageCount, store, c, ns, k - 1).0;
      if ns[k - 1].Some? {
        ReloadPageKeepsLayers(w, pageCount, store, c, ns[k - 1].value);
      }
    }
  }

  /** Pages named by none of the page numbers keep their editors. */
  lemma {:induction false} ReloadPagesUntouched(v: Surface, pageCount: nat, store: Store, c: Codec, ns: seq<Option<int>>, k: nat, j: int)
    requires k <= |ns|
    requires LayersWithin(v.layers, pageCount)
    requires forall i :: 0 <= i < k ==> ns[i] != Some(j + 1)
    ensures EditorsOn(ReloadPrefix(v, pageCount, store, c, ns, k).0.layers, j) == EditorsOn(v.layers, j)
  {
    if k > 0 {
      ReloadPagesUntouched(v, pageCount, store, c, ns, k - 1, j);
      ReloadPagesKeepsLayers(v, pageCount, store, c, ns, k - 1);
      ReloadPrefixNext(v, pageCount, store, c, ns, k - 1);
      var (w, ok) := ReloadPrefix(v, pageCount, store, c, ns, k - 1);
      assert LayersWithin(w.layers, pageCount);
      if ok && ns[k - 1].Some? {
        var n := ns[k - 1].value;
        assert n != j + 1;
        ReloadPageEffect(w, pageCount, store, c, n);
      }
    }
  }

  /** The loop ran to the end exactly when none of the named pages holds a value that fails to parse. */
  lemma {:induction false} ReloadPagesCompletes(v: Surface, pageCount: nat, store: Store, c: Codec, ns: seq<Option<int>>, k: nat)
    requires k <= |ns|
    requires LayersWithin(v.layers, pageCount)
    ensures ReloadPrefix(v, pageCount, store, c, ns, k).1 <==>
      forall i :: 0 <= i < k && ns[i].Some? ==>
        PlanLoad(store, c, ns[i].value, HasLayer(v.layers, ns[i].value - 1)) != Malformed
  {
    if k > 0 {
      ReloadPagesCompletes(v, pageCount, store, c, ns, k - 1);
      ReloadPagesKeepsLayers(v, pageCount, store, c, ns, k - 1);
      var (w, ok) := ReloadPrefix(v, pageCount, store, c, ns, k - 1);
      assert LayersWithin(w.layers, pageCount);
      if ok && ns[k - 1].Some? {
        var n := ns[k - 1].value;
        assert HasLayer(w.layers, n - 1) == HasLayer(v.layers, n - 1);
        ReloadPageEffect(w, pageCount, store, c, n);
      }
    }
  }

  /** What step `k` of the loop does to page `n - 1`, once the earlier steps have run to the end. */
  lemma ReloadPagesLastStep(v: Surface, pageCount: nat, store: Store, c: Codec, ns: seq<Option<int>>, k: nat, n: int)
    requires 0 < k <= |ns|
    requires LayersWithin(v.layers, pageCount)
    requires ReloadPrefix(v, pageCount, store, c, ns, k - 1).1
    ensures var before := ReloadPrefix(v, pageCount, store, c, ns, k - 1).0.layers;
      var after := ReloadPrefix(v, pageCount, store, c, ns, k).0.layers;
      (ns[k - 1] == Some(n) ==> EditorsOn(after, n - 1) == ReloadedEditors(store, c, n, HasLayer(v.layers, n - 1)))
      && (ns[k - 1] != Some(n) ==> EditorsOn(after, n - 1) == EditorsOn(before, n - 1))
  {
    var w := ReloadPrefix(v, pageCount, store, c, ns, k - 1).0;
    ReloadPrefixNext(v, pageCount, store, c, ns, k - 1);
    ReloadPagesKeepsLayers(v, pageCount, store, c, ns, k - 1);
    assert HasLayer(w.layers, n - 1) == HasLayer(v.layers, n - 1);
    assert LayersWithin(w.layers, pageCount);
    var last := ns[k - 1];
    if last.Some? {
      assert ReloadPrefix(v, pageCount, store, c, ns, k).0 == ReloadPage(w, pageCount, store, c, last.value).0;
      ReloadPageEffect(w, pageCount, store, c, last.value);
    } else {
      assert ReloadPrefix(v, pageCount, store, c, ns, k).0 == w;
    }
  }

  /**
   * When the loop runs to the end, every page it names shows exactly the
   * editors loaded from the store: replace, not merge, and no duplicates.
   */
  lemma {:induction false} ReloadPagesReplaces(v: Surface, pageCount: nat, store: Store, c: Codec, ns: seq<Option<int>>, k: nat, i: nat)
    requires LayersWithin(v.layers, pageCount)
    requires i < k <= |ns| && ns[i].Some?
    requires ReloadPrefix(v, pageCount, store, c, ns, k).1
    ensures EditorsOn(ReloadPrefix(v, pageCount, store, c, ns, k).0.layers, ns[i].value - 1) ==
      ReloadedEditors(store, c, ns[i].value, HasLayer(v.layers, ns[i].value - 1))
  {
    var n := ns[i].value;
    ReloadPrefixNext(v, pageCount, store, c, ns, k - 1);
    assert ReloadPrefix(v, pageCount, store, c, ns, k - 1).1;
    ReloadPagesLastStep(v, pageCount, store, c, ns, k, n);
    if ns[k - 1] != Some(n) {
      ReloadPagesReplaces(v, pageCount, store, c, ns, k - 1, i);
    }
  }
}
