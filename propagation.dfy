/**
 * What one session's flush does to another session of the same document
 * (scripts/pdf-annotations.mjs): the batch `#updateFlags` sends is applied
 * to the document, the other session's `updateAnnotations` hook reloads the
 * pages named by the batch's keys, and each of those pages then shows the
 * editors the first session serialised.
 */
module Propagation {
  import opened Wrappers
  import opened AnnotationStore
  import opened AnnotationLayers
  import opened AnnotationSync

  /** `JSON.parse` reads back what `JSON.stringify` wrote for a non-empty array of descriptors. */
  ghost predicate ParsesBack(c: Codec) {
    forall ds: seq<Descriptor> :: ds != [] ==> c.parse(Stringify(ds, c.toJson)) == Some(ds)
  }

  /** The value saved for a page never makes its reload throw, and reloads the saved descriptors. */
  lemma StoredValueReloads(store: Store, c: Codec, n: int, es: seq<Editor>, hasLayer: bool)
    requires ParsesBack(c)
    requires PageKey(n) in store && store[PageKey(n)] == PageValue(es, c)
    ensures PlanLoad(store, c, n, hasLayer) != Malformed
    ensures hasLayer ==> ReloadedEditors(store, c, n, hasLayer) == Loaded(FilterMap(es, c.serialize), c)
  {
    FilterMapEmpty(es, c.serialize);
    var ds := FilterMap(es, c.serialize);
    if ds == [] {
      assert Loaded(ds, c) == [];
    } else {
      assert c.parse(Stringify(ds, c.toJson)) == Some(ds);
    }
  }

  /** A key among the first `k` entries the batch sets is the key of one of those entries. */
  lemma {:induction false} LookupInFound(batch: seq<Entry>, key: string, k: nat)
    requires k <= |batch| && LookupIn(batch, key, k).Some?
    ensures exists i :: 0 <= i < k && batch[i].key == key
  {
    if batch[k - 1].key != key {
      LookupInFound(batch, key, k - 1);
    }
  }

  /** A key the batch sets is the key of one of its entries. */
  lemma LookupFound(batch: seq<Entry>, key: string)
    requires Lookup(batch, key).Some?
    ensures exists k :: 0 <= k < |batch| && batch[k].key == key
  {
    LookupInFound(batch, key, |batch|);
  }

  /** Each key of a flush's batch names, through `parseInt`, a ready page of the flushing session. */
  lemma FlushedPages(pages: seq<PageView>, layers: Layers, store: Store, c: Codec)
    ensures var batch := Staged(pages, |pages|, layers, store, c);
      var ns := PagesOfKeys(KeysOf(batch));
      forall k :: 0 <= k < |ns| ==> exists j :: 0 <= j < |pages| && pages[j].Ready() && ns[k] == Some(j + 1)
  {
    var batch := Staged(pages, |pages|, layers, store, c);
    var ns := PagesOfKeys(KeysOf(batch));
    StagedKeys(pages, |pages|, layers, store, c);
    forall k | 0 <= k < |ns|
      ensures exists j :: 0 <= j < |pages| && pages[j].Ready() && ns[k] == Some(j + 1)
    {
      var j :| 0 <= j < |pages| && pages[j].Ready() && batch[k].key == PageKey(j + 1);
      PageOfKeyInvertsPageKey(j + 1);
    }
  }

  /** The page a flushed key names holds, once the batch is applied, a value whose load does not throw. */
  lemma FlushedKeyReloads(pages: seq<PageView>, layers: Layers, store: Store, c: Codec, k: nat)
    requires ParsesBack(c)
    requires k < |Staged(pages, |pages|, layers, store, c)|
    ensures var batch := Staged(pages, |pages|, layers, store, c);
      var n := PageOfKey(batch[k].key);
      n.Some?
      && PlanLoad(Apply(store, batch), c, n.value, true) != Malformed
      && PlanLoad(Apply(store, batch), c, n.value, false) != Malformed
  {
    var batch := Staged(pages, |pages|, layers, store, c);
    StagedKeys(pages, |pages|, layers, store, c);
    var j :| 0 <= j < |pages| && pages[j].Ready() && batch[k].key == PageKey(j + 1);
    PageOfKeyInvertsPageKey(j + 1);
    ApplyStagedStores(pages, layers, store, c, j);
    StoredValueReloads(Apply(store, batch), c, j + 1, EditorsOn(layers, j), true);
    StoredValueReloads(Apply(store, batch), c, j + 1, EditorsOn(layers, j), false);
  }

  /** The other session's reload of a flushed batch runs to the end: nothing it reads fails to parse. */
  lemma RemoteReloadCompletes(pages: seq<PageView>, layers: Layers, store: Store, c: Codec, other: Surface, otherPageCount: nat)
    requires ParsesBack(c)
    requires LayersWithin(other.layers, otherPageCount)
    ensures var batch := Staged(pages, |pages|, layers, store, c);
      ReloadPages(other, otherPageCount, Apply(store, batch), c, PagesOfKeys(KeysOf(batch))).1
  {
    var batch := Staged(pages, |pages|, layers, store, c);
    var after := Apply(store, batch);
    var ns := PagesOfKeys(KeysOf(batch));
    forall k | 0 <= k < |ns| && ns[k].Some?
      ensures PlanLoad(after, c, ns[k].value, HasLayer(other.layers, ns[k].value - 1)) != Malformed
    {
      assert ns[k] == PageOfKey(batch[k].key);
      FlushedKeyReloads(pages, layers, store, c, k);
    }
    ReloadPagesCompletes(other, otherPageCount, after, c, ns, |ns|);
  }

  /**
   * A page the flush staged, when the other session has its editor layer,
   * ends with exactly the editors that deserialise from what the flushing
   * session serialised for it: its earlier editors are replaced, not merged.
   */
  lemma RemoteReloadMirrorsFlush(pages: seq<PageView>, layers: Layers, store: Store, c: Codec,
                                 other: Surface, otherPageCount: nat, j: nat)
    requires ParsesBack(c)
    requires LayersWithin(other.layers, otherPageCount)
    requires j < |pages| && pages[j].Ready() && Differs(store, PageKey(j + 1), PageValue(EditorsOn(layers, j), c))
    requires HasLayer(other.layers, j)
    ensures var batch := Staged(pages, |pages|, layers, store, c);
      var reloaded := ReloadPages(other, otherPageCount, Apply(store, batch), c, PagesOfKeys(KeysOf(batch)));
      reloaded.1 && EditorsOn(reloaded.0.layers, j) == Loaded(FilterMap(EditorsOn(layers, j), c.serialize), c)
  {
    var batch := Staged(pages, |pages|, layers, store, c);
    var after := Apply(store, batch);
    var ns := PagesOfKeys(KeysOf(batch));
    RemoteReloadCompletes(pages, layers, store, c, other, otherPageCount);
    StagedAt(pages, |pages|, layers, store, c, j);
    LookupFound(batch, PageKey(j + 1));
    var k :| 0 <= k < |batch| && batch[k].key == PageKey(j + 1);
    PageOfKeyInvertsPageKey(j + 1);
    assert ns[k] == Some(j + 1);
    ReloadPagesReplaces(other, otherPageCount, after, c, ns, |ns|, k);
    ApplyStagedStores(pages, layers, store, c, j);
    StoredValueReloads(after, c, j + 1, EditorsOn(layers, j), true);
  }
}
