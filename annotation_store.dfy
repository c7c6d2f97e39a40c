/**
 * What the annotation synchronisation persists (scripts/pdf-annotations.mjs):
 * one string flag per PDF page under `flags.pdf-pager.objects.page<N>`, and
 * the flush that serialises every page and stages only the pages whose value
 * changed.
 *
 * pdf.js is foreign: an editor's own `serialize`, a layer's `deserialize` and
 * `JSON.stringify`/`JSON.parse` of one descriptor are parameters (`Codec`).
 */
module AnnotationStore {
  import opened Wrappers
  import opened Strings

  /** A serialised editor: an opaque JSON object produced by pdf.js. */
  datatype Descriptor = Descriptor(fields: map<string, string>)

  /** A live annotation editor on a page layer (stamp, ink, highlight, free text, ...). */
  datatype Editor = Editor(kind: string, x: real, y: real, width: real, height: real, selected: bool, payload: string)

  /** The foreign pdf.js and JSON capabilities. */
  datatype Codec = Codec(
    serialize: Editor -> Option<Descriptor>,      // editor.serialize(true); None for a falsy result
    deserialize: Descriptor -> Option<Editor>,    // layer.deserialize(data); None for a falsy result
    toJson: Descriptor -> string,                 // JSON.stringify of one descriptor
    parse: string -> Option<seq<Descriptor>>)     // JSON.parse + iteration; None where that throws

  /** One entry of `pdfViewer._pages`; only a page with both parts is saved. */
  datatype PageView = PageView(hasPdfPage: bool, hasAnnotationLayer: bool) {
    predicate Ready() {
      hasPdfPage && hasAnnotationLayer
    }
  }

  /** The live editors, by page index (a key is present when that page's editor layer exists). */
  type Layers = map<nat, seq<Editor>>

  /** The document's `objects` flags, by key `page<N>`; an absent key is `undefined`. */
  type Store = map<string, string>

  /** One staged property of an update, in the order it was set. */
  datatype Entry = Entry(key: string, value: string)

  // ---------------------------------------------------------------------------
  // Flag names

  /**
   * The key of page `n` in the `objects` flags: `flagName(n)` is the path
   * `flags.pdf-pager.objects.page<n>`, and a `Store` holds what is under
   * `objects`, so only its last segment is kept.
   */
  function PageKey(n: int): string {
    "page" + IntToString(n)
  }

  /** `parseInt(key.slice(4))`: the page number a changed key stands for (`None` for NaN). */
  function PageOfKey(key: string): Option<int> {
    ParseInt(if |key| >= 4 then key[4..] else "")
  }

  /** Stripping `page` and parsing inverts `flagName`'s `page${n}`. */
  lemma PageOfKeyInvertsPageKey(n: int)
    ensures PageOfKey(PageKey(n)) == Some(n)
  {
    assert PageKey(n)[4..] == IntToString(n);
    ParseIntOfIntToString(n);
  }

  /** Distinct pages are stored under distinct keys. */
  lemma PageKeyInjective(a: int, b: int)
    ensures PageKey(a) == PageKey(b) <==> a == b
  {
    if PageKey(a) == PageKey(b) {
      PageOfKeyInvertsPageKey(a);
      PageOfKeyInvertsPageKey(b);
    }
  }

  // ---------------------------------------------------------------------------
  // Serialising one page

  /** `getEditors(i)`: the editors on page index `i`, none where there is no layer. */
  function EditorsOn(layers: Layers, i: int): seq<Editor> {
    if 0 <= i && i in layers then layers[i] else []
  }

  /** The elements of a JSON array, comma-separated. */
  function JoinJson(ds: seq<Descriptor>, toJson: Descriptor -> string): string {
    if ds == [] then ""
    else if |ds| == 1 then toJson(ds[0])
    else toJson(ds[0]) + "," + JoinJson(ds[1..], toJson)
  }

  /** `JSON.stringify` of an array of descriptors. */
  function Stringify(ds: seq<Descriptor>, toJson: Descriptor -> string): string {
    "[" + JoinJson(ds, toJson) + "]"
  }

  /** The value saved for a page holding `es`. */
  function PageValue(es: seq<Editor>, c: Codec): string {
    var ds := FilterMap(es, c.serialize);
    if |ds| > 0 then Stringify(ds, c.toJson) else ""
  }

  /**
   * A page's value is `""` exactly when no editor serialises to something
   * truthy, and otherwise the JSON array of the truthy serialisations in
   * editor order.
   */
  lemma PageValueMeaning(es: seq<Editor>, c: Codec)
    ensures PageValue(es, c) == "" <==> forall i :: 0 <= i < |es| ==> c.serialize(es[i]).None?
    ensures PageValue(es, c) != "" ==> PageValue(es, c) == Stringify(FilterMap(es, c.serialize), c.toJson)
  {
    FilterMapEmpty(es, c.serialize);
  }

  /** `oldvalue != value`, where an absent flag (`undefined`) differs from every string. */
  predicate Differs(store: Store, key: string, value: string) {
    key !in store || store[key] != value
  }

  // ---------------------------------------------------------------------------
  // Staging and applying an update

  /** What the flush stages for page index `i` (page number `i + 1`). */
  function StageOne(pages: seq<PageView>, i: nat, layers: Layers, store: Store, c: Codec): seq<Entry>
    requires i < |pages|
  {
    var value := PageValue(EditorsOn(layers, i), c);
    if pages[i].Ready() && Differs(store, PageKey(i + 1), value) then [Entry(PageKey(i + 1), value)] else []
  }

  /** What the flush has staged after visiting the first `n` page views. */
  function Staged(pages: seq<PageView>, n: nat, layers: Layers, store: Store, c: Codec): seq<Entry>
    requires n <= |pages|
  {
    if n == 0 then [] else Staged(pages, n - 1, layers, store, c) + StageOne(pages, n - 1, layers, store, c)
  }

  /** One more page view: what the flush loop appends for it, given the page's truthy serialisations. */
  lemma StagedNext(pages: seq<PageView>, i: nat, layers: Layers, store: Store, c: Codec, serialized: seq<Descriptor>)
    requires i < |pages|
    requires serialized == FilterMap(EditorsOn(layers, i), c.serialize)
    ensures var value := if |serialized| > 0 then Stringify(serialized, c.toJson) else "";
      Staged(pages, i + 1, layers, store, c) == Staged(pages, i, layers, store, c) +
        (if pages[i].Ready() && Differs(store, PageKey(i + 1), value) then [Entry(PageKey(i + 1), value)] else [])
  {
    assert PageValue(EditorsOn(layers, i), c) == if |serialized| > 0 then Stringify(serialized, c.toJson) else "";
  }

  /** The value the latest of the first `k` entries for `key` sets, if any. */
  function LookupIn(batch: seq<Entry>, key: string, k: nat): Option<string>
    requires k <= |batch|
  {
    if k == 0 then None
    else if batch[k - 1].key == key then Some(batch[k - 1].value)
    else LookupIn(batch, key, k - 1)
  }

  /** The value the latest entry for `key` sets, if any. */
  function Lookup(batch: seq<Entry>, key: string): Option<string> {
    LookupIn(batch, key, |batch|)
  }

  lemma {:induction false} LookupInPrefix(batch: seq<Entry>, more: seq<Entry>, key: string, k: nat)
    requires k <= |batch|
    ensures LookupIn(batch + more, key, k) == LookupIn(batch, key, k)
  {
    if k > 0 {
      assert (batch + more)[k - 1] == batch[k - 1];
      LookupInPrefix(batch, more, key, k - 1);
    }
  }

  /** The store once the host has applied the first `k` staged entries in order. */
  function ApplyIn(store: Store, batch: seq<Entry>, k: nat): Store
    requires k <= |batch|
  {
    if k == 0 then store else ApplyIn(store, batch, k - 1)[batch[k - 1].key := batch[k - 1].value]
  }

  /** The store once the host has applied the staged entries in order. */
  function Apply(store: Store, batch: seq<Entry>): Store {
    ApplyIn(store, batch, |batch|)
  }

  lemma {:induction false} ApplyInLookupIn(store: Store, batch: seq<Entry>, key: string, k: nat)
    requires k <= |batch|
    ensures key in ApplyIn(store, batch, k) <==> LookupIn(batch, key, k).Some? || key in store
    ensures LookupIn(batch, key, k).Some? ==> ApplyIn(store, batch, k)[key] == LookupIn(batch, key, k).value
    ensures LookupIn(batch, key, k).None? && key in store ==> ApplyIn(store, batch, k)[key] == store[key]
  {
    if k > 0 {
      ApplyInLookupIn(store, batch, key, k - 1);
    }
  }

  /** Applying a batch sets each key it names to the latest value staged for it, and keeps the others. */
  lemma ApplyLookup(store: Store, batch: seq<Entry>, key: string)
    ensures key in Apply(store, batch) <==> Lookup(batch, key).Some? || key in store
    ensures Lookup(batch, key).Some? ==> Apply(store, batch)[key] == Lookup(batch, key).value
    ensures Lookup(batch, key).None? && key in store ==> Apply(store, batch)[key] == store[key]
  {
    ApplyInLookupIn(store, batch, key, |batch|);
  }

  lemma LookupAppend(batch: seq<Entry>, one: seq<Entry>, key: string)
    requires |one| <= 1
    ensures Lookup(batch + one, key) ==
      if one != [] && one[0].key == key then Some(one[0].value) else Lookup(batch, key)
  {
    LookupInPrefix(batch, one, key, |batch|);
    if one != [] {
      assert (batch + one)[|batch|] == one[0];
    }
  }

  /**
   * A page is staged exactly when it is ready and its new value differs from
   * the stored one, and then with that value; there is one entry per page.
   */
  lemma {:induction false} StagedAt(pages: seq<PageView>, n: nat, layers: Layers, store: Store, c: Codec, j: nat)
    requires n <= |pages|
    ensures Lookup(Staged(pages, n, layers, store, c), PageKey(j + 1)) ==
      if j < n && pages[j].Ready() && Differs(store, PageKey(j + 1), PageValue(EditorsOn(layers, j), c))
      then Some(PageValue(EditorsOn(layers, j), c))
      else None
  {
    if n > 0 {
      var prev := Staged(pages, n - 1, layers, store, c);
      var one := StageOne(pages, n - 1, layers, store, c);
      LookupAppend(prev, one, PageKey(j + 1));
      PageKeyInjective(j + 1, n);
      StagedAt(pages, n - 1, layers, store, c, j);
    }
  }

  /** Every staged key is the key of one of the visited pages, so nothing else is written. */
  lemma {:induction false} StagedKeys(pages: seq<PageView>, n: nat, layers: Layers, store: Store, c: Codec)
    requires n <= |pages|
    ensures forall k :: 0 <= k < |Staged(pages, n, layers, store, c)| ==>
      exists j :: 0 <= j < n && pages[j].Ready() && Staged(pages, n, layers, store, c)[k].key == PageKey(j + 1)
  {
    var all := Staged(pages, n, layers, store, c);
    if n == 0 {
      assert all == [];
    } else {
      StagedKeys(pages, n - 1, layers, store, c);
      var prev := Staged(pages, n - 1, layers, store, c);
      var one := StageOne(pages, n - 1, layers, store, c);
      assert all == prev + one;
      forall k | 0 <= k < |all|
        ensures exists j :: 0 <= j < n && pages[j].Ready() && all[k].key == PageKey(j + 1)
      {
        if k < |prev| {
          assert all[k] == prev[k];
          var j :| 0 <= j < n - 1 && pages[j].Ready() && prev[k].key == PageKey(j + 1);
          assert 0 <= j < n && pages[j].Ready() && all[k].key == PageKey(j + 1);
        } else {
          assert one != [] && all[k] == one[0];
          assert 0 <= n - 1 < n && pages[n - 1].Ready() && all[k].key == PageKey(n - 1 + 1);
        }
      }
    }
  }

  /** After applying a flush's batch, every ready page's stored value is its current value. */
  lemma ApplyStagedStores(pages: seq<PageView>, layers: Layers, store: Store, c: Codec, j: nat)
    requires j < |pages| && pages[j].Ready()
    ensures var after := Apply(store, Staged(pages, |pages|, layers, store, c));
      PageKey(j + 1) in after && after[PageKey(j + 1)] == PageValue(EditorsOn(layers, j), c)
  {
    StagedAt(pages, |pages|, layers, store, c, j);
    ApplyLookup(store, Staged(pages, |pages|, layers, store, c), PageKey(j + 1));
  }

  lemma {:induction false} NothingDiffersNothingStaged(pages: seq<PageView>, n: nat, layers: Layers, store: Store, c: Codec)
    requires n <= |pages|
    requires forall j :: 0 <= j < n && pages[j].Ready() ==>
      !Differs(store, PageKey(j + 1), PageValue(EditorsOn(layers, j), c))
    ensures Staged(pages, n, layers, store, c) == []
  {
    if n > 0 {
      var i := n - 1;
      NothingDiffersNothingStaged(pages, i, layers, store, c);
      assert pages[i].Ready() ==> !Differs(store, PageKey(i + 1), PageValue(EditorsOn(layers, i), c));
      assert StageOne(pages, i, layers, store, c) == [];
    }
  }

  /**
   * No-op suppression: once the host has applied a flush's batch, a second
   * flush over the same editors stages nothing, so it issues no update.
   */
  lemma SecondFlushStagesNothing(pages: seq<PageView>, layers: Layers, store: Store, c: Codec)
    ensures var after := Apply(store, Staged(pages, |pages|, layers, store, c));
      Staged(pages, |pages|, layers, after, c) == []
  {
    var after := Apply(store, Staged(pages, |pages|, layers, store, c));
    forall j | 0 <= j < |pages| && pages[j].Ready()
      ensures !Differs(after, PageKey(j + 1), PageValue(EditorsOn(layers, j), c))
    {
      ApplyStagedStores(pages, layers, store, c, j);
    }
    NothingDiffersNothingStaged(pages, |pages|, layers, after, c);
  }
}
