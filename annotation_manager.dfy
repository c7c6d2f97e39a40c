/**
 * The `AnnotationManager` of scripts/pdf-annotations.mjs as a class whose
 * methods change its fields as the source does, the module-level `mapping`
 * as a `Registry` class, and the two hook filters `updateAnnotations` and
 * `pageClosed`.
 *
 * The two debouncers are the booleans `flushPending` and `endEditPending`;
 * `FlushTimer` and `EndEditTimer` are the quiet period expiring. An update
 * sent to the host is returned as an `Update` value.
 */
module AnnotationSync {
  import opened Wrappers
  import opened AnnotationStore
  import opened AnnotationLayers

  /** Values of `pdfViewer.pdfPagerMode`. */
  datatype Mode = NotEdited | IgnoreEdit | HasLocalEdits

  /** The options of a `document.update` call. */
  datatype UpdateOptions = UpdateOptions(render: bool, updatePdfEditors: bool)

  /** One `document.update(updates, options)` call: the staged `objects` properties in order. */
  datatype Update = Update(entries: seq<Entry>, options: UpdateOptions)

  /**
   * What an update hook's `changed` diff holds at `flags.pdf-pager.objects`,
   * if present: the changed `page<N>` properties with their new values, in
   * key order.
   */
  datatype Changed = Changed(objects: Option<seq<Entry>>)

  /** A host document, identified by id, and the id of its parent document if any. */
  datatype Doc = Doc(id: string, parent: Option<string>)

  /** The keys of a batch of entries, in order. */
  function KeysOf(batch: seq<Entry>): (keys: seq<string>)
    ensures |keys| == |batch|
    ensures forall k :: 0 <= k < |batch| ==> keys[k] == batch[k].key
  {
    if batch == [] then [] else KeysOf(batch[..|batch| - 1]) + [batch[|batch| - 1].key]
  }

  /**
   * The `editable` value computed when annotations are set up: the user owns
   * the document and neither the document's pack nor its parent's pack is a
   * locked compendium. `""` stands for no pack; `locked` maps pack ids known
   * to the host to their locked flag (an unknown pack is not locked).
   */
  predicate Editable(isOwner: bool, pack: string, parentPack: string, locked: map<string, bool>) {
    isOwner
    && (pack == "" || !(pack in locked && locked[pack]))
    && (parentPack == "" || !(parentPack in locked && locked[parentPack]))
  }

  /**
   * Who may edit: never someone who does not own the document, never inside
   * a locked compendium or under a parent in one; an owner may edit a world
   * document, and a document in a pack the host does not know.
   */
  lemma EditableCases(isOwner: bool, pack: string, parentPack: string, locked: map<string, bool>)
    ensures !isOwner ==> !Editable(isOwner, pack, parentPack, locked)
    ensures pack != "" && pack in locked && locked[pack] ==> !Editable(isOwner, pack, parentPack, locked)
    ensures parentPack != "" && parentPack in locked && locked[parentPack] ==> !Editable(isOwner, pack, parentPack, locked)
    ensures isOwner && pack !in locked && parentPack !in locked ==> Editable(isOwner, pack, parentPack, locked)
  {
  }

  class AnnotationManager {
    const document: Doc
    const editable: bool
    const codec: Codec
    /** `pdfViewer._pages`; the page view at index `i` shows page number `i + 1`. */
    const pages: seq<PageView>

    var mode: Mode
    var layers: Layers
    var toolMode: int
    var store: Store
    var flushPending: bool
    var endEditPending: bool
    /** The event-bus handlers are registered (from the constructor until `delete`). */
    var subscribed: bool

    ghost predicate Valid()
      reads this
    {
      LayersWithin(layers, |pages|)
    }

    /** The viewer state, as the functions of `AnnotationLayers` see it. */
    function View(): Surface
      reads this
    {
      Surface(layers, toolMode, endEditPending)
    }

    /** The constructor without its `mapping.set`, which `Registry.Open` performs. */
    constructor (doc: Doc, editable: bool, codec: Codec, pages: seq<PageView>, layers: Layers, toolMode: int, store: Store)
      requires LayersWithin(layers, |pages|)
      ensures Valid()
      ensures document == doc && this.editable == editable && this.codec == codec && this.pages == pages
      ensures this.layers == layers && this.toolMode == toolMode && this.store == store
      ensures mode == IgnoreEdit && subscribed && !flushPending && !endEditPending
    {
      document := doc;
      this.editable := editable;
      this.codec := codec;
      this.pages := pages;
      this.layers := layers;
      this.toolMode := toolMode;
      this.store := store;
      mode := IgnoreEdit;  // no edit events count until the pages are loaded
      flushPending := false;
      endEditPending := false;
      subscribed := true;
    }

    /**
     * pdf.js renders the editor layer of page index `pageIndex` (just before
     * it dispatches `annotationeditorlayerrendered`): a page view without a
     * layer gets an empty one.
     */
    method EditorLayerCreated(pageIndex: int)
      requires Valid()
      modifies this
      ensures Valid()
      ensures layers == if 0 <= pageIndex < |pages| && pageIndex !in old(layers) then old(layers)[pageIndex := []] else old(layers)
      ensures toolMode == old(toolMode) && endEditPending == old(endEditPending)
      ensures mode == old(mode) && store == old(store) && flushPending == old(flushPending)
      ensures subscribed == old(subscribed)
    {
      if 0 <= pageIndex < |pages| && pageIndex !in layers {
        layers := layers[pageIndex := []];
      }
    }

    /**
     * The host applies an update to `this.document` (before its update hook
     * runs): each changed `page<N>` property takes its new value.
     */
    method DocumentUpdated(entries: seq<Entry>)
      requires Valid()
      modifies this
      ensures Valid()
      ensures store == Apply(old(store), entries)
      ensures View() == old(View()) && mode == old(mode) && flushPending == old(flushPending)
      ensures subscribed == old(subscribed)
    {
      store := Apply(store, entries);
    }

    /**
     * The `annotationeditorlayerrendered` handler: a page that already has
     * editors is not loaded again; otherwise the page is loaded with edit
     * events ignored, then the mode is NOT_EDITED (unless loading threw).
     */
    method LayerRendered(pageNumber: int) returns (ok: bool)
      requires Valid()
      modifies this
      ensures Valid()
      ensures !old(subscribed) || |EditorsOn(old(layers), pageNumber - 1)| > 0 ==>
        ok && View() == old(View()) && mode == old(mode)
      ensures old(subscribed) && |EditorsOn(old(layers), pageNumber - 1)| == 0 ==>
        (View(), ok) == Load(old(View()), store, codec, pageNumber)
        && mode == (if ok then NotEdited else IgnoreEdit)
      ensures store == old(store) && flushPending == old(flushPending) && subscribed == old(subscribed)
    {
      ok := true;
      if !subscribed {
        return;
      }
      var editors := EditorsOn(layers, pageNumber - 1);
      if |editors| > 0 {
        return;
      }
      mode := IgnoreEdit;
      ok := SetPageAnnotations(pageNumber);
      if ok {
        mode := NotEdited;
      }
    }

    /**
     * `#updateFlags`: serialise every ready page, stage a page only when its
     * value differs from the stored one, issue one update tagged
     * `updatePdfEditors` when anything was staged, and end NOT_EDITED.
     */
    method UpdateFlags() returns (u: Option<Update>)
      requires Valid()
      modifies this
      ensures Valid()
      ensures var staged := Staged(pages, |pages|, layers, store, codec);
        u == if |staged| > 0 then Some(Update(staged, UpdateOptions(false, true))) else None
      ensures mode == NotEdited
      ensures View() == old(View()) && store == old(store)
      ensures flushPending == old(flushPending) && subscribed == old(subscribed)
    {
      var updates: seq<Entry> := [];
      var i := 0;
      while i < |pages|
        invariant 0 <= i <= |pages|
        invariant updates == Staged(pages, i, layers, store, codec)
        invariant unchanged(this)
      {
        StagedNext(pages, i, layers, store, codec, FilterMap(EditorsOn(layers, i), codec.serialize));
        if pages[i].Ready() {
          var serialized := SerializeEditors(EditorsOn(layers, i));
          var value := if |serialized| > 0 then Stringify(serialized, codec.toJson) else "";
          var key := PageKey(i + 1);
          if key !in store || store[key] != value {
            updates := updates + [Entry(key, value)];
          }
        }
        i := i + 1;
      }
      u := if |updates| > 0 then Some(Update(updates, UpdateOptions(false, true))) else None;
      mode := NotEdited;
    }

    /** The inner loop of `#updateFlags`: the truthy serialisations of a page's editors, in order. */
    method SerializeEditors(editors: seq<Editor>) returns (serialized: seq<Descriptor>)
      ensures serialized == FilterMap(editors, codec.serialize)
    {
      serialized := [];
      var j := 0;
      while j < |editors|
        invariant 0 <= j <= |editors|
        invariant serialized == FilterMap(editors[..j], codec.serialize)
      {
        assert editors[..j + 1][..j] == editors[..j];
        var s := codec.serialize(editors[j]);
        if s.Some? {
          serialized := serialized + [s.value];
        }
        j := j + 1;
      }
      assert editors[..j] == editors;
    }

    /**
     * The `annotationeditorstateschanged` handler (registered only for an
     * editable manager): ignored while IGNORE_EDIT; `isEditing` records local
     * edits; the end of an edit schedules the flush only after local edits.
     */
    method EditStateChanged(isEditing: bool)
      modifies this
      ensures !old(subscribed) || !editable || old(mode) == IgnoreEdit ==>
        mode == old(mode) && flushPending == old(flushPending)
      ensures old(subscribed) && editable && old(mode) != IgnoreEdit && isEditing ==>
        mode == HasLocalEdits && flushPending == old(flushPending)
      ensures old(subscribed) && editable && old(mode) != IgnoreEdit && !isEditing ==>
        mode == old(mode) && flushPending == (old(flushPending) || old(mode) == HasLocalEdits)
      ensures View() == old(View()) && store == old(store) && subscribed == old(subscribed)
    {
      if !subscribed || !editable {
        return;
      }
      if mode == IgnoreEdit {
        return;
      }
      if isEditing {
        mode := HasLocalEdits;
        return;
      } else if mode != HasLocalEdits {
        return;
      }
      flushPending := true;  // debounceUpdateFlags()
    }

    /** The flush debouncer's quiet period ends: runs `#updateFlags` once if it was scheduled. */
    method FlushTimer() returns (u: Option<Update>)
      requires Valid()
      modifies this
      ensures Valid()
      ensures !flushPending
      ensures old(flushPending) ==>
        var staged := Staged(pages, |pages|, layers, store, codec);
        mode == NotEdited
        && u == if |staged| > 0 then Some(Update(staged, UpdateOptions(false, true))) else None
      ensures !old(flushPending) ==> u == None && mode == old(mode)
      ensures View() == old(View()) && store == old(store) && subscribed == old(subscribed)
    {
      u := None;
      if flushPending {
        flushPending := false;
        u := UpdateFlags();
      }
    }

    /** `removePageAnnotations(pageIndex)`: removes every editor of that page, if the page view exists. */
    method RemovePageAnnotations(pageIndex: int)
      requires Valid()
      modifies this
      ensures Valid()
      ensures View() == Clear(old(View()), |pages|, pageIndex)
      ensures mode == old(mode) && store == old(store) && flushPending == old(flushPending)
      ensures subscribed == old(subscribed)
    {
      if !(0 <= pageIndex < |pages|) {
        return;
      }
      var editors := EditorsOn(layers, pageIndex);
      var k := 0;
      while k < |editors|
        invariant 0 <= k <= |editors|
        invariant pageIndex in old(layers) ==> layers == old(layers)[pageIndex := editors[k..]]
        invariant pageIndex !in old(layers) ==> layers == old(layers)
        invariant toolMode == old(toolMode) && endEditPending == old(endEditPending)
        invariant mode == old(mode) && store == old(store) && flushPending == old(flushPending)
        invariant subscribed == old(subscribed)
      {
        layers := layers[pageIndex := layers[pageIndex][1..]];  // editors[k].remove()
        k := k + 1;
      }
    }

    /**
     * `setPageAnnotations(pageNumber)`: nothing without a stored value or a
     * layer; otherwise switch to STAMP mode, parse, add every descriptor that
     * deserialises (moved back by its size, unselected) and schedule the
     * end-of-edit reset. `ok` is false where `JSON.parse` throws.
     */
    method SetPageAnnotations(pageNumber: int) returns (ok: bool)
      requires Valid()
      modifies this
      ensures Valid()
      ensures (View(), ok) == Load(old(View()), store, codec, pageNumber)
      ensures mode == old(mode) && store == old(store) && flushPending == old(flushPending)
      ensures subscribed == old(subscribed)
    {
      ok := true;
      var key := PageKey(pageNumber);
      if key !in store || store[key] == "" {
        return;
      }
      var i := pageNumber - 1;
      if !(0 <= i && i in layers) {
        return;  // loaded when that layer is rendered
      }
      toolMode := ToolStamp;
      var data := codec.parse(store[key]);
      if data.None? {
        ok := false;
        return;
      }
      AddEditors(i, data.value);
      endEditPending := true;  // debounceEndEdit()
    }

    /** The loop of `setPageAnnotations`: each descriptor that deserialises is placed and added to layer `i`. */
    method AddEditors(i: nat, ds: seq<Descriptor>)
      requires i in layers
      modifies this
      ensures layers == old(layers)[i := old(layers)[i] + Loaded(ds, codec)]
      ensures toolMode == old(toolMode) && endEditPending == old(endEditPending)
      ensures mode == old(mode) && store == old(store) && flushPending == old(flushPending)
      ensures subscribed == old(subscribed)
    {
      var k := 0;
      while k < |ds|
        invariant 0 <= k <= |ds|
        invariant i in layers && layers == old(layers)[i := layers[i]]
        invariant layers[i] == old(layers)[i] + Loaded(ds[..k], codec)
        invariant toolMode == old(toolMode) && endEditPending == old(endEditPending)
        invariant mode == old(mode) && store == old(store) && flushPending == old(flushPending)
        invariant subscribed == old(subscribed)
      {
        LoadedNext(ds, k, codec);
        var editor := codec.deserialize(ds[k]);
        if editor.Some? {
          layers := layers[i := layers[i] + [Place(editor.value)]];  // move back, layer.add(editor), editor.unselect()
        }
        k := k + 1;
      }
      assert ds[..k] == ds;
    }

    /** The end-of-edit debouncer's quiet period ends: `#endEdit` switches the tool mode to NONE. */
    method EndEditTimer()
      modifies this
      ensures !endEditPending
      ensures toolMode == if old(endEditPending) then ToolNone else old(toolMode)
      ensures layers == old(layers) && mode == old(mode) && store == old(store)
      ensures flushPending == old(flushPending) && subscribed == old(subscribed)
    {
      if endEditPending {
        endEditPending := false;
        toolMode := ToolNone;
      }
    }

    /** One step of the loop of `updateAnnotations`: `removePageAnnotations(n - 1); setPageAnnotations(n)`. */
    method ReloadPage(n: int) returns (ok: bool)
      requires Valid()
      modifies this
      ensures Valid()
      ensures (View(), ok) == AnnotationLayers.ReloadPage(old(View()), |pages|, store, codec, n)
      ensures mode == old(mode) && store == old(store) && flushPending == old(flushPending)
      ensures subscribed == old(subscribed)
    {
      RemovePageAnnotations(n - 1);
      ok := SetPageAnnotations(n);
    }

    /**
     * `updateAnnotations(changed)`: with edit events ignored, remove then
     * reload every page named by a changed `page<N>` key, then NOT_EDITED.
     * A stored value that does not parse stops the loop with IGNORE_EDIT.
     */
    method UpdateAnnotations(changed: Changed) returns (ok: bool)
      requires Valid()
      modifies this
      ensures Valid()
      ensures (View(), ok) == ReloadPages(old(View()), |pages|, store, codec, PagesOfKeys(KeysOf(changed.objects.GetOr([]))))
      ensures mode == if ok then NotEdited else IgnoreEdit
      ensures store == old(store) && flushPending == old(flushPending) && subscribed == old(subscribed)
    {
      mode := IgnoreEdit;
      ok := ReloadChangedPages(PagesOfKeys(KeysOf(changed.objects.GetOr([]))));
      mode := if ok then NotEdited else IgnoreEdit;
    }

    /** The loop of `updateAnnotations` over the changed page numbers: stops at the first page that throws. */
    method ReloadChangedPages(ns: seq<Option<int>>) returns (ok: bool)
      requires Valid()
      modifies this
      ensures Valid()
      ensures (View(), ok) == ReloadPages(old(View()), |pages|, store, codec, ns)
      ensures mode == old(mode) && store == old(store) && flushPending == old(flushPending)
      ensures subscribed == old(subscribed)
    {
      ok := true;
      var k := 0;
      while k < |ns|
        invariant 0 <= k <= |ns|
        invariant Valid()
        invariant (View(), true) == ReloadPrefix(old(View()), |pages|, store, codec, ns, k)
        invariant mode == old(mode) && store == old(store)
        invariant flushPending == old(flushPending) && subscribed == old(subscribed)
      {
        ReloadPrefixNext(old(View()), |pages|, store, codec, ns, k);
        if ns[k].Some? {
          ok := ReloadPage(ns[k].value);
          if !ok {
            ReloadPagesAborted(old(View()), |pages|, store, codec, ns, k + 1, |ns|);
            return;
          }
        }
        k := k + 1;
      }
    }
  }

  /** Once the reload loop has stopped, the remaining keys change nothing. */
  lemma {:induction false} ReloadPagesAborted(v: Surface, pageCount: nat, store: Store, c: Codec, ns: seq<Option<int>>, m: nat, k: nat)
    requires m <= k <= |ns| && !ReloadPrefix(v, pageCount, store, c, ns, m).1
    ensures ReloadPrefix(v, pageCount, store, c, ns, k) == ReloadPrefix(v, pageCount, store, c, ns, m)
  {
    if k > m {
      ReloadPagesAborted(v, pageCount, store, c, ns, m, k - 1);
    }
  }

  /** `s` without `d`, order kept (`Map.delete` on the insertion order). */
  function Without(s: seq<Doc>, d: Doc): (r: seq<Doc>)
    ensures forall x :: x in r <==> x in s && x != d
    ensures d !in s ==> r == s
  {
    if s == [] then []
    else if s[|s| - 1] == d then Without(s[..|s| - 1], d)
    else Without(s[..|s| - 1], d) + [s[|s| - 1]]
  }

  predicate Distinct(s: seq<Doc>) {
    forall i, j :: 0 <= i < j < |s| ==> s[i] != s[j]
  }

  /** Removing a document keeps the order free of duplicates. */
  lemma {:induction false} WithoutDistinct(s: seq<Doc>, d: Doc)
    requires Distinct(s)
    ensures Distinct(Without(s, d))
  {
    if s != [] {
      var prefix := s[..|s| - 1];
      var last := s[|s| - 1];
      WithoutDistinct(prefix, d);
      if last != d {
        var r := Without(prefix, d);
        assert last !in prefix by {
          forall i | 0 <= i < |prefix| ensures prefix[i] != last {
            assert s[i] != s[|s| - 1];
          }
        }
        assert last !in r;
        assert Without(s, d) == r + [last];
      }
    }
  }

  /** `pageClosed`'s test: the closed sheet shows this document or its parent. */
  predicate Closes(sheet: Doc, d: Doc) {
    sheet == d || d.parent == Some(sheet.id)
  }

  /** The index of the first document of `s`, in order, that the closed sheet closes. */
  function FirstClosed(s: seq<Doc>, sheet: Doc): (r: Option<nat>)
    ensures r.Some? ==> r.value < |s| && Closes(sheet, s[r.value])
    ensures r.Some? ==> forall j :: 0 <= j < r.value ==> !Closes(sheet, s[j])
    ensures r.None? ==> forall j :: 0 <= j < |s| ==> !Closes(sheet, s[j])
  {
    if s == [] then None
    else if Closes(sheet, s[0]) then Some(0)
    else match FirstClosed(s[1..], sheet)
      case None => None
      case Some(k) => Some(k + 1)
  }

  /** Whether the `updateAnnotations` hook reloads: a module-tagged update, from another user, touching `objects`. */
  predicate Reloads(changed: Changed, options: UpdateOptions, userId: string, currentUser: string) {
    options.updatePdfEditors && currentUser != userId && changed.objects.Some?
  }

  /** The module-level `mapping` from documents to their managers, with its insertion order. */
  class Registry {
    var entries: seq<Doc>
    var managers: map<Doc, AnnotationManager>

    ghost predicate Valid()
      reads this, managers.Values
    {
      Distinct(entries)
      && (forall d :: d in managers <==> d in entries)
      && (forall d | d in managers :: managers[d].document == d && managers[d].Valid())
    }

    constructor ()
      ensures Valid() && entries == [] && managers == map[]
    {
      entries := [];
      managers := map[];
    }

    /** `new AnnotationManager(...)`: a fresh manager, registered under its document, replacing any earlier one. */
    method Open(doc: Doc, editable: bool, codec: Codec, pages: seq<PageView>, layers: Layers, toolMode: int, store: Store)
      returns (m: AnnotationManager)
      requires Valid()
      requires LayersWithin(layers, |pages|)
      modifies this
      ensures Valid() && fresh(m)
      ensures managers == old(managers)[doc := m]
      ensures entries == if doc in old(managers) then old(entries) else old(entries) + [doc]
      ensures m.document == doc && m.editable == editable && m.codec == codec && m.pages == pages
      ensures m.layers == layers && m.toolMode == toolMode && m.store == store
      ensures m.mode == IgnoreEdit && m.subscribed && !m.flushPending && !m.endEditPending
    {
      m := new AnnotationManager(doc, editable, codec, pages, layers, toolMode, store);
      if doc !in managers {
        entries := entries + [doc];
      }
      managers := managers[doc := m];
    }

    /** `delete()`: unregister the manager's handlers and remove the registry entry for its document. */
    method Delete(m: AnnotationManager)
      requires Valid()
      modifies this, m
      ensures Valid()
      ensures !m.subscribed
      ensures managers == old(managers) - {m.document} && entries == Without(old(entries), m.document)
      ensures m.View() == old(m.View()) && m.mode == old(m.mode) && m.store == old(m.store)
      ensures m.flushPending == old(m.flushPending)
      ensures forall o :: o in old(managers.Values) ==>
        o.View() == old(o.View()) && o.mode == old(o.mode) && o.store == old(o.store) && o.flushPending == old(o.flushPending)
      ensures forall d :: d in managers ==> managers[d] == old(managers)[d] && managers[d].subscribed == old(managers[d].subscribed)
    {
      m.subscribed := false;
      WithoutDistinct(entries, m.document);
      managers := managers - {m.document};
      entries := Without(entries, m.document);
    }

    /** The search in `pageClosed`: the first registered document, in insertion order, that the sheet closes. */
    method FindClosed(sheet: Doc) returns (r: Option<nat>)
      ensures r == FirstClosed(entries, sheet)
    {
      var k := 0;
      while k < |entries|
        invariant 0 <= k <= |entries|
        invariant forall j :: 0 <= j < k ==> !Closes(sheet, entries[j])
      {
        if Closes(sheet, entries[k]) {
          return Some(k);
        }
        k := k + 1;
      }
      return None;
    }

    /**
     * `pageClosed(sheet)`: deletes the manager of the first registered
     * document, in insertion order, that the sheet closes, and no other;
     * with no such document nothing changes.
     */
    method PageClosed(sheet: Doc)
      requires Valid()
      modifies this, managers.Values
      ensures Valid()
      ensures FirstClosed(old(entries), sheet).None? ==> managers == old(managers) && entries == old(entries)
      ensures FirstClosed(old(entries), sheet).Some? ==>
        var d := old(entries)[FirstClosed(old(entries), sheet).value];
        managers == old(managers) - {d} && entries == Without(old(entries), d) && !old(managers)[d].subscribed
      ensures forall m :: m in old(managers.Values) ==>
        m.View() == old(m.View()) && m.mode == old(m.mode) && m.store == old(m.store) && m.flushPending == old(m.flushPending)
      ensures forall d :: d in old(managers) && d in managers ==> managers[d].subscribed == old(managers[d].subscribed)
    {
      var r := FindClosed(sheet);
      if r.Some? {
        var d := entries[r.value];
        assert d in managers;
        Delete(managers[d]);
      }
    }

    /**
     * The `updateAnnotations` hook: if the sheet is no longer rendered, the
     * document's manager is deleted and nothing is reloaded; otherwise a
     * module-tagged update from another user that touches `objects` reloads
     * the touched pages in the document's manager.
     */
    method UpdateAnnotations(doc: Doc, sheetRendered: bool, changed: Changed, options: UpdateOptions, userId: string, currentUser: string)
      returns (ok: bool)
      requires Valid()
      modifies this, managers.Values
      ensures Valid()
      ensures !sheetRendered ==> managers == old(managers) - {doc} && entries == Without(old(entries), doc)
      ensures !sheetRendered && doc in old(managers) ==> !old(managers)[doc].subscribed
      ensures sheetRendered ==> managers == old(managers) && entries == old(entries)
      ensures doc in old(managers) ==>
        old(managers)[doc].store == Apply(old(managers[doc].store), changed.objects.GetOr([]))
      ensures sheetRendered && Reloads(changed, options, userId, currentUser) && doc in old(managers) ==>
        var m := old(managers)[doc];
        (m.View(), ok) == ReloadPages(old(m.View()), |m.pages|, Apply(old(m.store), changed.objects.value), m.codec,
                                      PagesOfKeys(KeysOf(changed.objects.value)))
        && m.mode == (if ok then NotEdited else IgnoreEdit)
      ensures doc in old(managers) && (!sheetRendered || !Reloads(changed, options, userId, currentUser)) ==>
        var m := old(managers)[doc];
        ok && m.View() == old(m.View()) && m.mode == old(m.mode)
      ensures doc in old(managers) ==>
        var m := old(managers)[doc];
        m.flushPending == old(m.flushPending) && (sheetRendered ==> m.subscribed == old(m.subscribed))
      ensures forall d :: d in old(managers) && d != doc ==>
        var m := old(managers)[d];
        m.View() == old(m.View()) && m.mode == old(m.mode) && m.store == old(m.store)
        && m.subscribed == old(m.subscribed) && m.flushPending == old(m.flushPending)
    {
      ok := true;
      if doc in managers {
        ApplyUpdate(doc, changed.objects.GetOr([]));
      }
      if !sheetRendered {
        if doc in managers {
          Delete(managers[doc]);
        }
        return;
      }
      if Reloads(changed, options, userId, currentUser) {
        if doc !in managers {
          return;
        }
        var m := managers[doc];
        ok := m.UpdateAnnotations(changed);
      }
    }

    /** The host applies an update of `doc` to that document, as its manager sees it. */
    method ApplyUpdate(doc: Doc, entries: seq<Entry>)
      requires Valid() && doc in managers
      modifies managers[doc]
      ensures Valid()
      ensures managers[doc].store == Apply(old(managers[doc].store), entries)
      ensures managers[doc].View() == old(managers[doc].View()) && managers[doc].mode == old(managers[doc].mode)
      ensures managers[doc].subscribed == old(managers[doc].subscribed)
      ensures managers[doc].flushPending == old(managers[doc].flushPending)
    {
      managers[doc].DocumentUpdated(entries);
    }

    /**
     * A flush whose update comes back through the hook, in the session that
     * sent it, leaves nothing for the next flush to send.
     */
    method FlushEchoed(doc: Doc, currentUser: string) returns (first: Option<Update>, second: Option<Update>)
      requires Valid() && doc in managers
      modifies this, managers.Values
      ensures Valid()
      ensures var m := old(managers)[doc];
        first == (var staged := Staged(m.pages, |m.pages|, old(m.layers), old(m.store), m.codec);
                  if |staged| > 0 then Some(Update(staged, UpdateOptions(false, true))) else None)
      ensures second == None
    {
      var m := managers[doc];
      first := m.UpdateFlags();
      if first.Some? {
        ghost var before := m.store;
        var _ := UpdateAnnotations(doc, true, Changed(Some(first.value.entries)), first.value.options, currentUser, currentUser);
        assert m.store == Apply(before, Staged(m.pages, |m.pages|, m.layers, before, m.codec));
        SecondFlushStagesNothing(m.pages, m.layers, before, m.codec);
      }
      second := m.UpdateFlags();
    }
  }
}
