# pdf-pager core, modelled in Dafny

This project models the core of the Foundry VTT module **pdf-pager**. The module shows PDF
documents inside journal pages and keeps their annotations in the document's flags. The model has three parts.

- **Annotation synchronisation** (`scripts/pdf-annotations.mjs`).
  - `AnnotationSync.AnnotationManager` is a class with fields for:
    - the `pdfPagerMode` state (NOT_EDITED, IGNORE_EDIT, HAS_LOCAL_EDITS);
    - the live pdf.js editors per page index;
    - the ui manager's tool mode;
    - the document's `objects` flags as it reads them, which the update hook brings up to date;
    - the two debouncers, as pending booleans;
    - whether its event-bus handlers are registered.
  - Its methods change those fields as the source's handlers do.
  - The pure meaning of each step is defined on values:
    - `AnnotationStore`: flag keys, the flush's staging, and applying a batch;
    - `AnnotationLayers`: loading, removing and reloading a page.
  - `Registry` is the module-level `mapping`, with the `updateAnnotations` and `pageClosed` hook filters.
  - `Propagation` follows an update from the session that flushes it to another session that reloads it.
- **The `@PDF[journal#page|hash]{label}` link format** (`scripts/pdf-linker.mjs`).
  - `Linker` holds:
    - the link pattern as a hand-written scanner (`MatchAt`);
    - `getAnchor` as a find-first loop;
    - both enrichment paths;
    - the link created when a PDF page is dropped.
  - The round-trip lemmas prove that a created link parses back into its parts.
  - `Uri` models `encodeURIComponent`.
- **The page-anchor buffer and the PDFoundry migration** (`scripts/pdf-pager.mjs`).
  - `Pager.PageBuffer` holds the module globals `pdfpageid` and `pdfpagenumber`, as filled by `my_render` and consumed by the `renderJournalPDFPageSheet` hook.
  - `MigrateOne` and `MigratePDFoundry` decide which entries are converted and which page is created in each.
  - `Navigation` connects the three files. A page link dropped while the viewer shows page P reopens at `#page=P`.

`Strings` holds the parts of JavaScript's `parseInt`, unary `+` and number-to-string that the code relies on. It supports integer syntax only. `Wrappers` holds `Option`, which stands for `undefined`, and `FilterMap`, the shape of every "push only truthy results" loop.

Conventions:
- Page index `i` holds page number `i + 1`, as in `getEditors(pageNumber - 1)`.
- A debouncer's quiet period ending is an explicit method (`FlushTimer`, `EndEditTimer`).
- An update sent to the host is a returned `Update` value.
- A manager's `store` is what it reads through `this.document`. The update hook first applies the update's new values to it (`DocumentUpdated`), for every update of that document, the session's own included; a flush and a reload then read the document as the host has left it.
- `JSON.parse` throwing is a `false` result that leaves the state as it was when it threw: IGNORE_EDIT stays in force and the tool mode stays STAMP. The code does not catch the exception.

Two points of the code the model keeps as written:
- The `updateAnnotations` hook reloads only when the update's options carry `updatePdfEditors` and the update came from another user (`scripts/pdf-annotations.mjs:257`).
- Malformed stored JSON is not caught (`scripts/pdf-annotations.mjs:197`). The reload loop stops at that page.

## Model

| member | source | states |
|---|---|---|
| AnnotationStore.PageOfKeyInvertsPageKey | scripts/pdf-annotations.mjs:224 | `parseInt(key.slice(4))` of the key `page${n}` that `flagName` writes gives back `n`, for every integer n |
| AnnotationStore.PageKeyInjective | scripts/pdf-annotations.mjs:48 | two pages share a flag key exactly when they are the same page |
| AnnotationStore.PageValueMeaning | scripts/pdf-annotations.mjs:125-134 | a page's saved value is `""` exactly when no editor serialises to something truthy; otherwise it is the JSON array of the truthy serialisations, in editor order |
| AnnotationStore.StagedNext | scripts/pdf-annotations.mjs:122-143 | one more step of the page loop appends the entry for that page exactly when it is ready and its value differs from the stored one, the value being `""` without truthy serialisations and their JSON array otherwise (the loop step behind `AnnotationSync.AnnotationManager.UpdateFlags`) |
| AnnotationStore.StagedAt | scripts/pdf-annotations.mjs:122-144 | after the page loop, page j is staged exactly when its view has both a pdfPage and an annotationLayer and its new value `!=` the stored one (an absent stored value differs from `""`); it is then staged with that value and no other |
| AnnotationStore.StagedKeys | scripts/pdf-annotations.mjs:137-143 | every staged key is the flag key of a ready page, so nothing else is written |
| AnnotationStore.ApplyLookup | scripts/pdf-annotations.mjs:142 | applying a batch sets each staged key to its latest staged value and keeps every other key |
| AnnotationStore.ApplyStagedStores | scripts/pdf-annotations.mjs:122-147 | once the host has applied the update, each ready page's stored value is the value the flush computed for it |
| AnnotationStore.NothingDiffersNothingStaged | scripts/pdf-annotations.mjs:140-143 | when no ready page's value differs from the stored one, nothing is staged |
| AnnotationStore.SecondFlushStagesNothing | scripts/pdf-annotations.mjs:137-147 | a second flush, with no edits in between and after the first update is applied, stages nothing and so sends no update |
| AnnotationLayers.PlaceAll | scripts/pdf-annotations.mjs:205-209 | each added editor is moved back by its width and height and unselected, in order |
| AnnotationLayers.LoadedNext | scripts/pdf-annotations.mjs:199-211 | each further descriptor adds its placed editor if it deserialises and nothing otherwise |
| AnnotationLayers.LoadedWhenAllDeserialise | scripts/pdf-annotations.mjs:199-211 | when every descriptor deserialises, each is added exactly once, in order, at `(x - width, y - height)` and unselected |
| AnnotationLayers.LoadedNothingWhenNoneDeserialise | scripts/pdf-annotations.mjs:199-201 | descriptors that do not deserialise are skipped; if none does, nothing is added |
| AnnotationLayers.ReloadPageEffect | scripts/pdf-annotations.mjs:229-230 | `remove(n-1); set(n)` leaves page n with exactly the editors loaded from the store (none without a stored value or a layer); every other page and the set of layers stay as they were; it throws exactly when the stored value does not parse |
| AnnotationLayers.ReloadPageIdempotent | scripts/pdf-annotations.mjs:174-213 | against an unchanged store, `remove(n-1); set(n)` run twice gives the same surface as run once |
| AnnotationLayers.ReloadPageKeepsLayers | scripts/pdf-annotations.mjs:174-213 | removing and loading a page neither creates nor drops an editor layer |
| AnnotationLayers.PagesOfKeys | scripts/pdf-annotations.mjs:223-224 | the pages reloaded are `parseInt` of each changed key after its first four characters, in key order |
| AnnotationLayers.ReloadPrefixNext | scripts/pdf-annotations.mjs:228-231 | one more step of the loop reloads the page it names, skips a NaN page, and changes nothing once a page has thrown (the loop step behind `AnnotationSync.AnnotationManager.ReloadChangedPages` and, through `ReloadPagesReplaces`, `ReloadPagesUntouched` and `ReloadPagesLastStep`, the reload lemmas) |
| AnnotationLayers.ReloadPagesKeepsLayers | scripts/pdf-annotations.mjs:228-231 | the first k steps of the reload loop neither create nor drop layers |
| AnnotationLayers.ReloadPagesUntouched | scripts/pdf-annotations.mjs:228-231 | a page that none of the first k changed keys names keeps its editors |
| AnnotationLayers.ReloadPagesCompletes | scripts/pdf-annotations.mjs:197 | the first k steps run to the end exactly when none of the pages they name that has a layer holds a value that fails to parse |
| AnnotationLayers.ReloadPagesLastStep | scripts/pdf-annotations.mjs:228-231 | the k-th step of the loop, when reached, reloads the page it names and leaves every other page as the earlier steps left it |
| AnnotationLayers.ReloadPagesReplaces | scripts/pdf-annotations.mjs:228-231 | when the first k steps complete, every page they name shows exactly the editors loaded from the store (replaced, not merged) |
| AnnotationSync.KeysOf | scripts/pdf-annotations.mjs:223 | the keys of a batch are its entries' keys, in order |
| AnnotationSync.EditableCases | scripts/pdf-annotations.mjs:315-317 | a non-owner, a document in a locked pack and a document whose parent is in a locked pack are not editable; an owner of a document in no known pack is |
| AnnotationSync.AnnotationManager.constructor | scripts/pdf-annotations.mjs:55-76 | a new manager keeps its document, codec, editability and viewer state, starts in IGNORE_EDIT with its handlers registered and nothing pending |
| AnnotationSync.AnnotationManager.EditorLayerCreated | scripts/pdf-annotations.mjs:190-191 | pdf.js giving a page view its editor layer adds an empty layer at that index and changes nothing else; an existing layer or an index without a page view is left alone |
| AnnotationSync.AnnotationManager.DocumentUpdated | scripts/pdf-annotations.mjs:137-138 | the host applying an update sets each changed `page<N>` property of the document to its new value, and leaves the viewer, the mode and the handlers alone |
| AnnotationSync.AnnotationManager.LayerRendered | scripts/pdf-annotations.mjs:92-116 | a page that already has editors is not loaded and the mode is unchanged; otherwise the page is loaded as `setPageAnnotations` does and the mode ends NOT_EDITED, whatever it was, unless loading threw |
| AnnotationSync.AnnotationManager.UpdateFlags | scripts/pdf-annotations.mjs:118-149 | the update sent is exactly the entries staged against the document's current flags, tagged `render: false, updatePdfEditors: true`, and is sent iff some page was staged; the mode ends NOT_EDITED; editors and flags are unchanged until the host applies the update |
| AnnotationSync.AnnotationManager.EditStateChanged | scripts/pdf-annotations.mjs:154-172 | with the handler unregistered, an uneditable manager or IGNORE_EDIT, nothing changes; `isEditing` sets HAS_LOCAL_EDITS; the end of an edit schedules the flush only from HAS_LOCAL_EDITS and otherwise changes nothing |
| AnnotationSync.AnnotationManager.SerializeEditors | scripts/pdf-annotations.mjs:128-133 | the descriptors pushed are the truthy serialisations of the page's editors, in order |
| AnnotationSync.AnnotationManager.FlushTimer | scripts/pdf-annotations.mjs:152 | the debounced flush runs `#updateFlags` once if scheduled and then nothing is pending |
| AnnotationSync.AnnotationManager.RemovePageAnnotations | scripts/pdf-annotations.mjs:174-180 | page i is left with no editors; an index with no page view is a no-op |
| AnnotationSync.AnnotationManager.SetPageAnnotations | scripts/pdf-annotations.mjs:182-213 | nothing happens without a stored value or a layer; otherwise the tool mode becomes STAMP, the placed deserialised editors are appended and the end-edit reset is scheduled; a value that does not parse throws after the STAMP switch |
| AnnotationSync.AnnotationManager.AddEditors | scripts/pdf-annotations.mjs:199-211 | the layer gains exactly the placed editors of the descriptors that deserialise; no other page changes |
| AnnotationSync.AnnotationManager.EndEditTimer | scripts/pdf-annotations.mjs:215-220 | the debounced end of edit sets the tool mode to NONE once if scheduled |
| AnnotationSync.AnnotationManager.ReloadPage | scripts/pdf-annotations.mjs:229-230 | `removePageAnnotations(n - 1); setPageAnnotations(n)` leaves the editors and the throw as the reload of page n on values defines them; mode, store, pending flush and handlers are untouched |
| AnnotationSync.AnnotationManager.ReloadChangedPages | scripts/pdf-annotations.mjs:228-231 | the loop over the page numbers leaves the editors as the reload loop on values does, stopping at the first page that throws |
| AnnotationSync.AnnotationManager.UpdateAnnotations | scripts/pdf-annotations.mjs:222-234 | the surface is the reload loop over the pages of the changed keys, reading the document's current flags, run with edits ignored; the mode ends NOT_EDITED, or stays IGNORE_EDIT when a value threw |
| AnnotationSync.ReloadPagesAborted | scripts/pdf-annotations.mjs:228-231 | once a page has thrown, the remaining keys change nothing |
| AnnotationSync.Without | scripts/pdf-annotations.mjs:84 | `mapping.delete(doc)` removes exactly that document and keeps the others in insertion order |
| AnnotationSync.WithoutDistinct | scripts/pdf-annotations.mjs:84 | deleting from the mapping keeps its keys distinct |
| AnnotationSync.Registry.constructor | scripts/pdf-annotations.mjs:50 | the mapping starts empty |
| AnnotationSync.Registry.Open | scripts/pdf-annotations.mjs:65 | a new manager is registered under its document, replacing any earlier one; a new document goes to the end of the insertion order and a known one keeps its place |
| AnnotationSync.Registry.Delete | scripts/pdf-annotations.mjs:78-85 | `delete` unregisters the handlers and removes the registry entry for the manager's document and nothing else |
| AnnotationSync.FirstClosed | scripts/pdf-annotations.mjs:271-272 | the index of the first document, in insertion order, that is the closed sheet's document or has it as parent, with none before it; none when no document is |
| AnnotationSync.Registry.FindClosed | scripts/pdf-annotations.mjs:271-275 | the loop over the mapping stops at the first registered document the sheet closes, or finds none |
| AnnotationSync.Registry.PageClosed | scripts/pdf-annotations.mjs:269-278 | the first registered document the sheet closes loses its manager, whose handlers are unregistered, and no other entry changes; with no such document nothing changes; no manager's viewer, mode, flags or pending flush changes, and every manager still registered keeps its handlers |
| AnnotationSync.Registry.ApplyUpdate | scripts/pdf-annotations.mjs:245 | the document's manager sees the update's new values in its flags, and nothing else of it changes: its viewer, mode, handlers and pending flush stay as they were |
| AnnotationSync.Registry.UpdateAnnotations | scripts/pdf-annotations.mjs:245-266 | the document's flags take the update's values; an unrendered sheet then deletes the document's manager and reloads nothing; otherwise only a `updatePdfEditors` update from another user touching `objects` reloads, from the updated flags and only in that document's manager; the document's pending flush never changes, nor do its handlers while the sheet is rendered; every other manager is untouched, handlers and pending flush included |
| AnnotationSync.Registry.FlushEchoed | scripts/pdf-annotations.mjs:118-149 | a flush whose update comes back through the hook in the sending session leaves nothing for the next flush to send |
| Propagation.StoredValueReloads | scripts/pdf-annotations.mjs:134 | given that `JSON.parse` reads back what `JSON.stringify` wrote, a value the flush saved never makes a reload throw, and reloads the descriptors it was made from |
| Propagation.LookupFound | scripts/pdf-annotations.mjs:142 | a key the batch sets is the key of one of its entries |
| Propagation.FlushedPages | scripts/pdf-annotations.mjs:224 | each key of a flush's batch names, through `parseInt`, a ready page of the flushing session |
| Propagation.FlushedKeyReloads | scripts/pdf-annotations.mjs:183-197 | given that `JSON.parse` reads back what `JSON.stringify` wrote, the page a flushed key names holds a value whose load does not throw |
| Propagation.RemoteReloadCompletes | scripts/pdf-annotations.mjs:222-234 | given that `JSON.parse` reads back what `JSON.stringify` wrote, another session's reload of a flushed batch runs to the end |
| Propagation.RemoteReloadMirrorsFlush | scripts/pdf-annotations.mjs:118-234 | a page a flush staged, in another session that has its layer, ends with exactly the editors that deserialise from what the flushing session serialised |
| Uri.EncodeURIComponent | scripts/pdf-linker.mjs:119 | the encoded slug consists of unreserved characters and `%` only, is empty exactly when the slug is, and equals a slug that needs no escaping |
| Linker.MatchAt | scripts/pdf-linker.mjs:44 | a match starts with `@PDF[` and ends inside the text |
| Linker.ReplaceWithoutMatches | scripts/pdf-linker.mjs:89 | text where the pattern matches nowhere is copied unchanged by `replaceAll` |
| Linker.WithoutPrefixUnchanged | scripts/pdf-linker.mjs:88 | text without `@PDF[` has no match, so the `includes` test changes nothing |
| Linker.MatchAtSteps | scripts/pdf-linker.mjs:44 | the pattern, scanned group by group, matches the journal name, the optional page, the optional hash and the label, and ends after the closing `}` (the group-by-group step behind `Linker.LayoutParses` and so `Linker.LinkParses`) |
| Linker.LinkParses | scripts/pdf-linker.mjs:44 | the pattern splits a link into journal name (no `\|#]`), optional page after `#` (no `\|]`), hash after `\|` (no `]`) and label (no `}`), and the match ends where the link does |
| Linker.FormatLinkParses | scripts/pdf-linker.mjs:145-146 | round trip: the text built from a journal name, page name, slug and label parses back into exactly those parts, with the page group absent when both names are equal |
| Linker.HashInJournalNameSplitsEarly | scripts/pdf-linker.mjs:44 | a `#` in the journal name ends group 1 early: journal `A#B` with page `C` reads back as journal `A` and page `B#C` |
| Linker.FindPdfPage | scripts/pdf-linker.mjs:62 | `pages.find` gives the first PDF page with that name, or none |
| Linker.FirstHolding | scripts/pdf-linker.mjs:60-73 | the first journal with exactly the link's journal name that has a PDF page of the link's page name, or none |
| Linker.GetAnchor | scripts/pdf-linker.mjs:55-77 | returns an anchor for the first journal of that name holding a PDF page of that name; null exactly when no journal holds one; the anchor is draggable, has class `content-link` and the label as name, and has `data-hash` exactly when a non-empty hash was captured |
| Linker.EnrichHTML | scripts/pdf-linker.mjs:86-95 | text is rewritten only when the call is synchronous and the text contains `@PDF[`, otherwise it reaches `wrapped` unchanged; each match is replaced by its anchor's HTML or by the bare label |
| Linker.Enricher | scripts/pdf-linker.mjs:103-105 | the async enricher returns an anchor exactly when some journal holds the target, and otherwise the label |
| Linker.EnricherAgreesWithEnrichHTML | scripts/pdf-linker.mjs:91 | both enrichment paths put the same thing in place of a link |
| Linker.LinkIsReplaced | scripts/pdf-linker.mjs:88-92 | a link at the start of synchronous text is replaced by its target's anchor or its label, and the scan goes on right after it |
| Linker.DroppedLink | scripts/pdf-linker.mjs:121-122 | the drop delegates to the wrapped function exactly for a non-PDF page or when link-on-drop is off |
| Linker.DropAnchor.constructor | scripts/pdf-linker.mjs:118 | the drop's anchor carries a section slug and name |
| Linker.CreateDocumentLink | scripts/pdf-linker.mjs:116-148 | a PDF page's non-empty anchor slug is URI-encoded in place even when the call then delegates; the result is the link for the drop |
| Linker.PageSlugHasNoBracket | scripts/pdf-linker.mjs:141 | the `page=N` slug never contains `]` |
| Linker.DroppedLinkParses | scripts/pdf-linker.mjs:124-146 | a created link parses back to the journal and page names, the chosen slug (the encoded section slug, or `page=N` with N the viewer page minus the offset, 1 without a viewer) and the chosen label |
| Pager.Marker | scripts/pdf-pager.mjs:122 | the marker is `#page=` followed by the buffered number plus the offset (a missing offset counts as 0), and `""` exactly when no truthy number is buffered |
| Pager.Markers | scripts/pdf-pager.mjs:119-125 | only the first replaced viewer gets the marker; the buffer is consumed, so every later one gets `""` |
| Pager.RenderOptions.constructor | scripts/pdf-pager.mjs:72 | render options carry an anchor and a page id |
| Pager.PageBuffer.constructor | scripts/pdf-pager.mjs:66-67 | the buffer starts undefined |
| Pager.PageBuffer.CaptureAnchor | scripts/pdf-pager.mjs:73-77 | an anchor starting with `page=` buffers the page id and the number after the five-character prefix, then deletes the anchor; any other anchor leaves buffer and options unchanged |
| Pager.PageBuffer.RenderCompleted | scripts/pdf-pager.mjs:78-80 | after the wrapped render, the page number is cleared whether or not it was used |
| Pager.PageBuffer.RenderPdfSheet | scripts/pdf-pager.mjs:109-127 | an editable sheet does nothing; a sheet of another page drops the buffered number; viewers are replaced only with a truthy buffered number or always-load, and only the first gets the marker, which consumes the buffer |
| Pager.MigrateOne | scripts/pdf-pager.mjs:135-147 | nothing when `onlyIfEmpty` and the entry has pages, or without PDFoundry data; otherwise exactly one PDF page named `pdfdata.name` or else the entry name, with the offset flag and `src` from the data |
| Pager.CandidatesFromVisitedPacks | scripts/pdf-pager.mjs:150-159 | only world journals and entries of unlocked `JournalEntry` packs are looked at |
| Pager.VisitedPacksAreCandidates | scripts/pdf-pager.mjs:153-158 | every entry of an unlocked `JournalEntry` pack is looked at |
| Pager.MigrateEntries | scripts/pdf-pager.mjs:150-152 | each entry is passed to `migrateOne` in order and its page, if any, is created in that entry |
| Pager.MigratePDFoundry | scripts/pdf-pager.mjs:134-161 | the pages created, each with the entry it is created in, are those `migrateOne` gives for the world journals and then the entries of each visited pack, in order |
| Pager.CreationsFromCandidates | scripts/pdf-pager.mjs:138-143 | every page is created in one of the entries looked at, and is the page `migrateOne` builds for that entry |
| Pager.Migrated | scripts/pdf-pager.mjs:138 | a converted entry gains one page; nothing else about it changes |
| Pager.MigrationIdempotent | scripts/pdf-pager.mjs:134-136 | migration run again with `onlyIfEmpty` over the entries as any first run left them creates nothing |
| Strings.ParseIntOfIntToString | scripts/pdf-annotations.mjs:224 | `parseInt` reads back the decimal text of any integer |
| Strings.ToNumberOfIntToString | scripts/pdf-pager.mjs:75 | unary `+` reads back the decimal text of any integer |
| Strings.IntToStringInjective | scripts/pdf-annotations.mjs:48 | distinct integers have distinct decimal texts |
| Navigation.DroppedPageLinkHash | scripts/pdf-linker.mjs:124-146 | a page drop while the viewer shows page p writes hash `page=<p - offset>`, the link parses back with it, and an anchor found for it keeps that hash |
| Navigation.PageHashNumber | scripts/pdf-pager.mjs:73-75 | the hash `page=<n>` starts with `page=`, and unary `+` of what follows the prefix is n |
| Navigation.BufferedPageMarker | scripts/pdf-pager.mjs:119-122 | a buffered number n gives the marker `#page=<n + offset>`, and none when n is 0 |
| Navigation.PageHashMarker | scripts/pdf-pager.mjs:73-122 | `my_render` buffers n from `page=<n>` and the hook adds the offset back; a zero n is falsy and gives no marker |
| Navigation.BufferedViewerPage | scripts/pdf-pager.mjs:122 | the number `p - offset` buffered for viewer page p gives the marker `#page=p`, and none when p equals the offset |
| Navigation.DroppedPageMarker | scripts/pdf-pager.mjs:73-122 | the hash of a page dropped at viewer page p is buffered by `my_render` and reopens at `#page=p`, except when p equals the offset |
| Navigation.DroppedPageOpensAtViewerPage | scripts/pdf-pager.mjs:72-127 | a page link dropped at viewer page p, if found, carries `data-hash` `page=<p - offset>`, is buffered on click, and reopens at `#page=p`, except when p equals the offset |
| Navigation.SectionLinkNeverBuffers | scripts/pdf-pager.mjs:73 | a section link's hash is URI-encoded, so it never starts with `page=` and never fills the page buffer |

## Left out

- Host plumbing is replaced by parameters: Foundry hooks, libWrapper registration and settings (`CREATE_PDF_LINK_ON_DROP`, `CONFIG_ALWAYS_LOAD_PDF`). The rendered state of a sheet, the current user and a drop's viewer page are parameters too.
- The DOM is replaced by the values it feeds:
  - The editor-button toggling, the page-offset form field and the iframe URL/HTML with `_getViewerParams` are left out. The hook's result is the list of `#page=` markers, one per replaced viewer.
  - The count of `div.load-pdf` elements is a parameter.
  - `toAnchor` and `outerHTML` are an `Anchor` record and a function parameter.
  - The unused `ClipboardEvent`/`DataTransfer` is left out.
- pdf.js is foreign and appears as a `Codec` parameter. This covers `serialize`, `deserialize`, `JSON.stringify` and `JSON.parse`. `getEditors`, `getLayer` and `updateMode` become the layer map and a tool-mode field.
- `#setUiManager` is left out. The ui manager is taken to be set before any layer renders.
- Timers and async are left out: the 250 ms debounce delay, `initializedPromise`, `fromUuid`, awaiting `document.update` and `createEmbeddedDocuments`. Debouncers are pending flags fired by an explicit step. Persistence is the returned batch, applied with `Apply`.
- Races between users (last writer wins) are truly concurrent and not modelled. The host's round trip is collapsed: the update a flush returns is applied when its hook runs (`Registry.UpdateAnnotations`), and the diff the hook receives is taken to be that update's entries.
- pdf.js's page views are fixed when the manager is created, so a page view's readiness (`pdfPage` and `annotationLayer` present, `scripts/pdf-annotations.mjs:123`) does not change later. Editor layers can appear later (`EditorLayerCreated`), but not vanish.
- Editor coordinates are `real`, not floating point.
- `parseInt` and unary `+` are modelled for integer syntax only. Fractions, exponents and `Infinity` are left out.
- `Number` to text is modelled for integers only, always in plain digits. JavaScript writes a magnitude of 10^21 or more in exponent form (`page1e+21`), and from 2^53 on it writes the shortest digits that read back to the same double (2^60 becomes `1152921504606847000`, where the model writes `1152921504606846976`); so for the source the round trips `AnnotationStore.PageOfKeyInvertsPageKey` and `Strings.ParseIntOfIntToString` hold only for magnitudes below 2^53.
- A NaN page number in the reload loop is skipped. `_pages[NaN]` and `getLayer(NaN)` are both undefined, so the code does nothing for it.
- `migratePDFlinks` (scripts/pdf-pager.mjs:167-235) is left out. It refers to variables that are out of scope, so its behaviour is not well defined.
- scripts/pdf-config.mjs is not part of this model. Its `MODULE_NAME` is taken to be `pdf-pager`, and `PDFCONFIG.FLAG_OFFSET` is taken to be the same page-offset flag that scripts/pdf-pager.mjs reads.
- Console logging and debug output are left out.
- AnnotationSync.AnnotationManager.RemovePageAnnotations: a page view that exists while the ui manager has no layer for that index is treated as having no editors.
- Linker.DroppedLinkParses: proved only for names free of the pattern's delimiters. Journal names with `#` do not round-trip (Linker.HashInJournalNameSplitsEarly).
- Propagation.RemoteReloadMirrorsFlush: assumes `JSON.parse` reads back what `JSON.stringify` wrote and that both sessions start from the same stored flags.
- Propagation.StoredValueReloads, Propagation.FlushedKeyReloads, Propagation.RemoteReloadCompletes: assume, through `ParsesBack`, that `JSON.parse` reads back what `JSON.stringify` wrote; the JSON codec itself is not modelled.
- Uri.EncodeURIComponent: Dafny characters are Unicode scalar values, so the lone-surrogate `URIError` cannot arise.
