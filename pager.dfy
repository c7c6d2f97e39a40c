/**
 * scripts/pdf-pager.mjs: the module-level buffer that carries a `page=N`
 * anchor from the journal sheet's render down to the PDF page sheet's
 * render hook, and the PDFoundry migration.
 *
 * The iframe markup and `_getViewerParams` are left out: the render hook
 * yields, for each `div.load-pdf` element it replaces, the `#page=` marker
 * appended to the viewer URL.
 */
module Pager {
  import opened Wrappers
  import opened Strings

  const AnchorPrefix := "page="

  /** `anchor?.startsWith('page=')`. */
  predicate IsPageAnchor(anchor: Option<string>) {
    anchor.Some? && |anchor.value| >= |AnchorPrefix| && anchor.value[..|AnchorPrefix|] == AnchorPrefix
  }

  /** A buffered page number is used only when it is truthy (neither undefined, NaN nor 0). */
  predicate Buffered(n: Option<JsNumber>) {
    n.Some? && n.value.Truthy()
  }

  /** `#page=${pdfpagenumber + (page_offset || 0)}`, or `""` without a truthy page number. */
  function Marker(n: Option<JsNumber>, offset: Option<int>): (r: string)
    ensures r == "" <==> !Buffered(n)
    ensures Buffered(n) ==> r == "#page=" + IntToString(n.value.value + offset.GetOr(0))
  {
    if Buffered(n) then "#page=" + IntToString(n.value.value + offset.GetOr(0)) else ""
  }

  /** The markers of `count` replaced viewers: the first uses the buffer, the rest find it consumed. */
  function Markers(n: Option<JsNumber>, offset: Option<int>, count: nat): (r: seq<string>)
    ensures |r| == count
    ensures count > 0 ==> r[0] == Marker(n, offset)
    ensures forall i :: 0 < i < count ==> r[i] == ""
  {
    if count == 0 then [] else Markers(n, offset, count - 1) + [if count == 1 then Marker(n, offset) else ""]
  }

  /** The options object `JournalSheet#_render` receives. */
  class RenderOptions {
    var anchor: Option<string>
    const pageId: Option<string>

    constructor (anchor: Option<string>, pageId: Option<string>)
      ensures this.anchor == anchor && this.pageId == pageId
    {
      this.anchor := anchor;
      this.pageId := pageId;
    }
  }

  /** The module globals `pdfpageid` and `pdfpagenumber`; `None` is `undefined`. */
  class PageBuffer {
    var pageId: Option<string>
    var pageNumber: Option<JsNumber>

    constructor ()
      ensures pageId == None && pageNumber == None
    {
      pageId := None;
      pageNumber := None;
    }

    /**
     * `my_render` before calling the wrapped render: a `page=N` anchor is
     * moved into the buffer (with `+` applied to `N`) and deleted from the
     * options; any other anchor leaves both alone.
     */
    method CaptureAnchor(options: RenderOptions)
      modifies this, options
      ensures IsPageAnchor(old(options.anchor)) ==>
        pageId == options.pageId
        && pageNumber == Some(ToNumber(old(options.anchor).value[|AnchorPrefix|..]))
        && options.anchor == None
      ensures !IsPageAnchor(old(options.anchor)) ==>
        pageId == old(pageId) && pageNumber == old(pageNumber) && options.anchor == old(options.anchor)
    {
      if IsPageAnchor(options.anchor) {
        pageId := options.pageId;
        pageNumber := Some(ToNumber(options.anchor.value[5..]));
        options.anchor := None;  // delete options.anchor
      }
    }

    /** `my_render` after the wrapped render has completed: the page number is cleared, used or not. */
    method RenderCompleted()
      modifies this
      ensures pageNumber == None && pageId == old(pageId)
    {
      pageNumber := None;
    }

    /**
     * The `renderJournalPDFPageSheet` hook. `loadButtons` is how many
     * `div.load-pdf` elements the page holds; the result has one marker for
     * each element replaced.
     */
    method RenderPdfSheet(isEditable: bool, sheetId: string, offset: Option<int>, alwaysLoad: bool, loadButtons: nat)
      returns (markers: seq<string>)
      modifies this
      ensures pageId == old(pageId)
      ensures isEditable ==> markers == [] && pageNumber == old(pageNumber)
      ensures !isEditable ==>
        var n := if old(pageId) == Some(sheetId) then old(pageNumber) else None;
        if Buffered(n) || alwaysLoad then
          markers == Markers(n, offset, loadButtons) && pageNumber == (if loadButtons > 0 then None else n)
        else
          markers == [] && pageNumber == n
    {
      markers := [];
      if isEditable {
        return;
      }
      if Some(sheetId) != pageId {
        pageNumber := None;  // the buffered number is for another page
      }
      if Buffered(pageNumber) || alwaysLoad {
        ghost var n := pageNumber;
        var k := 0;
        while k < loadButtons
          invariant 0 <= k <= loadButtons
          invariant markers == Markers(n, offset, k)
          invariant pageNumber == if k > 0 then None else n
          invariant pageId == old(pageId)
        {
          var marker := if Buffered(pageNumber) then "#page=" + IntToString(pageNumber.value.value + offset.GetOr(0)) else "";
          pageNumber := None;  // only use the buffered page number once
          markers := markers + [marker];
          k := k + 1;
        }
      }
    }
  }

  // ---------------------------------------------------------------------------
  // Migration from PDFoundry

  /** `entry.flags.pdfoundry.PDFData`. */
  datatype PdfData = PdfData(name: string, offset: Option<int>, url: Option<string>)

  datatype JournalEntry = JournalEntry(name: string, pageCount: nat, pdfData: Option<PdfData>)

  /** The page data passed to `createEmbeddedDocuments`. */
  datatype NewPage = NewPage(name: string, kind: string, offset: Option<int>, src: Option<string>)

  /** One `entry.createEmbeddedDocuments("JournalEntryPage", [page])` call. */
  datatype Creation = Creation(entry: JournalEntry, page: NewPage)

  /** A compendium pack: `locked`, `metadata.type` and the documents of its index. */
  datatype Pack = Pack(locked: bool, kind: string, entries: seq<JournalEntry>)

  /** `migrateOne(entry, options)`: the page it creates, if any. */
  function MigrateOne(entry: JournalEntry, onlyIfEmpty: bool): (r: Option<NewPage>)
    ensures r.None? <==> (onlyIfEmpty && entry.pageCount > 0) || entry.pdfData.None?
    ensures r.Some? ==> (r.value.kind == "pdf"
      && r.value.name == (if entry.pdfData.value.name != "" then entry.pdfData.value.name else entry.name)
      && r.value.offset == entry.pdfData.value.offset
      && r.value.src == entry.pdfData.value.url)
  {
    if onlyIfEmpty && entry.pageCount > 0 then None
    else match entry.pdfData
      case None => None
      case Some(data) =>
        Some(NewPage(if data.name != "" then data.name else entry.name, "pdf", data.offset, data.url))
  }

  /** The packs `migratePDFoundry` visits: unlocked ones of type `JournalEntry`. */
  predicate Visited(p: Pack) {
    !p.locked && p.kind == "JournalEntry"
  }

  /** The entries migration looks at, in order: the world's journals, then each visited pack's. */
  function Candidates(journals: seq<JournalEntry>, packs: seq<Pack>): seq<JournalEntry> {
    if packs == [] then journals
    else
      var last := packs[|packs| - 1];
      Candidates(journals, packs[..|packs| - 1]) + (if Visited(last) then last.entries else [])
  }

  /** Every candidate is a world journal or an entry of a visited pack. */
  lemma {:induction false} CandidatesFromVisitedPacks(journals: seq<JournalEntry>, packs: seq<Pack>, e: JournalEntry)
    requires e in Candidates(journals, packs)
    ensures e in journals || exists p :: p in packs && Visited(p) && e in p.entries
  {
    if packs != [] {
      var prefix := packs[..|packs| - 1];
      var last := packs[|packs| - 1];
      if e in Candidates(journals, prefix) {
        CandidatesFromVisitedPacks(journals, prefix, e);
        if !(e in journals) {
          var p :| p in prefix && Visited(p) && e in p.entries;
          assert p in packs;
        }
      } else {
        assert Visited(last) && e in last.entries;
        assert last in packs;
      }
    }
  }

  /** Every entry of a visited pack is a candidate. */
  lemma {:induction false} VisitedPacksAreCandidates(journals: seq<JournalEntry>, packs: seq<Pack>, p: Pack, e: JournalEntry)
    requires p in packs && Visited(p) && e in p.entries
    ensures e in Candidates(journals, packs)
  {
    var prefix := packs[..|packs| - 1];
    if p == packs[|packs| - 1] {
      assert e in Candidates(journals, packs)[|Candidates(journals, prefix)|..];
    } else {
      assert p in prefix;
      VisitedPacksAreCandidates(journals, prefix, p, e);
    }
  }

  /** `migrateOne` with the call's options, as a function of the entry: the page it creates in that entry. */
  function Migrator(onlyIfEmpty: bool): JournalEntry -> Option<Creation> {
    e => match MigrateOne(e, onlyIfEmpty) case Some(p) => Some(Creation(e, p)) case None => None
  }

  /** One of the loops of `migratePDFoundry`: `migrateOne` on each entry in turn. */
  method MigrateEntries(entries: seq<JournalEntry>, onlyIfEmpty: bool) returns (created: seq<Creation>)
    ensures created == FilterMap(entries, Migrator(onlyIfEmpty))
  {
    created := [];
    var i := 0;
    while i < |entries|
      invariant 0 <= i <= |entries|
      invariant created == FilterMap(entries[..i], Migrator(onlyIfEmpty))
    {
      assert entries[..i + 1][..i] == entries[..i];
      var page := MigrateOne(entries[i], onlyIfEmpty);
      if page.Some? {
        created := created + [Creation(entries[i], page.value)];
      }
      i := i + 1;
    }
    assert entries[..i] == entries;
  }

  /**
   * `migratePDFoundry(options)`: the pages it creates, in order, one in
   * each candidate entry `migrateOne` converts.
   */
  method MigratePDFoundry(journals: seq<JournalEntry>, packs: seq<Pack>, onlyIfEmpty: bool) returns (created: seq<Creation>)
    ensures created == FilterMap(Candidates(journals, packs), Migrator(onlyIfEmpty))
  {
    created := MigrateEntries(journals, onlyIfEmpty);
    var k := 0;
    while k < |packs|
      invariant 0 <= k <= |packs|
      invariant created == FilterMap(Candidates(journals, packs[..k]), Migrator(onlyIfEmpty))
    {
      var pack := packs[k];
      assert packs[..k + 1][..k] == packs[..k];
      assert Candidates(journals, packs[..k + 1]) ==
        Candidates(journals, packs[..k]) + (if Visited(pack) then pack.entries else []);
      if pack.locked || pack.kind != "JournalEntry" {
        assert Candidates(journals, packs[..k + 1]) == Candidates(journals, packs[..k]);
        k := k + 1;
        continue;
      }
      var more := MigrateEntries(pack.entries, onlyIfEmpty);
      FilterMapAppend(Candidates(journals, packs[..k]), pack.entries, Migrator(onlyIfEmpty));
      created := created + more;
      k := k + 1;
    }
    assert packs[..k] == packs;
  }

  /** Each created page goes into a candidate entry, and is the page `migrateOne` builds for it. */
  lemma {:induction false} CreationsFromCandidates(entries: seq<JournalEntry>, onlyIfEmpty: bool, k: nat)
    requires k < |FilterMap(entries, Migrator(onlyIfEmpty))|
    ensures var c := FilterMap(entries, Migrator(onlyIfEmpty))[k];
      c.entry in entries && MigrateOne(c.entry, onlyIfEmpty) == Some(c.page)
  {
    var prefix := entries[..|entries| - 1];
    var last := entries[|entries| - 1];
    if k < |FilterMap(prefix, Migrator(onlyIfEmpty))| {
      CreationsFromCandidates(prefix, onlyIfEmpty, k);
      assert forall e :: e in prefix ==> e in entries;
    }
  }

  /** An entry as it is after migration: one page more when `migrateOne` converted it. */
  function Migrated(e: JournalEntry, onlyIfEmpty: bool): (r: JournalEntry)
    ensures r.name == e.name && r.pdfData == e.pdfData
    ensures r.pageCount == if MigrateOne(e, onlyIfEmpty).Some? then e.pageCount + 1 else e.pageCount
  {
    if MigrateOne(e, onlyIfEmpty).Some? then e.(pageCount := e.pageCount + 1) else e
  }

  /**
   * Migration run again with `onlyIfEmpty`, over the entries as the first run
   * left them (whatever its options), creates nothing: a converted entry now
   * has a page, and an entry the first run skipped is skipped again.
   */
  lemma {:induction false} MigrationIdempotent(entries: seq<JournalEntry>, onlyIfEmpty: bool)
    ensures FilterMap(seq(|entries|, i requires 0 <= i < |entries| => Migrated(entries[i], onlyIfEmpty)), Migrator(true)) == []
  {
    var after := seq(|entries|, i requires 0 <= i < |entries| => Migrated(entries[i], onlyIfEmpty));
    forall i | 0 <= i < |after|
      ensures Migrator(true)(after[i]).None?
    {
      assert after[i] == Migrated(entries[i], onlyIfEmpty);
    }
    FilterMapEmpty(after, Migrator(true));
  }
}
