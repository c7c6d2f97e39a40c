/**
 * The `@PDF[journal#page|hash]{label}` link format of scripts/pdf-linker.mjs:
 * the pattern as a scanner, the anchor lookup, the two enrichment paths and
 * the link created when a PDF page is dropped.
 *
 * `page.toAnchor(...)` and `outerHTML` are foreign: an anchor is the record
 * of the options passed to `toAnchor`, and its HTML is a parameter.
 */
module Linker {
  import opened Wrappers
  import opened Strings
  import opened Uri

  const Prefix := "@PDF["

  // ---------------------------------------------------------------------------
  // The pattern

  /** The captures of one match of the link pattern. */
  datatype LinkMatch = LinkMatch(
    journal: string,        // group 1: no `|`, `#` or `]`, not empty
    page: Option<string>,   // group 2, after `#`: no `|` or `]`, not empty
    hash: Option<string>,   // group 3, after `|`: no `]`, not empty
    caption: string)          // group 4: no `}`, possibly empty

  /** `pagename = journalname`: the default applies when group 2 took no part. */
  function PageName(m: LinkMatch): string {
    m.page.GetOr(m.journal)
  }

  /** The end of the longest run from `i` of characters not in `stops`. */
  function SpanNot(s: string, i: nat, stops: set<char>): (j: nat)
    requires i <= |s|
    ensures i <= j <= |s|
    ensures forall k :: i <= k < j ==> s[k] !in stops
    ensures j < |s| ==> s[j] in stops
    decreases |s| - i
  {
    if i < |s| && s[i] !in stops then SpanNot(s, i + 1, stops) else i
  }

  /** `(?:open([^stops]+))?` at index `i`: the capture, if taken, and the index after it. */
  function OptionalGroup(s: string, i: nat, open: char, stops: set<char>): (r: (Option<string>, nat))
    requires i <= |s|
    ensures i <= r.1 <= |s|
    ensures r.0.None? ==> r.1 == i
  {
    if i < |s| && s[i] == open && SpanNot(s, i + 1, stops) > i + 1 then
      var j := SpanNot(s, i + 1, stops);
      (Some(s[i + 1..j]), j)
    else (None, i)
  }

  /**
   * The pattern tried at index `i`: the captures and the index just after the
   * match. Each repetition in the pattern is followed by a character its own
   * class excludes, and each optional group starts with a character that
   * cannot follow the group before it, so backtracking never changes the
   * outcome and this greedy scan is the regular expression.
   */
  function MatchAt(s: string, i: nat): (r: Option<(LinkMatch, nat)>)
    requires i <= |s|
    ensures r.Some? ==> i + |Prefix| < r.value.1 <= |s| && s[i..i + |Prefix|] == Prefix
  {
    if !(i + |Prefix| <= |s| && s[i..i + |Prefix|] == Prefix) then None
    else
      var a := i + |Prefix|;
      var b := SpanNot(s, a, {'|', '#', ']'});
      if b == a then None
      else
        var (page, c) := OptionalGroup(s, b, '#', {'|', ']'});
        var (hash, d) := OptionalGroup(s, c, '|', {']'});
        if d + 1 < |s| && s[d] == ']' && s[d + 1] == '{' then
          var e := SpanNot(s, d + 2, {'}'});
          if e < |s| then Some((LinkMatch(s[a..b], page, hash, s[d + 2..e]), e + 1)) else None
        else None
  }

  /** `s.replaceAll(pattern, f)` from index `i`: matches replaced left to right, the rest copied. */
  function ReplaceFrom(s: string, i: nat, f: LinkMatch -> string): string
    requires i <= |s|
    decreases |s| - i
  {
    if i == |s| then []
    else match MatchAt(s, i)
      case Some((m, j)) => f(m) + ReplaceFrom(s, j, f)
      case None => [s[i]] + ReplaceFrom(s, i + 1, f)
  }

  /** `sub` occurs in `s` at index `k`. */
  predicate OccursAt(s: string, sub: string, k: nat) {
    k + |sub| <= |s| && s[k..k + |sub|] == sub
  }

  /** `s.includes(sub)`. */
  predicate Contains(s: string, sub: string) {
    exists k: nat | k <= |s| :: OccursAt(s, sub, k)
  }

  /** Text in which the pattern matches nowhere from `i` on is copied unchanged. */
  lemma {:induction false} ReplaceWithoutMatches(s: string, i: nat, f: LinkMatch -> string)
    requires i <= |s|
    requires forall k :: i <= k < |s| ==> MatchAt(s, k).None?
    ensures ReplaceFrom(s, i, f) == s[i..]
    decreases |s| - i
  {
    if i < |s| {
      ReplaceWithoutMatches(s, i + 1, f);
      assert s[i..] == [s[i]] + s[i + 1..];
    }
  }

  /** Without `@PDF[` the pattern cannot match, so the `includes` test only saves work. */
  lemma WithoutPrefixUnchanged(s: string, f: LinkMatch -> string)
    requires !Contains(s, Prefix)
    ensures ReplaceFrom(s, 0, f) == s
  {
    forall k | 0 <= k < |s|
      ensures MatchAt(s, k).None?
    {
      if MatchAt(s, k).Some? {
        assert OccursAt(s, Prefix, k);
      }
    }
    ReplaceWithoutMatches(s, 0, f);
  }

  // ---------------------------------------------------------------------------
  // The link text a drop produces, and parsing it back

  /** The journal and page part: the page name alone when both names are equal. */
  function FullName(journalName: string, pageName: string): string {
    if journalName == pageName then pageName else journalName + "#" + pageName
  }

  function FormatLink(fullName: string, slug: string, caption: string): string {
    Prefix + fullName + "|" + slug + "]{" + caption + "}"
  }

  predicate NoneIn(s: string, cs: set<char>) {
    forall i :: 0 <= i < |s| ==> s[i] !in cs
  }

  /** A scan stops at the first stop character. */
  lemma SpanTo(s: string, i: nat, j: nat, stops: set<char>)
    requires i <= j < |s| && s[j] in stops
    requires forall k :: i <= k < j ==> s[k] !in stops
    ensures SpanNot(s, i, stops) == j
  {
  }

  /** `MatchAt` at the start of `s`, put together from the outcome of each of its steps. */
  lemma MatchAtSteps(s: string, journal: string, page: Option<string>, c: nat, hash: Option<string>, d: nat, caption: string)
    requires |Prefix| + |journal| <= |s| && s[..|Prefix|] == Prefix && s[|Prefix|..|Prefix| + |journal|] == journal
    requires journal != [] && SpanNot(s, |Prefix|, {'|', '#', ']'}) == |Prefix| + |journal|
    requires OptionalGroup(s, |Prefix| + |journal|, '#', {'|', ']'}) == (page, c)
    requires OptionalGroup(s, c, '|', {']'}) == (hash, d)
    requires d + 1 < |s| && s[d] == ']' && s[d + 1] == '{'
    requires d + 2 + |caption| < |s| && SpanNot(s, d + 2, {'}'}) == d + 2 + |caption| && s[d + 2..d + 2 + |caption|] == caption
    ensures MatchAt(s, 0) == Some((LinkMatch(journal, page, hash, caption), d + 3 + |caption|))
  {
  }

  /** The journal part of a link, with the page name after `#` when there is one. */
  function Head(journal: string, page: Option<string>): string {
    match page
    case None => journal
    case Some(p) => journal + "#" + p
  }

  /** Where each piece of a link with parts `head`, `slug` and `caption` sits in `s`. */
  predicate Layout(s: string, head: string, slug: string, caption: string) {
    var c := |Prefix| + |head|;
    var d := c + 1 + |slug|;
    var e := d + 2 + |caption|;
    e < |s|
    && s[..|Prefix|] == Prefix && s[|Prefix|..c] == head && s[c] == '|'
    && s[c + 1..d] == slug && s[d] == ']' && s[d + 1] == '{'
    && s[d + 2..e] == caption && s[e] == '}'
  }

  lemma LinkLayout(head: string, slug: string, caption: string, rest: string)
    ensures Layout(FormatLink(head, slug, caption) + rest, head, slug, caption)
    ensures |FormatLink(head, slug, caption)| == |Prefix| + |head| + |slug| + |caption| + 4
  {
  }

  /** A scan over the slice `s[i..j]`, free of stop characters and followed by one, ends at `j`. */
  lemma SpanOverSlice(s: string, i: nat, j: nat, stops: set<char>)
    requires i <= j < |s| && NoneIn(s[i..j], stops) && s[j] in stops
    ensures SpanNot(s, i, stops) == j
  {
    forall k | i <= k < j ensures s[k] !in stops {
      assert s[k] == s[i..j][k - i];
    }
    SpanTo(s, i, j, stops);
  }

  lemma LinkGroup1(s: string, journal: string, page: Option<string>, slug: string, caption: string)
    requires Layout(s, Head(journal, page), slug, caption)
    requires journal != [] && NoneIn(journal, {'|', '#', ']'})
    ensures var b := |Prefix| + |journal|;
      b < |s| && SpanNot(s, |Prefix|, {'|', '#', ']'}) == b && s[|Prefix|..b] == journal
  {
    var head := Head(journal, page);
    var a := |Prefix|;
    var b := a + |journal|;
    assert s[a..b] == head[..|journal|] == journal;
    if page.Some? {
      assert s[b] == head[|journal|] == '#';
    }
    SpanOverSlice(s, a, b, {'|', '#', ']'});
  }

  lemma LinkGroup2(s: string, journal: string, page: Option<string>, slug: string, caption: string)
    requires Layout(s, Head(journal, page), slug, caption)
    requires page.Some? ==> page.value != [] && NoneIn(page.value, {'|', ']'})
    ensures var b := |Prefix| + |journal|;
      b <= |s| && OptionalGroup(s, b, '#', {'|', ']'}) == (page, |Prefix| + |Head(journal, page)|)
  {
    var head := Head(journal, page);
    var b := |Prefix| + |journal|;
    var c := |Prefix| + |head|;
    if page.Some? {
      var p := page.value;
      assert s[b] == head[|journal|] == '#';
      assert s[b + 1..c] == head[|journal| + 1..] == p;
      SpanOverSlice(s, b + 1, c, {'|', ']'});
    } else {
      assert s[b] == '|';
    }
  }

  lemma LinkGroups3And4(s: string, head: string, slug: string, caption: string)
    requires Layout(s, head, slug, caption)
    requires slug != [] && NoneIn(slug, {']'})
    requires NoneIn(caption, {'}'})
    ensures var c := |Prefix| + |head|;
      var d := c + 1 + |slug|;
      var e := d + 2 + |caption|;
      e < |s| && OptionalGroup(s, c, '|', {']'}) == (Some(slug), d)
      && s[d] == ']' && s[d + 1] == '{'
      && SpanNot(s, d + 2, {'}'}) == e && s[d + 2..e] == caption
  {
    var c := |Prefix| + |head|;
    var d := c + 1 + |slug|;
    var e := d + 2 + |caption|;
    SpanOverSlice(s, c + 1, d, {']'});
    SpanOverSlice(s, d + 2, e, {'}'});
  }

  /** The pattern applied to any text laid out as a link reads back its parts. */
  lemma LayoutParses(s: string, journal: string, page: Option<string>, slug: string, caption: string)
    requires Layout(s, Head(journal, page), slug, caption)
    requires journal != [] && NoneIn(journal, {'|', '#', ']'})
    requires page.Some? ==> page.value != [] && NoneIn(page.value, {'|', ']'})
    requires slug != [] && NoneIn(slug, {']'})
    requires NoneIn(caption, {'}'})
    ensures MatchAt(s, 0) == Some((LinkMatch(journal, page, Some(slug), caption),
      |Prefix| + |Head(journal, page)| + |slug| + |caption| + 4))
  {
    var head := Head(journal, page);
    LinkGroup1(s, journal, page, slug, caption);
    LinkGroup2(s, journal, page, slug, caption);
    LinkGroups3And4(s, head, slug, caption);
    var c := |Prefix| + |head|;
    var d := c + 1 + |slug|;
    MatchAtSteps(s, journal, page, c, Some(slug), d, caption);
  }

  /**
   * Parsing a link whose journal name avoids `|`, `#` and `]`, whose page
   * name avoids `|` and `]`, whose hash is a non-empty string without `]`
   * and whose label has no `}` gives back exactly those parts, and the
   * match ends where the link does.
   */
  lemma LinkParses(journal: string, page: Option<string>, slug: string, caption: string, rest: string)
    requires journal != [] && NoneIn(journal, {'|', '#', ']'})
    requires page.Some? ==> page.value != [] && NoneIn(page.value, {'|', ']'})
    requires slug != [] && NoneIn(slug, {']'})
    requires NoneIn(caption, {'}'})
    ensures var link := FormatLink(Head(journal, page), slug, caption);
      MatchAt(link + rest, 0) == Some((LinkMatch(journal, page, Some(slug), caption), |link|))
  {
    LinkLayout(Head(journal, page), slug, caption, rest);
    LayoutParses(FormatLink(Head(journal, page), slug, caption) + rest, journal, page, slug, caption);
  }

  /**
   * Round trip: the text built for a drop parses back, at the start of any
   * text, into the journal name, the page name (absent when it equals the
   * journal name), the slug and the label, and the match covers exactly the
   * link.
   */
  lemma FormatLinkParses(journal: string, page: string, slug: string, caption: string, rest: string)
    requires journal != [] && NoneIn(journal, {'|', '#', ']'})
    requires page != [] && NoneIn(page, {'|', ']'})
    requires slug != [] && NoneIn(slug, {']'})
    requires NoneIn(caption, {'}'})
    ensures var link := FormatLink(FullName(journal, page), slug, caption);
      MatchAt(link + rest, 0) ==
        Some((LinkMatch(journal, if journal == page then None else Some(page), Some(slug), caption), |link|))
  {
    var pageOpt := if journal == page then None else Some(page);
    assert FullName(journal, page) == Head(journal, pageOpt);
    LinkParses(journal, pageOpt, slug, caption, rest);
  }

  /**
   * The round trip needs a journal name free of `#`: a `#` in it ends
   * group 1 early, so the journal `A#B` with page `C` is read as journal `A`
   * with page `B#C`.
   */
  lemma HashInJournalNameSplitsEarly()
    ensures MatchAt(FormatLink(FullName("A#B", "C"), "page=1", "x"), 0) ==
      Some((LinkMatch("A", Some("B#C"), Some("page=1"), "x"), 21))
  {
    var head := Head("A", Some("B#C"));
    assert FullName("A#B", "C") == head;
    var s := FormatLink(head, "page=1", "x");
    LinkLayout(head, "page=1", "x", "");
    assert s + "" == s;
    assert NoneIn("B#C", {'|', ']'}) by {
      assert "B#C"[0] == 'B' && "B#C"[1] == '#' && "B#C"[2] == 'C';
    }
    assert NoneIn("page=1", {']'}) by {
      assert forall i :: 0 <= i < 6 ==> "page=1"[i] in {'p', 'a', 'g', 'e', '=', '1'};
    }
    LayoutParses(s, "A", Some("B#C"), "page=1", "x");
  }

  // ---------------------------------------------------------------------------
  // getAnchor

  datatype JournalPage = JournalPage(id: string, kind: string, name: string)

  datatype Journal = Journal(name: string, pages: seq<JournalPage>)

  /** The options `getAnchor` passes to `page.toAnchor`. */
  datatype Anchor = Anchor(page: JournalPage, classes: seq<string>, draggable: bool, hash: Option<string>, name: string)

  /** `journal.pages.find(...)` from index `i`: the first PDF page with that name. */
  function FindPdfPage(pages: seq<JournalPage>, name: string, i: nat): (r: Option<nat>)
    requires i <= |pages|
    ensures r.Some? ==> i <= r.value < |pages| && pages[r.value].kind == "pdf" && pages[r.value].name == name
    ensures r.Some? ==> forall k :: i <= k < r.value ==> !(pages[k].kind == "pdf" && pages[k].name == name)
    ensures r.None? ==> forall k :: i <= k < |pages| ==> !(pages[k].kind == "pdf" && pages[k].name == name)
    decreases |pages| - i
  {
    if i == |pages| then None
    else if pages[i].kind == "pdf" && pages[i].name == name then Some(i)
    else FindPdfPage(pages, name, i + 1)
  }

  /** Journal `j` is the one a link names and holds the PDF page it names. */
  predicate Holds(j: Journal, m: LinkMatch) {
    j.name == m.journal && FindPdfPage(j.pages, PageName(m), 0).Some?
  }

  /** The first journal from index `i` that holds the link's target. */
  function FirstHolding(journals: seq<Journal>, m: LinkMatch, i: nat): (r: Option<nat>)
    requires i <= |journals|
    ensures r.Some? ==> i <= r.value < |journals| && Holds(journals[r.value], m)
    ensures r.Some? ==> forall k :: i <= k < r.value ==> !Holds(journals[k], m)
    ensures r.None? ==> forall k :: i <= k < |journals| ==> !Holds(journals[k], m)
    decreases |journals| - i
  {
    if i == |journals| then None
    else if Holds(journals[i], m) then Some(i)
    else FirstHolding(journals, m, i + 1)
  }

  /** The anchor for a found page: draggable, `content-link`, named by the label, `data-hash` only for a truthy hash. */
  function AnchorFor(page: JournalPage, m: LinkMatch): Anchor {
    var hash := if m.hash.Some? && m.hash.value != "" then m.hash else None;
    Anchor(page, ["content-link"], true, hash, m.caption)
  }

  /** What `getAnchor` returns, `None` for null. */
  function FindAnchor(journals: seq<Journal>, m: LinkMatch): Option<Anchor> {
    match FirstHolding(journals, m, 0)
    case None => None
    case Some(k) =>
      var j := journals[k];
      Some(AnchorFor(j.pages[FindPdfPage(j.pages, PageName(m), 0).value], m))
  }

  /**
   * `getAnchor(match)`: search the journals in order; the first with the
   * link's journal name that has a PDF page of the link's page name gives
   * the anchor.
   */
  method GetAnchor(journals: seq<Journal>, m: LinkMatch) returns (a: Option<Anchor>)
    ensures a == FindAnchor(journals, m)
    ensures a.None? <==> forall k :: 0 <= k < |journals| ==> !Holds(journals[k], m)
    ensures a.Some? ==> (a.value.draggable && a.value.name == m.caption && a.value.page.kind == "pdf"
      && a.value.page.name == PageName(m) && a.value.classes == ["content-link"])
    ensures a.Some? ==> (a.value.hash.Some? <==> m.hash.Some? && m.hash.value != "")
  {
    var pagename := PageName(m);
    var k := 0;
    while k < |journals|
      invariant 0 <= k <= |journals|
      invariant forall i :: 0 <= i < k ==> !Holds(journals[i], m)
    {
      var journal := journals[k];
      if journal.name == m.journal {
        var p := FindPdfPage(journal.pages, pagename, 0);
        if p.Some? {
          var attrs := if m.hash.Some? && m.hash.value != "" then m.hash else None;
          return Some(Anchor(journal.pages[p.value], ["content-link"], true, attrs, m.caption));
        }
      }
      k := k + 1;
    }
    return None;
  }

  // ---------------------------------------------------------------------------
  // Enrichment

  /** What replaces one match in the synchronous path: the anchor's HTML, or the bare label. */
  function Replacement(journals: seq<Journal>, html: Anchor -> string, m: LinkMatch): string {
    match FindAnchor(journals, m)
    case Some(a) => html(a)
    case None => m.caption
  }

  /**
   * `TextEditor_enrichHTML`: the content handed on to the wrapped function.
   * The links are rewritten only for a synchronous call on non-empty text
   * that contains `@PDF[`.
   */
  function EnrichHTML(content: Option<string>, async: bool, journals: seq<Journal>, html: Anchor -> string): (r: Option<string>)
    ensures async || content.None? || !Contains(content.value, Prefix) ==> r == content
    ensures !async && content.Some? ==> r == Some(ReplaceFrom(content.value, 0, m => Replacement(journals, html, m)))
  {
    if !async && content.Some? && |content.value| > 0 && Contains(content.value, Prefix) then
      Some(ReplaceFrom(content.value, 0, m => Replacement(journals, html, m)))
    else if !async && content.Some? then
      WithoutPrefixUnchanged(content.value, m => Replacement(journals, html, m));
      content
    else content
  }

  /** What the asynchronous `enricher` returns: the anchor element or the label text. */
  datatype Enriched = Element(anchor: Anchor) | Text(text: string)

  function Enricher(journals: seq<Journal>, m: LinkMatch): (r: Enriched)
    ensures r.Element? <==> exists k :: 0 <= k < |journals| && Holds(journals[k], m)
    ensures r.Text? ==> r.text == m.caption
  {
    match FindAnchor(journals, m)
    case Some(a) => Element(a)
    case None => Text(m.caption)
  }

  /** Both enrichment paths put the same thing in place of a link. */
  lemma EnricherAgreesWithEnrichHTML(journals: seq<Journal>, html: Anchor -> string, m: LinkMatch)
    ensures Replacement(journals, html, m) ==
      match Enricher(journals, m) case Element(a) => html(a) case Text(t) => t
  {
  }

  /**
   * A link at the start of synchronous text is replaced by the anchor of its
   * target, or by its label when there is none; the scan goes on right after it.
   */
  lemma LinkIsReplaced(journal: string, page: string, slug: string, caption: string, rest: string,
                       journals: seq<Journal>, html: Anchor -> string)
    requires journal != [] && NoneIn(journal, {'|', '#', ']'})
    requires page != [] && NoneIn(page, {'|', ']'})
    requires slug != [] && NoneIn(slug, {']'})
    requires NoneIn(caption, {'}'})
    ensures var link := FormatLink(FullName(journal, page), slug, caption);
      var m := LinkMatch(journal, if journal == page then None else Some(page), Some(slug), caption);
      var f := m => Replacement(journals, html, m);
      PageName(m) == page
      && EnrichHTML(Some(link + rest), false, journals, html) == Some(f(m) + ReplaceFrom(link + rest, |link|, f))
  {
    var link := FormatLink(FullName(journal, page), slug, caption);
    FormatLinkParses(journal, page, slug, caption, rest);
    assert OccursAt(link + rest, Prefix, 0);
  }

  // ---------------------------------------------------------------------------
  // Creating a link on drop

  /** The page being dropped (`this` in `JournalEntryPage_createDocumentLink`). */
  datatype DroppedPage = DroppedPage(id: string, kind: string, name: string, parentName: string, offset: Option<int>)

  /** `eventData.anchor` as the drop carries it: the section slug and name. */
  class DropAnchor {
    var slug: string
    const name: Option<string>

    constructor (slug: string, name: Option<string>)
      ensures this.slug == slug && this.name == name
    {
      this.slug := slug;
      this.name := name;
    }
  }

  /** A drop anchor's slug and name before the call. */
  datatype DropInfo = DropInfo(slug: string, name: Option<string>)

  datatype DocumentLink = Delegated | Link(text: string)

  /** `N` of `page=N`: 1, or the viewer's page less the page offset (0 when unset) when the viewer shows this page. */
  function DropPageNumber(page: DroppedPage, viewerPage: Option<int>): int {
    match viewerPage
    case None => 1
    case Some(p) => p - page.offset.GetOr(0)
  }

  /** The slug and label of the link: the encoded section slug and its name, or `page=N` and the page name. */
  function SlugAndLabel(page: DroppedPage, anchor: Option<DropInfo>, viewerPage: Option<int>): (string, string) {
    if anchor.Some? && anchor.value.slug != "" then
      (EncodeURIComponent(anchor.value.slug), anchor.value.name.GetOr("undefined"))
    else
      ("page=" + IntToString(DropPageNumber(page, viewerPage)), page.name)
  }

  /** The value the wrapped `_createDocumentLink` returns, as a function of the drop. */
  function DroppedLink(page: DroppedPage, anchor: Option<DropInfo>, linkOnDrop: bool, viewerPage: Option<int>): (r: DocumentLink)
    ensures r.Delegated? <==> page.kind != "pdf" || !linkOnDrop
  {
    if page.kind != "pdf" || !linkOnDrop then Delegated
    else
      var (slug, caption) := SlugAndLabel(page, anchor, viewerPage);
      Link(FormatLink(FullName(page.parentName, page.name), slug, caption))
  }

  /**
   * `JournalEntryPage_createDocumentLink`: the slug of a PDF page's drop
   * anchor is URI-encoded in place, even when the call is then delegated.
   * `viewerPage` is the viewer's current page when the journal sheet shows
   * this page in an iframe.
   */
  method CreateDocumentLink(page: DroppedPage, anchor: DropAnchor?, linkOnDrop: bool, viewerPage: Option<int>)
    returns (r: DocumentLink)
    modifies anchor
    ensures r == DroppedLink(page, if anchor == null then None else Some(DropInfo(old(anchor.slug), anchor.name)), linkOnDrop, viewerPage)
    ensures anchor != null ==> (anchor.slug ==
      if page.kind == "pdf" && old(anchor.slug) != "" then EncodeURIComponent(old(anchor.slug)) else old(anchor.slug))
  {
    if page.kind == "pdf" && anchor != null && anchor.slug != "" {
      anchor.slug := EncodeURIComponent(anchor.slug);
    }
    if page.kind != "pdf" || !linkOnDrop {
      return Delegated;  // wrapped(eventData, args)
    }
    var slug, caption;
    if anchor != null && anchor.slug != "" {
      caption := anchor.name.GetOr("undefined");
      slug := anchor.slug;
    } else {
      var pagenum := 1;
      if viewerPage.Some? {
        pagenum := viewerPage.value - page.offset.GetOr(0);
      }
      slug := "page=" + IntToString(pagenum);
      caption := page.name;
    }
    var fullname := if page.parentName == page.name then page.name else page.parentName + "#" + page.name;
    r := Link(Prefix + fullname + "|" + slug + "]{" + caption + "}");
  }

  /** `page=N` never contains `]`. */
  lemma PageSlugHasNoBracket(n: int)
    ensures NoneIn("page=" + IntToString(n), {']'})
  {
    var s := "page=" + IntToString(n);
    var d := if n < 0 then -n else n;
    forall i | 0 <= i < |s|
      ensures s[i] != ']'
    {
      if i >= 5 {
        if n < 0 {
          assert i == 5 || s[i] == NatToString(d)[i - 6];
        } else {
          assert s[i] == NatToString(d)[i - 5];
        }
      }
    }
  }

  /**
   * A created link parses back to the dropping page: journal and page names
   * as they are, the chosen slug and the chosen label, provided the names
   * and the label avoid the pattern's delimiters.
   */
  lemma DroppedLinkParses(page: DroppedPage, anchor: Option<DropInfo>, viewerPage: Option<int>, rest: string)
    requires page.kind == "pdf"
    requires page.parentName != [] && NoneIn(page.parentName, {'|', '#', ']'})
    requires page.name != [] && NoneIn(page.name, {'|', ']'})
    requires NoneIn(SlugAndLabel(page, anchor, viewerPage).1, {'}'})
    ensures var link := DroppedLink(page, anchor, true, viewerPage);
      var (slug, caption) := SlugAndLabel(page, anchor, viewerPage);
      link.Link?
      && MatchAt(link.text + rest, 0) == Some((LinkMatch(page.parentName,
           if page.parentName == page.name then None else Some(page.name), Some(slug), caption), |link.text|))
  {
    var (slug, caption) := SlugAndLabel(page, anchor, viewerPage);
    if anchor.Some? && anchor.value.slug != "" {
      assert forall i :: 0 <= i < |slug| ==> UriSafe(slug[i]);
    } else {
      PageSlugHasNoBracket(DropPageNumber(page, viewerPage));
    }
    FormatLinkParses(page.parentName, page.name, slug, caption, rest);
  }
}
