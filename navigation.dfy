/**
 * How the three files work together when a user drops a PDF page into a
 * text, later clicks the enriched link and the journal opens: the link
 * carries `page=N` with the offset taken off the viewer page, the click's
 * anchor fills the page buffer, and the render hook puts the offset back.
 */
module Navigation {
  import opened Wrappers
  import opened Strings
  import opened Uri
  import opened Linker
  import opened Pager

  /**
   * The hash a page drop writes is `page=<p - offset>`, the link parses back
   * with it, and an anchor found for the link keeps it as `data-hash`.
   */
  lemma DroppedPageLinkHash(page: DroppedPage, p: int, journals: seq<Journal>, rest: string)
    requires page.kind == "pdf"
    requires page.parentName != [] && NoneIn(page.parentName, {'|', '#', ']'})
    requires page.name != [] && NoneIn(page.name, {'|', ']', '}'})
    ensures var link := DroppedLink(page, None, true, Some(p));
      link.Link? && MatchAt(link.text + rest, 0).Some?
      && var m := MatchAt(link.text + rest, 0).value.0;
      m.hash == Some("page=" + IntToString(p - page.offset.GetOr(0)))
      && (FindAnchor(journals, m).Some? ==> FindAnchor(journals, m).value.hash == m.hash)
  {
    var slug := "page=" + IntToString(p - page.offset.GetOr(0));
    assert SlugAndLabel(page, None, Some(p)) == (slug, page.name);
    DroppedLinkParses(page, None, Some(p), rest);
    var link := DroppedLink(page, None, true, Some(p));
    var m := LinkMatch(page.parentName, if page.parentName == page.name then None else Some(page.name), Some(slug), page.name);
    var len: nat := |link.text|;
    assert MatchAt(link.text + rest, 0) == Some((m, len));
    if FindAnchor(journals, m).Some? {
      assert FindAnchor(journals, m).value.hash == m.hash;
    }
  }

  /** The hash `page=<n>` is a page anchor, and `+` reads `n` back from what follows `page=`. */
  lemma PageHashNumber(n: int)
    ensures var hash := "page=" + IntToString(n);
      IsPageAnchor(Some(hash)) && ToNumber(hash[|AnchorPrefix|..]) == Int(n)
  {
    var digits := IntToString(n);
    var hash := AnchorPrefix + digits;
    assert hash[..|AnchorPrefix|] == AnchorPrefix;
    assert hash[|AnchorPrefix|..] == digits;
    ToNumberOfIntToString(n);
  }

  /**
   * `my_render` fills the buffer from the hash `page=<n>` and the render
   * hook adds the offset back; a zero `n` is falsy and yields no marker.
   */
  lemma PageHashMarker(n: int, offset: Option<int>)
    ensures var hash := "page=" + IntToString(n);
      IsPageAnchor(Some(hash))
      && Marker(Some(ToNumber(hash[|AnchorPrefix|..])), offset) ==
           if n != 0 then "#page=" + IntToString(n + offset.GetOr(0)) else ""
  {
    PageHashNumber(n);
    BufferedPageMarker(n, offset);
  }

  /** The marker for a buffered page number `n`. */
  lemma BufferedPageMarker(n: int, offset: Option<int>)
    ensures Marker(Some(Int(n)), offset) == if n != 0 then "#page=" + IntToString(n + offset.GetOr(0)) else ""
  {
    assert Buffered(Some(Int(n))) <==> n != 0;
  }

  /**
   * A page link dropped while the viewer shows page `p` carries the hash
   * `page=<p - offset>` (`DroppedPageLinkHash`); `my_render` buffers that
   * hash and the render hook then asks the viewer for page `p` again,
   * except when `p` equals the offset, where the buffered number is 0,
   * which is falsy, so no marker is produced.
   */
  lemma DroppedPageMarker(p: int, offset: Option<int>)
    ensures var hash := "page=" + IntToString(p - offset.GetOr(0));
      IsPageAnchor(Some(hash))
      && Marker(Some(ToNumber(hash[|AnchorPrefix|..])), offset) ==
           if p != offset.GetOr(0) then "#page=" + IntToString(p) else ""
  {
    PageHashNumber(p - offset.GetOr(0));
    BufferedViewerPage(p, offset);
  }

  /** The number buffered for viewer page `p` is `p - offset`; the hook adds the offset back. */
  lemma BufferedViewerPage(p: int, offset: Option<int>)
    ensures Marker(Some(Int(p - offset.GetOr(0))), offset) == if p != offset.GetOr(0) then "#page=" + IntToString(p) else ""
  {
    BufferedPageMarker(p - offset.GetOr(0), offset);
    assert p - offset.GetOr(0) + offset.GetOr(0) == p;
  }

  /** End to end: the dropped page link, once clicked, reopens the viewer at page `p`. */
  lemma DroppedPageOpensAtViewerPage(page: DroppedPage, p: int, journals: seq<Journal>, rest: string)
    requires page.kind == "pdf"
    requires page.parentName != [] && NoneIn(page.parentName, {'|', '#', ']'})
    requires page.name != [] && NoneIn(page.name, {'|', ']', '}'})
    ensures var link := DroppedLink(page, None, true, Some(p));
      link.Link? && MatchAt(link.text + rest, 0).Some?
      && var m := MatchAt(link.text + rest, 0).value.0;
      var hash := "page=" + IntToString(p - page.offset.GetOr(0));
      m.hash == Some(hash)
      && (FindAnchor(journals, m).Some? ==> FindAnchor(journals, m).value.hash == Some(hash))
      && IsPageAnchor(Some(hash))
      && Marker(Some(ToNumber(hash[|AnchorPrefix|..])), page.offset) ==
           if p != page.offset.GetOr(0) then "#page=" + IntToString(p) else ""
  {
    DroppedPageLinkHash(page, p, journals, rest);
    DroppedPageMarker(p, page.offset);
  }

  /** A section link's hash is URI-encoded, so it can never start with `page=` and never fills the page buffer. */
  lemma SectionLinkNeverBuffers(slug: string)
    ensures !IsPageAnchor(Some(EncodeURIComponent(slug)))
  {
    var e := EncodeURIComponent(slug);
    if |e| >= |AnchorPrefix| {
      assert UriSafe(e[4]);
      assert e[..|AnchorPrefix|][4] == e[4];
    }
  }
}
