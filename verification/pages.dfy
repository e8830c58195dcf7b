/** Page discovery: `ExamTopicsScraper.get_exam_pages` (extractor/scraper.py:155-196)
    after the page has been fetched.

    The fetch is not modelled. The page is seen as its pagination container (if
    any) with the anchors inside it, and the list of all anchors on the page;
    `find_all("a", href=True)` only returns anchors that carry an href, so every
    link here has one, possibly empty. `urljoin` is a parameter. */
module Pages {
  import opened Common
  import opened StringSort

  /** An anchor: its href attribute and its stripped text. */
  datatype Link = Link(href: string, text: string)

  /** A pagination href that names a page: non-empty and not a placeholder. */
  predicate PaginationHref(l: Link) {
    l.href != "" && l.href != "#" && l.href != "javascript:void(0)"
  }

  /** An anchor whose text is a page number (`text.isdigit()`) and whose href is
      non-empty. */
  predicate NumericLink(l: Link) {
    IsDigitString(l.text) && l.href != ""
  }

  /** The loop that appends `urljoin(base, href)` for every selected link, unless
      the list already holds it. */
  function CollectUrls(base: string, links: seq<Link>, p: Link -> bool, join: (string, string) -> string,
                       urls: seq<string>): (r: seq<string>)
    ensures urls <= r
    ensures Distinct(urls) ==> Distinct(r)
    ensures forall u :: u in r ==> u in urls || exists i :: 0 <= i < |links| && p(links[i]) && join(base, links[i].href) == u
    ensures forall i :: 0 <= i < |links| && p(links[i]) ==> join(base, links[i].href) in r
  {
    if |links| == 0 then urls
    else
      var l := links[0];
      var urls' := if p(l) && join(base, l.href) !in urls then urls + [join(base, l.href)] else urls;
      var r := CollectUrls(base, links[1..], p, join, urls');
      assert forall u :: u in urls' ==> u in urls || (p(l) && join(base, l.href) == u);
      assert forall i :: 1 <= i < |links| ==> links[i] == links[1..][i - 1];
      assert p(l) ==> join(base, l.href) in urls';
      r
  }

  // ---------------------------------------------------------------------------
  // get_exam_pages
  // ---------------------------------------------------------------------------

  /** The pagination pass added nothing beyond the exam URL itself. */
  predicate PaginationAddsNothing(examUrl: string, pagination: Option<seq<Link>>, join: (string, string) -> string) {
    pagination.Some? ==> forall i :: 0 <= i < |pagination.value| && PaginationHref(pagination.value[i]) ==>
      join(examUrl, pagination.value[i].href) == examUrl
  }

  /** u comes from a usable pagination link. */
  predicate FromPagination(examUrl: string, pagination: Option<seq<Link>>, join: (string, string) -> string, u: string) {
    pagination.Some? && exists i :: (0 <= i < |pagination.value| && PaginationHref(pagination.value[i])
      && join(examUrl, pagination.value[i].href) == u)
  }

  /** u comes from a numeric anchor. */
  predicate FromNumericLink(examUrl: string, anchors: seq<Link>, join: (string, string) -> string, u: string) {
    exists i :: 0 <= i < |anchors| && NumericLink(anchors[i]) && join(examUrl, anchors[i].href) == u
  }

  /** `get_exam_pages`: the exam URL, the pages its pagination links to, and,
      only when pagination contributed nothing, the pages of numeric anchors;
      sorted and without duplicates. */
  function ExamPages(examUrl: string, pagination: Option<seq<Link>>, anchors: seq<Link>,
                     join: (string, string) -> string): (r: seq<string>)
    ensures StrictlySorted(r)
    ensures examUrl in r
    ensures forall u :: u in r <==> (u == examUrl || FromPagination(examUrl, pagination, join, u)
      || (PaginationAddsNothing(examUrl, pagination, join) && FromNumericLink(examUrl, anchors, join, u)))
  {
    var links := if pagination.Some? then pagination.value else [];
    var first := CollectUrls(examUrl, links, PaginationHref, join, [examUrl]);
    assert |first| == 1 <==> PaginationAddsNothing(examUrl, pagination, join) by {
      if |first| == 1 {
        assert forall u :: u in first ==> u == examUrl;
      } else {
        assert first[1] in first && first[1] != first[0];
      }
    }
    var second := if |first| == 1 then CollectUrls(examUrl, anchors, NumericLink, join, first) else first;
    SortedSet(second)
  }

  /** Placeholder hrefs never lead anywhere: a pagination bar holding only
      "#" and "javascript:void(0)" links leaves the numeric scan to decide. */
  lemma PlaceholdersSkipped(examUrl: string, links: seq<Link>, anchors: seq<Link>, join: (string, string) -> string)
    requires forall i :: 0 <= i < |links| ==> links[i].href in {"#", "javascript:void(0)"}
    ensures ExamPages(examUrl, Some(links), anchors, join) == ExamPages(examUrl, None, anchors, join)
  {
    var a := ExamPages(examUrl, Some(links), anchors, join);
    var b := ExamPages(examUrl, None, anchors, join);
    assert PaginationAddsNothing(examUrl, Some(links), join) by {
      forall i | 0 <= i < |links| ensures !PaginationHref(links[i]) {
        assert links[i].href in {"#", "javascript:void(0)"};
      }
    }
    forall u ensures u in a <==> u in b {
      if FromPagination(examUrl, Some(links), join, u) {
        var i :| 0 <= i < |links| && PaginationHref(links[i]) && join(examUrl, links[i].href) == u;
        assert links[i].href in {"#", "javascript:void(0)"};
      }
    }
    StrictlySortedUnique(a, b);
  }
}
