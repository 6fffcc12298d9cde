/** The discovery phase of the scraper (`ImageScraper.find_images`): walk the
    gallery's listing pages 1, 2, 3, ... in order, keep the link of every
    figure on a page, and stop at the first page whose gallery never appears
    or shows no figures.

    The rendered browser session is replaced by what it reports: one
    `PageOutcome` per listing page, in page order, and inside a page one
    `LinkOutcome` per figure. The source loops until a page misbehaves; here
    the outcomes form a finite sequence, and running out of them is a third
    way for the walk to end. */
module Discovery {

  import opened Wrappers
  import Decimal
  import Counting

  /** What waiting for a figure's `<a>` element reports: the wait timed out,
      or the element appeared and its `href` attribute was read (`None` when
      the attribute is absent). */
  datatype LinkOutcome = LinkTimeout | Link(href: Option<string>)

  /** What loading a listing page reports: the `ul.gallery` container never
      appeared, or it appeared holding these figures, in document order. */
  datatype PageOutcome = GalleryTimeout | Gallery(figures: seq<LinkOutcome>)

  /** Why the walk over the listing pages ended. */
  datatype StopReason = ContainerTimedOut | NoFigures | OutcomesExhausted

  /** The observable result of a walk: the numbers of the pages loaded, in
      order, the figure links collected, in page order then figure order, and
      why the walk ended. */
  datatype Walked = Walked(loaded: seq<nat>, links: seq<string>, stop: StopReason)

  /** The scraper's state: the gallery URL it was built with and the list of
      item links it has accumulated so far. */
  datatype Scraper = Scraper(baseUrl: string, imageUrls: seq<string>)

  /** A scraper as its constructor leaves it: no links yet. */
  function NewScraper(url: string): Scraper {
    Scraper(url, [])
  }

  /** The URL of listing page `pageNum`: the base URL itself for page 1, and
      the base URL followed by `page<n>/` for later pages. */
  function PageUrl(base: string, pageNum: nat): string {
    if pageNum > 1 then base + "page" + Decimal.FromNat(pageNum) + "/" else base
  }

  /** A page URL can be read back: page 1 is the base URL unchanged; a later
      page's URL is the base, then `page`, then the canonical decimal text of
      the page number, then a slash. */
  lemma PageUrlMeaning(base: string, pageNum: nat)
    ensures pageNum <= 1 ==> PageUrl(base, pageNum) == base
    ensures pageNum > 1 ==>
      var url := PageUrl(base, pageNum);
      && |url| >= |base| + 6
      && url[..|base|] == base
      && url[|base|..|base| + 4] == "page"
      && url[|url| - 1] == '/'
      && Decimal.IsCanonical(url[|base| + 4..|url| - 1])
      && Decimal.ToNat(url[|base| + 4..|url| - 1]) == pageNum
  {
    if pageNum > 1 {
      var digits := Decimal.FromNat(pageNum);
      var url := base + "page" + digits + "/";
      assert url[|base| + 4..|url| - 1] == digits;
      Decimal.ToNatFromNat(pageNum);
    }
  }

  /** Distinct page numbers (from 1 on) load distinct URLs. */
  lemma PageUrlInjective(base: string, m: nat, n: nat)
    requires m >= 1 && n >= 1
    ensures PageUrl(base, m) == PageUrl(base, n) ==> m == n
  {
    PageUrlMeaning(base, m);
    PageUrlMeaning(base, n);
  }

  /** The link a figure contributes: its `href` when the link appeared and the
      attribute is truthy, that is present and not the empty string. */
  function KeptHref(l: LinkOutcome): Option<string> {
    if l.Link? && l.href.Some? && l.href.value != "" then Some(l.href.value) else None
  }

  /** The links collected from one page's figures, in figure order. A figure
      whose link wait timed out, or whose `href` is missing or empty, adds
      nothing, and the figures after it are still examined. */
  function PageLinks(figures: seq<LinkOutcome>): (links: seq<string>)
    ensures |links| <= |figures|
  {
    if |figures| == 0 then []
    else
      match KeptHref(figures[0])
      case Some(x) => [x] + PageLinks(figures[1..])
      case None => PageLinks(figures[1..])
  }

  /** Every collected link is non-empty and is the `href` of some figure, and
      every truthy `href` on the page is collected. */
  lemma {:induction false} PageLinksMeaning(figures: seq<LinkOutcome>)
    ensures forall x :: x in PageLinks(figures) ==> x != "" && Link(Some(x)) in figures
    ensures forall j :: 0 <= j < |figures| && KeptHref(figures[j]).Some? ==>
      KeptHref(figures[j]).value in PageLinks(figures)
  {
    if |figures| > 0 {
      PageLinksMeaning(figures[1..]);
      assert forall j :: 1 <= j < |figures| ==> figures[j] == figures[1..][j - 1];
    }
  }

  /** Collecting is compositional: the links of two runs of figures are the
      links of the first followed by the links of the second. */
  lemma {:induction false} PageLinksAppend(a: seq<LinkOutcome>, b: seq<LinkOutcome>)
    ensures PageLinks(a + b) == PageLinks(a) + PageLinks(b)
  {
    if |a| == 0 {
      assert a + b == b;
    } else {
      assert (a + b)[0] == a[0];
      assert (a + b)[1..] == a[1..] + b;
      PageLinksAppend(a[1..], b);
    }
  }

  /** Skipping one figure (a link timeout, a missing or empty `href`) does not
      abandon the page: the figures on either side are collected as usual. */
  lemma SkippedFigureKeepsPage(a: seq<LinkOutcome>, l: LinkOutcome, b: seq<LinkOutcome>)
    requires KeptHref(l).None?
    ensures PageLinks(a + [l] + b) == PageLinks(a) + PageLinks(b)
  {
    PageLinksAppend(a + [l], b);
    PageLinksAppend(a, [l]);
  }

  /** A page that ends the walk: the gallery container timed out, or it
      holds no figures. */
  predicate EndsWalk(p: PageOutcome) {
    p.GalleryTimeout? || |p.figures| == 0
  }

  /** The position of the first page that ends the walk, or the number of
      outcomes when none does. */
  function FirstStop(pages: seq<PageOutcome>): (k: nat)
    ensures k <= |pages|
  {
    if |pages| == 0 || EndsWalk(pages[0]) then 0 else 1 + FirstStop(pages[1..])
  }

  /** `FirstStop` finds the first page that ends the walk: no page before it
      does, and the page at it does (when there is one). */
  lemma {:induction false} FirstStopMeaning(pages: seq<PageOutcome>)
    ensures forall j :: 0 <= j < FirstStop(pages) ==> !EndsWalk(pages[j])
    ensures FirstStop(pages) < |pages| ==> EndsWalk(pages[FirstStop(pages)])
  {
    if |pages| > 0 && !EndsWalk(pages[0]) {
      FirstStopMeaning(pages[1..]);
      assert forall j :: 1 <= j < |pages| ==> pages[j] == pages[1..][j - 1];
    }
  }

  /** The links one page contributes (a page that ends the walk contributes
      none). */
  function Contribution(p: PageOutcome): seq<string> {
    match p
    case GalleryTimeout => []
    case Gallery(figures) => PageLinks(figures)
  }

  /** The links of a run of pages, in page order then figure order. */
  function Collected(pages: seq<PageOutcome>): seq<string> {
    if |pages| == 0 then [] else Contribution(pages[0]) + Collected(pages[1..])
  }

  lemma {:induction false} CollectedAppend(a: seq<PageOutcome>, b: seq<PageOutcome>)
    ensures Collected(a + b) == Collected(a) + Collected(b)
  {
    if |a| == 0 {
      assert a + b == b;
    } else {
      assert (a + b)[0] == a[0];
      assert (a + b)[1..] == a[1..] + b;
      CollectedAppend(a[1..], b);
    }
  }

  /** The number of pages loaded: every page up to and including the one that
      ends the walk. */
  function PagesLoaded(pages: seq<PageOutcome>): nat {
    var k := FirstStop(pages);
    if k < |pages| then k + 1 else k
  }

  function StopOf(pages: seq<PageOutcome>): StopReason {
    var k := FirstStop(pages);
    if k == |pages| then OutcomesExhausted
    else if pages[k].GalleryTimeout? then ContainerTimedOut
    else NoFigures
  }

  /** The walk as a recursive fold over the page outcomes from position `i`
      on (page number `i + 1`): load the page, stop on a timeout or an empty
      gallery, otherwise keep the page's links and go on with the next page. */
  function Walk(pages: seq<PageOutcome>, i: nat): Walked
    decreases |pages| - i
  {
    if i >= |pages| then Walked([], [], OutcomesExhausted)
    else
      match pages[i]
      case GalleryTimeout => Walked([i + 1], [], ContainerTimedOut)
      case Gallery(figures) =>
        if |figures| == 0 then Walked([i + 1], [], NoFigures)
        else
          var rest := Walk(pages, i + 1);
          Walked([i + 1] + rest.loaded, PageLinks(figures) + rest.links, rest.stop)
  }

  /** A page that ends the walk contributes only its own page number. */
  lemma WalkEnds(pages: seq<PageOutcome>, i: nat)
    requires i < |pages| && EndsWalk(pages[i])
    ensures Walk(pages, i).loaded == [i + 1]
    ensures Walk(pages, i).links == []
    ensures Walk(pages, i).stop == if pages[i].GalleryTimeout? then ContainerTimedOut else NoFigures
  {
  }

  /** Past a page with figures, the walk from `i` is that page's number and
      links in front of the walk from `i + 1`, seen from any accumulators. */
  lemma WalkContinues(pages: seq<PageOutcome>, i: nat, loaded: seq<nat>, added: seq<string>)
    requires i < |pages| && pages[i].Gallery? && |pages[i].figures| > 0
    ensures loaded + Walk(pages, i).loaded == (loaded + [i + 1]) + Walk(pages, i + 1).loaded
    ensures added + Walk(pages, i).links == (added + PageLinks(pages[i].figures)) + Walk(pages, i + 1).links
    ensures Walk(pages, i).stop == Walk(pages, i + 1).stop
  {
    var rest := Walk(pages, i + 1);
    assert Walk(pages, i) == Walked([i + 1] + rest.loaded, PageLinks(pages[i].figures) + rest.links, rest.stop);
  }

  /** Discovery over a gallery: the walk from page 1. */
  function Discover(pages: seq<PageOutcome>): Walked {
    Walk(pages, 0)
  }

  /** The URLs a discovery loads, one per page loaded. */
  function RequestedUrls(base: string, d: Walked): seq<string> {
    seq(|d.loaded|, j requires 0 <= j < |d.loaded| => PageUrl(base, d.loaded[j]))
  }

  /** The walk from position `i` loads the consecutive page numbers from
      `i + 1` up to and including the first page that ends it: the counter
      moves on only past a page that does not end the walk. */
  lemma {:induction false} WalkLoaded(pages: seq<PageOutcome>, i: nat)
    requires i <= |pages|
    ensures Walk(pages, i).loaded == Counting.Range(i + 1, PagesLoaded(pages[i..]))
    decreases |pages| - i
  {
    if i < |pages| && !EndsWalk(pages[i]) {
      var tail := pages[i + 1..];
      WalkLoaded(pages, i + 1);
      assert pages[i..][1..] == tail;
      assert FirstStop(pages[i..]) == 1 + FirstStop(tail);
      assert PagesLoaded(pages[i..]) == 1 + PagesLoaded(tail);
      Counting.RangeCons(i + 1, PagesLoaded(pages[i..]));
    }
  }

  /** The walk from position `i` keeps the links of the pages before the
      first page that ends it, in order. */
  lemma {:induction false} WalkLinks(pages: seq<PageOutcome>, i: nat)
    requires i <= |pages|
    ensures Walk(pages, i).links == Collected(pages[i..][..FirstStop(pages[i..])])
    decreases |pages| - i
  {
    var here := pages[i..];
    if i < |pages| && !EndsWalk(pages[i]) {
      var tail := pages[i + 1..];
      WalkLinks(pages, i + 1);
      assert here[1..] == tail;
      var k := FirstStop(here);
      assert k == 1 + FirstStop(tail);
      var prefix := here[..k];
      assert prefix[0] == pages[i];
      assert prefix[1..] == tail[..FirstStop(tail)];
    } else {
      assert here[..FirstStop(here)] == [];
    }
  }

  /** The walk from position `i` reports the outcome of the page that ended
      it. */
  lemma {:induction false} WalkStop(pages: seq<PageOutcome>, i: nat)
    requires i <= |pages|
    ensures Walk(pages, i).stop == StopOf(pages[i..])
    decreases |pages| - i
  {
    if i < |pages| && !EndsWalk(pages[i]) {
      WalkStop(pages, i + 1);
      assert pages[i..][1..] == pages[i + 1..];
      assert FirstStop(pages[i..]) == 1 + FirstStop(pages[i + 1..]);
    }
  }

  /** Discovery from page 1: the pages loaded are 1, 2, ..., k in that
      order, where page k is the first that ends the walk (or the last
      outcome); the links are the non-empty hrefs of the pages before it, in
      page order then figure order; and the stop reason is page k's outcome. */
  lemma DiscoverMeaning(pages: seq<PageOutcome>)
    ensures |Discover(pages).loaded| == PagesLoaded(pages)
    ensures forall j :: 0 <= j < PagesLoaded(pages) ==> Discover(pages).loaded[j] == j + 1
    ensures Discover(pages).links == Collected(pages[..FirstStop(pages)])
    ensures Discover(pages).stop == StopOf(pages)
  {
    assert pages[0..] == pages;
    WalkLoaded(pages, 0);
    WalkLinks(pages, 0);
    WalkStop(pages, 0);
  }

  /** No page is loaded twice: the URLs a discovery requests are pairwise
      distinct. */
  lemma RequestedDistinct(base: string, pages: seq<PageOutcome>)
    ensures forall i, j :: 0 <= i < j < |RequestedUrls(base, Discover(pages))| ==>
      RequestedUrls(base, Discover(pages))[i] != RequestedUrls(base, Discover(pages))[j]
  {
    var d := Discover(pages);
    DiscoverMeaning(pages);
    ConsecutivePageUrls(base, d.loaded);
  }

  /** Consecutive page numbers from 1 have pairwise distinct URLs. */
  lemma ConsecutivePageUrls(base: string, loaded: seq<nat>)
    requires forall j :: 0 <= j < |loaded| ==> loaded[j] == j + 1
    ensures forall i, j :: 0 <= i < j < |loaded| ==> PageUrl(base, loaded[i]) != PageUrl(base, loaded[j])
  {
    forall i, j | 0 <= i < j < |loaded|
      ensures PageUrl(base, loaded[i]) != PageUrl(base, loaded[j])
    {
      PageUrlInjective(base, loaded[i], loaded[j]);
    }
  }

  /** Two outcome sequences that agree up to and including the first page
      that ends the walk give the same walk from any position up to it. */
  lemma {:induction false} WalkAgrees(pages: seq<PageOutcome>, other: seq<PageOutcome>, k: nat, i: nat)
    requires k < |pages| && k < |other| && i <= k
    requires EndsWalk(pages[k])
    requires forall j :: i <= j <= k ==> other[j] == pages[j]
    requires forall j :: i <= j < k ==> !EndsWalk(pages[j])
    ensures Walk(other, i) == Walk(pages, i)
    decreases k - i
  {
    if i < k {
      WalkAgrees(pages, other, k, i + 1);
    }
  }

  /** Once a page ends the walk, no later page is consulted: whatever the
      outcomes after it, discovery gives the same result. */
  lemma {:induction false} NoLaterPageConsulted(pages: seq<PageOutcome>, later: seq<PageOutcome>)
    requires FirstStop(pages) < |pages|
    ensures Discover(pages[..FirstStop(pages) + 1] + later) == Discover(pages)
  {
    var k := FirstStop(pages);
    var other := pages[..k + 1] + later;
    FirstStopMeaning(pages);
    assert forall j :: 0 <= j <= k ==> other[j] == pages[j];
    WalkAgrees(pages, other, k, 0);
  }

  /** A gallery whose first page shows three linked figures and whose second
      page shows none: three links are discovered, in figure order, pages 1
      and 2 are loaded at the base URL and at `<base>page2/`, and whatever the
      outcomes after page 2, they are never consulted. */
  lemma TwoPageScenario(later: seq<PageOutcome>)
    ensures var pages := [Gallery([Link(Some("a")), Link(Some("b")), Link(Some("c"))]), Gallery([])];
      var d := Discover(pages + later);
      && d == Walked([1, 2], ["a", "b", "c"], NoFigures)
      && RequestedUrls("https://site.test/g/", d) == ["https://site.test/g/", "https://site.test/g/page2/"]
  {
    var pages := [Gallery([Link(Some("a")), Link(Some("b")), Link(Some("c"))]), Gallery([])];
    assert FirstStop(pages) == 1 by {
      assert FirstStop(pages[1..]) == 0;
    }
    assert pages[..2] == pages;
    NoLaterPageConsulted(pages, later);
    assert pages[..FirstStop(pages) + 1] + later == pages + later;
    assert Walk(pages, 1) == Walked([2], [], NoFigures);
    assert PageLinks(pages[0].figures) == ["a", "b", "c"];
    assert Discover(pages) == Walked([1, 2], ["a", "b", "c"], NoFigures);
    assert Decimal.FromNat(2) == "2";
    assert PageUrl("https://site.test/g/", 2) == "https://site.test/g/page2/";
  }

  /** The inner loop of `find_images` over one page's figures: wait for each
      figure's link, and append its `href` to the list when it is truthy. */
  method CollectFigures(urls: seq<string>, figures: seq<LinkOutcome>) returns (urls': seq<string>)
    ensures urls' == urls + PageLinks(figures)
  {
    urls' := urls;
    var i := 0;
    while i < |figures|
      invariant 0 <= i <= |figures|
      invariant urls' == urls + PageLinks(figures[..i])
    {
      match figures[i] {
        case LinkTimeout =>
        case Link(href) =>
          if href.Some? && href.value != "" {
            urls' := urls' + [href.value];
          }
      }
      PageLinksAppend(figures[..i], [figures[i]]);
      assert figures[..i + 1] == figures[..i] + [figures[i]];
      i := i + 1;
    }
    assert figures[..i] == figures;
  }

  /** `find_images` as the source writes it: a loop over page numbers from 1
      that loads page `pageNum` (at `PageUrl(base, pageNum)`), stops on a
      container timeout or an empty gallery, and otherwise appends every
      truthy figure href to the scraper's list before moving to the next page
      number. It returns the length of the whole list, links from earlier
      calls included, together with the page numbers it loaded and why it
      stopped. The list is only ever appended to, and what the loop appends,
      loads and reports is exactly the recursive `Discover`. */
  method FindImages(s: Scraper, pages: seq<PageOutcome>)
    returns (s': Scraper, found: nat, loaded: seq<nat>, stop: StopReason)
    ensures s'.baseUrl == s.baseUrl
    ensures s'.imageUrls == s.imageUrls + Discover(pages).links
    ensures found == |s'.imageUrls|
    ensures loaded == Discover(pages).loaded
    ensures stop == Discover(pages).stop
  {
    ghost var d := Discover(pages);
    var added: seq<string> := [];
    loaded := [];
    var pageNum: nat := 1;
    stop := OutcomesExhausted;
    while pageNum <= |pages|
      invariant 1 <= pageNum <= |pages| + 1
      invariant d.loaded == loaded + Walk(pages, pageNum - 1).loaded
      invariant d.links == added + Walk(pages, pageNum - 1).links
      invariant d.stop == Walk(pages, pageNum - 1).stop
      decreases |pages| - pageNum
    {
      var page := pages[pageNum - 1];
      if page.GalleryTimeout? {
        WalkEnds(pages, pageNum - 1);
        loaded := loaded + [pageNum];
        stop := ContainerTimedOut;
        break;
      }
      var figures := page.figures;
      if |figures| == 0 {
        WalkEnds(pages, pageNum - 1);
        loaded := loaded + [pageNum];
        stop := NoFigures;
        break;
      }
      WalkContinues(pages, pageNum - 1, loaded, added);
      loaded := loaded + [pageNum];
      added := CollectFigures(added, figures);
      pageNum := pageNum + 1;
    }
    s' := Scraper(s.baseUrl, s.imageUrls + added);
    found := |s'.imageUrls|;
  }

  /** `scan_url` then `find_images`: every scan builds a fresh scraper for
      the URL, so the links it ends up with, and the count it reports, are
      exactly those of one discovery from page 1. */
  method Scan(url: string, pages: seq<PageOutcome>) returns (s: Scraper, found: nat)
    ensures s.baseUrl == url
    ensures s.imageUrls == Discover(pages).links
    ensures found == |Discover(pages).links|
  {
    var loaded, stop;
    s, found, loaded, stop := FindImages(NewScraper(url), pages);
  }
}
