/**
 * The `.action` callback: validate the options, then walk the catalog page
 * by page with a do-while loop, extracting the tracks and the release id of
 * each page, until the page limit is reached or a page has no "next" link.
 *
 * The browser is an oracle: `site` lists the pages in the order that the
 * "next" links lead through them, starting at the page the slug names.
 */
module Scrape {
  import opened Text
  import opened Validation
  import opened Extraction

  /** Where the catalog lives; the slug is appended after a `/`. */
  const BaseUrl: string := "https://www.dischord.com/fugazi_live_series"

  /**
   * One catalog page as the browser renders it: the raw texts of its
   * `.track_name` elements, the raw text of `.releaseNumber`, and whether a
   * `#nextButton a` link exists on it.
   */
  datatype Page = Page(trackTexts: seq<string>, releaseText: string, hasNext: bool)

  /** What one pass of the loop body extracts and logs for a page. */
  datatype Scraped = Scraped(tracks: seq<string>, releaseId: string)

  /** The outcome of a run that passed validation. */
  datatype Session = Session(url: string, scraped: seq<Scraped>, pages: nat, clicks: nat, exhausted: bool)

  /** A catalog that ends: it has a first page, and its last page has no "next" link. */
  predicate WellFormed(site: seq<Page>) {
    |site| > 0 && !site[|site| - 1].hasNext
  }

  /**
   * The number of pages reachable by following "next" links from the first
   * page: up to and including the first page without one.
   */
  function Reachable(site: seq<Page>): (n: nat)
    requires WellFormed(site)
    ensures 1 <= n <= |site|
    ensures !site[n - 1].hasNext
    ensures forall k :: 0 <= k < n - 1 ==> site[k].hasNext
  {
    if !site[0].hasNext then 1 else 1 + Reachable(site[1..])
  }

  /** The number of pages a run visits: the limit, or all reachable pages if fewer or if the limit is 0. */
  function PagesProcessed(site: seq<Page>, pageLimit: nat): nat
    requires WellFormed(site)
  {
    if pageLimit == 0 || Reachable(site) < pageLimit then Reachable(site) else pageLimit
  }

  /** The loop stops after its `n`-th page: the limit is reached there, or that page has no "next" link. */
  predicate StopsAfter(site: seq<Page>, pageLimit: nat, n: nat)
    requires 1 <= n <= |site|
  {
    (pageLimit != 0 && pageLimit <= n) || !site[n - 1].hasNext
  }

  /** The extraction applied to one page. */
  function ScrapePage(page: Page): (s: Scraped)
    ensures |s.tracks| == |page.trackTexts|
    ensures IsTrimmed(s.releaseId)
  {
    Scraped(TrackNames(page.trackTexts), CleanReleaseId(page.releaseText))
  }

  /**
   * The count of processed pages is the first page after which the stop
   * rule fires: it fires there and after no earlier page.
   */
  lemma PagesProcessedIsFirstStop(site: seq<Page>, pageLimit: nat)
    requires WellFormed(site)
    ensures var n := PagesProcessed(site, pageLimit);
      1 <= n <= |site| && StopsAfter(site, pageLimit, n) &&
      forall m :: 1 <= m < n ==> !StopsAfter(site, pageLimit, m)
  {
    var n := PagesProcessed(site, pageLimit);
    forall m | 1 <= m < n
      ensures !StopsAfter(site, pageLimit, m)
    {
      assert m - 1 < Reachable(site) - 1;
    }
  }

  /**
   * A loop that has followed "next" links through its first `n - 1` pages,
   * was allowed to go on after each of them, and stops after page `n` has
   * processed `PagesProcessed` pages.
   */
  lemma StopIsPagesProcessed(site: seq<Page>, pageLimit: nat, n: nat)
    requires WellFormed(site) && 1 <= n <= |site|
    requires forall k :: 0 <= k < n - 1 ==> site[k].hasNext
    requires n == 1 || pageLimit == 0 || n - 1 < pageLimit
    requires StopsAfter(site, pageLimit, n)
    ensures n == PagesProcessed(site, pageLimit)
    ensures n <= Reachable(site)
    ensures (!site[n - 1].hasNext && (pageLimit == 0 || n < pageLimit)) <==>
            (pageLimit == 0 || Reachable(site) < pageLimit)
  {
  }

  /** In the closed form, a limit of 0 counts like any limit larger than the reachable part of the catalog. */
  lemma ZeroLimitIsUnbounded(site: seq<Page>, pageLimit: nat)
    requires WellFormed(site)
    requires pageLimit > Reachable(site)
    ensures PagesProcessed(site, 0) == PagesProcessed(site, pageLimit) == Reachable(site)
  {
  }

  /**
   * The loop may go round once more: it has processed `i` pages, followed the
   * "next" link of each, and the limit did not stop it.
   */
  ghost predicate Continuing(site: seq<Page>, pageLimit: nat, i: nat, clicks: nat) {
    && i < |site| && clicks == i
    && (forall k :: 0 <= k < i ==> site[k].hasNext)
    && (i == 0 || pageLimit == 0 || i < pageLimit)
  }

  /** The loop has ended after processing `i` pages. */
  ghost predicate Stopped(site: seq<Page>, pageLimit: nat, i: nat, clicks: nat, exhausted: bool)
    requires WellFormed(site)
  {
    && 1 <= i <= Reachable(site)
    && i == PagesProcessed(site, pageLimit)
    && (exhausted <==> (pageLimit == 0 || Reachable(site) < pageLimit))
    && clicks == if exhausted then i else i - 1
  }

  /**
   * The end of the loop body: count the page just processed, decide whether
   * to go on, and if so try to follow the "next" link of the page the
   * browser shows. Either the loop may go round again, now on the next page,
   * or it has stopped after exactly `PagesProcessed` pages.
   */
  method Advance(site: seq<Page>, pageLimit: nat, i: nat, current: nat, clicks: nat)
    returns (i': nat, current': nat, clicks': nat, more: bool, exhausted: bool)
    requires WellFormed(site) && Continuing(site, pageLimit, i, clicks) && current == i
    ensures i' == i + 1
    ensures clicks' == if i' < pageLimit || pageLimit == 0 then clicks + 1 else clicks
    ensures more ==> Continuing(site, pageLimit, i', clicks') && current' == i' && !exhausted
    ensures !more ==> Stopped(site, pageLimit, i', clicks', exhausted)
  {
    i', current', clicks', exhausted := i + 1, current, clicks, false;
    more := i' < pageLimit || pageLimit == 0;
    if more {
      clicks' := clicks' + 1;
      if site[current].hasNext {
        assert current != |site| - 1;
        current' := current' + 1;
      } else {
        exhausted := true;
        more := false;
      }
    }
    if !more {
      StopIsPagesProcessed(site, pageLimit, i');
    }
  }

  /**
   * The do-while loop of the `.action` callback. `i` counts processed pages,
   * `clicks` counts attempts to follow a "next" link and `exhausted` says that
   * an attempt found none ('No "next" link; reached end of scrapable data.').
   * `extract` is what the loop body reads off the page the browser shows
   * (`extractTracks` and `extractReleaseId`); `Action` passes `ScrapePage`.
   */
  method ScrapePages(site: seq<Page>, pageLimit: nat, extract: Page -> Scraped)
    returns (scraped: seq<Scraped>, i: nat, clicks: nat, exhausted: bool)
    requires WellFormed(site)
    ensures i == PagesProcessed(site, pageLimit)
    ensures 1 <= i <= Reachable(site)
    ensures pageLimit != 0 ==> i <= pageLimit
    ensures |scraped| == i
    ensures forall k :: 0 <= k < i ==> scraped[k] == extract(site[k])
    ensures exhausted <==> (pageLimit == 0 || Reachable(site) < pageLimit)
    ensures clicks == if exhausted then i else i - 1
  {
    scraped, i, clicks, exhausted := [], 0, 0, false;
    var current := 0;
    var more := true;
    while more
      invariant i <= |site| && |scraped| == i
      invariant forall k {:trigger scraped[k]} :: 0 <= k < i ==> scraped[k] == extract(site[k])
      invariant more ==> Continuing(site, pageLimit, i, clicks) && current == i && !exhausted
      invariant !more ==> Stopped(site, pageLimit, i, clicks, exhausted)
      decreases |site| - i
    {
      var page := site[current];
      scraped := scraped + [extract(page)];
      i, current, clicks, more, exhausted := Advance(site, pageLimit, i, current, clicks);
    }
  }

  /**
   * The whole `.action` callback: `validatePage`, then `validateCount`, then
   * the loop over the pages reached from the start URL.
   */
  method Action(page: Arg, count: JsNumber, site: seq<Page>) returns (r: Result<Session>)
    requires WellFormed(site)
    ensures page.Undefined? ==> r == Err(PageRequired)
    ensures page.Defined? && ValidateCount(count).Err? ==> r == Err(CountInvalid)
    ensures r.Ok? <==> page.Defined? && ValidateCount(count).Ok?
    ensures r.Ok? ==>
      && r.value.url == BaseUrl + "/" + ValidatePage(page).value
      && r.value.pages == PagesProcessed(site, ValidateCount(count).value)
      && |r.value.scraped| == r.value.pages
      && (forall k :: 0 <= k < r.value.pages ==> r.value.scraped[k] == ScrapePage(site[k]))
      && (r.value.exhausted <==> (count.value == 0.0 || (Reachable(site) as real) < count.value))
  {
    var slug := ValidatePage(page);
    if slug.Err? {
      return Err(slug.error);
    }
    var limit := ValidateCount(count);
    if limit.Err? {
      return Err(limit.error);
    }
    var url := BaseUrl + "/" + slug.value;
    var scraped, pages, clicks, exhausted := ScrapePages(site, limit.value, ScrapePage);
    r := Ok(Session(url, scraped, pages, clicks, exhausted));
  }
}
