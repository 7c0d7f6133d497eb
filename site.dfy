/**
 * `check_site` (main.py): the two-tier decision. The plain HTTP scrape is
 * tried first; the rendered (Playwright) scrape only when the first text
 * yields no finding. The two scrapers are parameters: each maps a URL to
 * the text it extracted ("" on any failure).
 */
module Site {
  import opened Wrappers
  import opened Finder

  /** A page-text extractor: URL to extracted text. */
  type Scraper = string -> string

  /** What `check_site` returns: the findings and the method that found them, if any. */
  datatype CheckResult = CheckResult(findings: seq<Finding>, detectedBy: Option<string>)

  const RequestsMethod := "requests"
  const PlaywrightMethod := "playwright"

  /**
   * `check_site(url)`: the basic tier's findings tagged "requests" when
   * there are any; otherwise the rendered tier's findings tagged
   * "playwright" when there are any; otherwise no findings and no method.
   */
  function CheckSite(url: string, scrapeRequests: Scraper, scrapePlaywright: Scraper,
                     offers: seq<Matcher>, countdowns: seq<Matcher>): (r: CheckResult)
    ensures r.detectedBy == None <==> r.findings == []
    ensures r.detectedBy == Some(RequestsMethod) <==> Findings(scrapeRequests(url), offers, countdowns) != []
    ensures r.detectedBy == Some(RequestsMethod) ==> r.findings == Findings(scrapeRequests(url), offers, countdowns)
    ensures r.detectedBy == Some(PlaywrightMethod) <==>
              Findings(scrapeRequests(url), offers, countdowns) == []
              && Findings(scrapePlaywright(url), offers, countdowns) != []
    ensures r.detectedBy == Some(PlaywrightMethod) ==> r.findings == Findings(scrapePlaywright(url), offers, countdowns)
    ensures r.detectedBy in {None, Some(RequestsMethod), Some(PlaywrightMethod)}
  {
    var findings := Findings(scrapeRequests(url), offers, countdowns);
    if findings != [] then
      CheckResult(findings, Some(RequestsMethod))
    else
      var findings2 := Findings(scrapePlaywright(url), offers, countdowns);
      if findings2 != [] then
        CheckResult(findings2, Some(PlaywrightMethod))
      else
        CheckResult([], None)
  }

  /**
   * The short circuit: once the basic tier finds something, the rendered
   * scraper is never consulted, so replacing it changes nothing.
   */
  lemma BasicTierShortCircuits(url: string, scrapeRequests: Scraper, rendered1: Scraper, rendered2: Scraper,
                               offers: seq<Matcher>, countdowns: seq<Matcher>)
    requires Findings(scrapeRequests(url), offers, countdowns) != []
    ensures CheckSite(url, scrapeRequests, rendered1, offers, countdowns)
              == CheckSite(url, scrapeRequests, rendered2, offers, countdowns)
              == CheckResult(Findings(scrapeRequests(url), offers, countdowns), Some(RequestsMethod))
  {
  }

  /**
   * The rendered tier is the result only after the basic tier found
   * nothing, and the basic tier depends only on the basic scraper.
   */
  lemma BasicTierFirst(url: string, scrapeRequests1: Scraper, scrapeRequests2: Scraper, rendered: Scraper,
                       offers: seq<Matcher>, countdowns: seq<Matcher>)
    requires scrapeRequests1(url) == scrapeRequests2(url)
    ensures CheckSite(url, scrapeRequests1, rendered, offers, countdowns)
              == CheckSite(url, scrapeRequests2, rendered, offers, countdowns)
  {
  }

  /**
   * A failed basic scrape (empty text) falls through to the rendered tier,
   * for patterns that never match the empty string: the result is then
   * exactly what the rendered text yields.
   */
  lemma EmptyBasicTextFallsThrough(url: string, scrapeRequests: Scraper, scrapePlaywright: Scraper,
                                   offers: seq<Matcher>, countdowns: seq<Matcher>)
    requires scrapeRequests(url) == ""
    requires ValidMatchers("", offers) && ValidMatchers("", countdowns)
    requires NonEmptyMatches("", offers) && NonEmptyMatches("", countdowns)
    ensures CheckSite(url, scrapeRequests, scrapePlaywright, offers, countdowns)
              == if Findings(scrapePlaywright(url), offers, countdowns) != []
                 then CheckResult(Findings(scrapePlaywright(url), offers, countdowns), Some(PlaywrightMethod))
                 else CheckResult([], None)
  {
    NoFindingsInEmptyText(offers, countdowns);
  }

  /** When both scrapes fail, the check reports no findings and no method. */
  lemma FailedScrapesGiveNothing(url: string, scrapeRequests: Scraper, scrapePlaywright: Scraper,
                                 offers: seq<Matcher>, countdowns: seq<Matcher>)
    requires scrapeRequests(url) == "" && scrapePlaywright(url) == ""
    requires ValidMatchers("", offers) && ValidMatchers("", countdowns)
    requires NonEmptyMatches("", offers) && NonEmptyMatches("", countdowns)
    ensures CheckSite(url, scrapeRequests, scrapePlaywright, offers, countdowns) == CheckResult([], None)
  {
    EmptyBasicTextFallsThrough(url, scrapeRequests, scrapePlaywright, offers, countdowns);
    NoFindingsInEmptyText(offers, countdowns);
  }
}
