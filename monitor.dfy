/**
 * The per-URL step of `main` (main.py): check the site, compose the
 * message with the method tag defaulting to "none", and choose the e-mail
 * subject from whether anything was found. Sending is left to the caller.
 */
module Monitor {
  import opened Wrappers
  import opened Text
  import opened Finder
  import opened Site
  import opened Report

  const NoneLabel := "none"
  const OfferSubject := "Alerta Toyota Parts - Oferta detectada"
  const NoOfferSubject := "Toyota Parts - Sin ofertas"

  /**
   * Python's `method or "none"`: a missing or empty tag becomes "none",
   * any other tag is passed through; the label is never empty.
   */
  function MethodLabel(m: Option<string>): (r: string)
    ensures r != ""
    ensures m.Some? && m.value != "" ==> r == m.value
    ensures m == None || m == Some("") ==> r == NoneLabel
  {
    match m
    case None => NoneLabel
    case Some(v) => if v == "" then NoneLabel else v
  }

  /** The subject line: the alert subject exactly when there are findings. */
  function Subject(findings: seq<Finding>): (r: string)
    ensures r == NoOfferSubject <==> findings == []
    ensures r == OfferSubject <==> findings != []
  {
    if findings != [] then OfferSubject else NoOfferSubject
  }

  /** The subject and body of the e-mail sent for one URL (the same body goes to Telegram). */
  datatype Notification = Notification(subject: string, message: string)

  /** One iteration of the loop in `main`, with the scrapers and the clock as parameters. */
  function Notify(url: string, now: string, scrapeRequests: Scraper, scrapePlaywright: Scraper,
                  offers: seq<Matcher>, countdowns: seq<Matcher>): (n: Notification)
    ensures var basic := Findings(scrapeRequests(url), offers, countdowns);
            var rendered := Findings(scrapePlaywright(url), offers, countdowns);
            && (n.subject == NoOfferSubject <==> basic == [] && rendered == [])
            && (n.subject == OfferSubject <==> basic != [] || rendered != [])
            && (basic == [] && rendered == [] ==> n.message == NoDiscountBody(now, url))
            && (basic != [] ==> n.message == Message(now, url, RequestsMethod, basic))
            && (basic == [] && rendered != [] ==> n.message == Message(now, url, PlaywrightMethod, rendered))
  {
    var result := CheckSite(url, scrapeRequests, scrapePlaywright, offers, countdowns);
    Notification(Subject(result.findings), Message(now, url, MethodLabel(result.detectedBy), result.findings))
  }

  /**
   * The three signals of "nothing found" agree: the "Sin ofertas" subject,
   * the fixed "no discounts" body and a check with no method tag all go
   * together; when something was found, the report names the tier that
   * found it ("requests" or "playwright"), never "none".
   */
  lemma NotifyAgrees(url: string, now: string, scrapeRequests: Scraper, scrapePlaywright: Scraper,
                     offers: seq<Matcher>, countdowns: seq<Matcher>)
    ensures var n := Notify(url, now, scrapeRequests, scrapePlaywright, offers, countdowns);
            var result := CheckSite(url, scrapeRequests, scrapePlaywright, offers, countdowns);
            && (n.subject == NoOfferSubject <==> n.message == NoDiscountBody(now, url))
            && (n.subject == NoOfferSubject <==> result.detectedBy == None)
            && (n.subject == NoOfferSubject <==> MethodLabel(result.detectedBy) == NoneLabel)
            && (result.findings != [] ==>
                  n.message == Join("\n", ReportLines(now, url, result.detectedBy.value, result.findings))
                  && result.detectedBy.value in {RequestsMethod, PlaywrightMethod})
  {
    var result := CheckSite(url, scrapeRequests, scrapePlaywright, offers, countdowns);
    NoDiscountExactlyWhenEmpty(now, url, MethodLabel(result.detectedBy), NoneLabel, result.findings);
  }
}
