# Toyota Parts offer monitor — a Dafny model of its finding pipeline

The monitor (`main.py`) checks a parts-store page for discount banners and
countdown timers and sends a report by Telegram and e-mail. This project
models its deterministic core and proves what each step promises. The core
has five steps:

- **`find_offers_in_text`** runs every offer pattern and then every countdown
  pattern over a text. Each match becomes a finding `(kind, match, snippet)`.
  The snippet is the text 80 characters either side of the match, clamped and
  stripped. Modelled in `finder.dfy` (module `Finder`) as an imperative method
  with the same loop nest, proved equal to a specification function.
- **The combine step** of both scrapers drops the empty fragments, joins the
  rest with single spaces and lowercases the result. Modelled in `scrape.dfy`
  (module `Scrape`).
- **`check_site`** tries the plain HTTP text first and falls back to the
  rendered (Playwright) text only when the first yields nothing. It returns the
  findings and the tier that found them. Modelled in `site.dfy` (module `Site`)
  with both scrapers as function parameters.
- **`compose_message`** builds the report: a fixed "no discounts" body, or a
  header followed by the offer block and then the countdown block. Modelled in
  `report.dfy` (module `Report`) as an imperative method with the source's
  single loop, proved equal to a specification function with the line layout.
- **The per-URL step of `main`** supplies `method or "none"` and chooses the
  e-mail subject. Modelled in `monitor.dfy` (module `Monitor`).

The Python string operations the code relies on are modelled in `text.dfy`
(module `Text`): `strip()` with Python's whitespace set, `lower()` (limited to
ASCII), `sep.join`, and clamped slicing. `wrappers.dfy` holds `Option`, which
stands for Python's `None`-or-value.

Each regular expression is an abstract *matcher*: a function from the text to
its match spans `(start, end)`. Where a property needs it, the spans are
required to be in bounds, ascending and non-overlapping (`ValidMatchers`).
That is what `re.finditer` yields.

## Model

| member | source | states |
|---|---|---|
| `Text.Strip` | main.py:87 | `strip()` never lengthens a string and leaves no whitespace at either end. |
| `Text.StripSpec` | main.py:87 | `strip()` gives a slice `s[i..j]`. Everything before `i` and after `j` is whitespace. The result has no whitespace at either end. It is empty exactly when `s` is all whitespace. |
| `Text.StripRemovesPadding` | main.py:87 | `strip()` of any whitespace around a trimmed string gives that string back. |
| `Text.StripIdempotent` | main.py:91 | Stripping twice removes nothing more. |
| `Text.Slice` | main.py:87 | Python's `s[a:b]` for non-negative bounds: the exact slice when in range, `s[a:]` when only `b` is past the end, empty when `a` is past the end or not before `b`. |
| `Text.Take` | main.py:210 | `s[:n]` has length `min(|s|, n)` and is a prefix of `s`. So each report snippet is at most 200 characters. |
| `Text.Lower` | main.py:118 | ASCII `lower()` keeps the length and lowers each character. |
| `Text.LowerIsLower` | main.py:118 | A lowered string has no upper-case ASCII letter, and lowering it again changes nothing. |
| `Text.LowerJoin` | main.py:175 | Lowering a join equals joining the lowered parts, when the separator has no upper-case letter. |
| `Text.Join` | main.py:219 | `sep.join(parts)` (also at main.py:118 and main.py:175): `""` for no parts, the part itself for one, and otherwise a text that starts with the first part and ends with the last. |
| `Text.JoinEmpty` | main.py:118 | With no empty part, `sep.join(parts)` is empty exactly when `parts` is empty. |
| `Finder.Snippet` | main.py:87 | The snippet (computed the same way at main.py:91) has no whitespace at either end, is no longer than the text, and is at most the match plus 80 characters on each side. |
| `Finder.SnippetPlacement` | main.py:87 | The snippet of a match is a substring `text[i..i+len]` of the clamped window `[max(0,start-80), min(len,end+80))`. Only whitespace is dropped on either side. It is at most `(end-start)+160` long and has no whitespace at its ends. A match with no whitespace at its own ends lies inside it. |
| `Finder.KeepsTrimmed` | main.py:87 | Dropping only whitespace from both ends of a window keeps whole any stretch with no whitespace at its ends. |
| `Finder.MakeFinding` | main.py:88 | A finding (built the same way at main.py:92) carries its pattern list's kind, and its matched text is exactly the text the span covers (`m.group(0)`). |
| `Finder.MatchFindings` | main.py:86-88 | One finding per match of a pattern, in match order. Each has the pattern's kind, the matched slice and its snippet. |
| `Finder.PatternFindings` | main.py:85-88 | The findings of a pattern list number the total match count, and all carry the list's kind. |
| `Finder.Findings` | main.py:83-93 | The result has one finding per match of every pattern. A finding is an offer exactly when its index is below the number of offer matches, so all offers come first. |
| `Finder.AppendMatchFindings` | main.py:86-88 | The inner loop appends exactly the findings of one pattern's matches. |
| `Finder.AppendFindings` | main.py:85-88 | The loop over one pattern list appends exactly that list's findings. |
| `Finder.FindOffersInText` | main.py:83-93 | `find_offers_in_text` returns exactly `Findings(text, offers, countdowns)`. |
| `Finder.OffersBeforeCountdowns` | main.py:85-92 | No countdown finding comes before an offer finding. |
| `Finder.FindingAt` | main.py:85-88 | Match `m` of pattern `p` is the finding at position `Offset(p) + m`. |
| `Finder.FindingOrigin` | main.py:85-88 | Every finding is the finding of some match `m` of some pattern `p`, at position `Offset(p) + m`. |
| `Finder.FindingSource` | main.py:85-92 | Every finding comes from a match of a pattern of its own kind's list. Its matched text is exactly `text[start..end]` of that match. Its snippet is that match's snippet. |
| `Finder.FindingsInOrder` | main.py:85-88 | Within one kind, earlier findings come from earlier patterns, or from earlier non-overlapping matches of the same pattern. |
| `Finder.NoFindingsInEmptyText` | main.py:83-93 | An empty text yields no findings, for patterns that never match the empty string. |
| `Scrape.NonEmpty` | main.py:118 | `filter(None, parts)` keeps only non-empty fragments, and is empty exactly when every fragment is empty. |
| `Scrape.NonEmptyOne` | main.py:118 | A single fragment is kept exactly when it is not empty. |
| `Scrape.NonEmptyAppend` | main.py:118 | Filtering a concatenation concatenates the filtered pieces, so (with `NonEmptyOne`) the kept fragments are exactly the non-empty ones, in order. |
| `Scrape.CombineFragments` | main.py:118 | The combined text is empty exactly when every fragment is empty, and has no upper-case letter. |
| `Scrape.CombineSnoc` | main.py:118 | An empty fragment changes nothing. The first non-empty fragment becomes the text, lowercased. Every later one is added after exactly one space. |
| `Scrape.CombineLowersEachFragment` | main.py:175 | The combined text is the join, with single spaces, of the kept fragments each lowercased. |
| `Site.CheckSite` | main.py:182-198 | Tagged "requests" exactly when the basic text has findings, and then those are the findings. Tagged "playwright" exactly when the basic text has none and the rendered text has some, and then those are the findings. No tag exactly when there are no findings. |
| `Site.BasicTierShortCircuits` | main.py:185-189 | When the basic tier finds something, the result does not depend on the rendered scraper. |
| `Site.BasicTierFirst` | main.py:185-186 | The basic tier depends only on the basic scraper's text for this URL. |
| `Site.EmptyBasicTextFallsThrough` | main.py:190-198 | An empty basic text leaves the rendered tier's outcome as the result: its findings tagged "playwright", or nothing with no tag. |
| `Site.FailedScrapesGiveNothing` | main.py:197-198 | When both scrapes fail, the result is no findings and no method. |
| `Report.ComposeMessage` | main.py:200-219 | `compose_message` returns exactly `Message(now, url, method, findings)`. |
| `Report.FindingLine` | main.py:209-212 | A finding's line is at most its prefix, its match and the snippet separator plus 200 characters. |
| `Report.Message` | main.py:200-219 | With no findings the message is the fixed "no discounts" body; otherwise it opens with the header naming the time, the URL and the method. |
| `Report.OfKind` | main.py:208-212 | The findings sent to one block all have that block's kind. |
| `Report.OfKindPartition` | main.py:208-212 | Every finding goes to exactly one of the two blocks. |
| `Report.BlocksOfFindings` | main.py:208-212 | For what `find_offers_in_text` returns, the offer block holds exactly the offer patterns' findings, and the countdown block exactly the countdown patterns', each in found order. |
| `Report.FindingLineShape` | main.py:209-212 | A finding's line starts with its own kind's prefix and not with the other kind's. |
| `Report.OfferLinesOfReport` | main.py:209-215 | The entries of the line list (before `"\n".join`) starting with "- Oferta: " are exactly one per offer finding, in order. Each is the prefix, the match, and the snippet cut to 200 characters. |
| `Report.CountdownLinesOfReport` | main.py:211-218 | The same for the line-list entries starting with "- Tiempo detectado: " and the countdown findings. |
| `Report.OfferBlockFirst` | main.py:213-218 | In the line list, every offer entry comes before every countdown entry. |
| `Report.TitlesPresent` | main.py:213-218 | As an entry of the line list, "Ofertas encontradas:" appears exactly when there is an offer finding. "Tiempos / conteos:" appears exactly when there is a countdown finding. |
| `Report.NoDiscountExactlyWhenEmpty` | main.py:202-204 | The message is the fixed "no discounts" body exactly when there are no findings. The body then does not depend on the method. |
| `Monitor.MethodLabel` | main.py:226 | `method or "none"`: a missing or empty tag becomes "none", any other is passed through. |
| `Monitor.Subject` | main.py:229 | The subject is "Toyota Parts - Sin ofertas" exactly when there are no findings, and the alert subject otherwise. |
| `Monitor.Notify` | main.py:225-229 | One URL's e-mail: the alert subject exactly when either tier found something; the "no discounts" body when neither did; otherwise the report of the basic tier's findings tagged "requests" if it found any, else of the rendered tier's tagged "playwright". |
| `Monitor.NotifyAgrees` | main.py:225-229 | Three signals agree: the "Sin ofertas" subject, the "no discounts" body, and the check having no method tag. With findings, the report names the tier that found them ("requests" or "playwright"). |

## Left out

- `send_telegram` and `send_email` (main.py:50-81): network and SMTP I/O. The model stops at the subject and body that would be sent (`Monitor.Notify`).
- HTTP fetching and BeautifulSoup parsing in `scrape_requests` (main.py:96-117), and browser automation in `scrape_playwright` (main.py:125-174). These are foreign libraries and an external process. Each scraper is a parameter, a function from URL to text, with `""` on failure. Only their shared combine step (main.py:118, main.py:175) is modelled.
- Line 115 of main.py passes the separator to `get_text` both positionally and by keyword. BeautifulSoup rejects that with a `TypeError`, which the `except` turns into an empty text, so as written the basic tier would fall through for every page that parses. This is library behaviour outside the model. The model takes any basic text, and covers the empty one (`Site.EmptyBasicTextFallsThrough`).
- The concrete regular expressions (main.py:28-47): Python `re` semantics (`\b`, `\w`, greedy `\s*`) are a library engine. Each pattern is an abstract matcher. `ValidMatchers` assumes in-bounds, ascending, non-overlapping spans. `NonEmptyMatches` assumes no empty match, which the concrete patterns satisfy; only the empty-text lemmas need it.
- `datetime.now()` and `strftime` (main.py:184, main.py:201): the timestamp `now` is a string parameter.
- `print` logging, `traceback`, the `try`/`except` isolation and the loop over `URLS` in `main` (main.py:221-235). These are I/O and exception plumbing; one iteration is modelled (`Monitor.Notify`).
- `Text.Lower`: lowers ASCII letters only. Python's `str.lower()` also maps non-ASCII letters, so properties about case hold only for ASCII upper case.
- `Finder.FindOffersInText`: the nested loop is split into one method per loop level (`AppendFindings`, `AppendMatchFindings`). They keep the source's order of appends but not its single function body.
- The environment configuration (main.py:15-20) and the URL list (main.py:23-25) are constants the model does not need.
