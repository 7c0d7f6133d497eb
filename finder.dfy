/**
 * `find_offers_in_text` (main.py): run every offer pattern, then every
 * countdown pattern, over one text and record, for each match, its kind,
 * the matched text and the whitespace-stripped context around it.
 *
 * The regular expressions are abstract: a `Matcher` is what `p.finditer`
 * gives for a compiled pattern, the spans of its matches, in order.
 */
module Finder {
  import opened Text

  datatype Kind = Offer | Countdown

  /** `m.start()` and `m.end()` of one match. */
  datatype Span = Span(start: nat, end: nat)

  /** The `(kind, m.group(0), snippet)` triple the finder appends. */
  datatype Finding = Finding(kind: Kind, matched: string, snippet: string)

  /** How many characters of context a snippet takes on each side of a match. */
  const ContextWidth: nat := 80

  /** Every span lies inside a text of length `n`. */
  predicate InBounds(spans: seq<Span>, n: nat)
  {
    forall k :: 0 <= k < |spans| ==> spans[k].start <= spans[k].end <= n
  }

  /** What `finditer` yields over a text of length `n`: spans inside the text, ascending and non-overlapping. */
  predicate ValidSpans(spans: seq<Span>, n: nat)
  {
    && InBounds(spans, n)
    && (forall j, k :: 0 <= j < k < |spans| ==> spans[j].end <= spans[k].start)
  }

  /** One compiled pattern, seen through `finditer`: the spans of its matches in a text. */
  type Matcher = string -> seq<Span>

  /** What `finditer` promises of each pattern over `text`. */
  predicate ValidMatchers(text: string, pats: seq<Matcher>)
  {
    forall p :: 0 <= p < |pats| ==> ValidSpans(pats[p](text), |text|)
  }

  /** First index of the context window: `max(0, m.start() - 80)`. */
  function WindowStart(s: Span): nat
  {
    if s.start < ContextWidth then 0 else s.start - ContextWidth
  }

  /** Where the slice `text[max(0, m.start()-80):m.end()+80]` ends once clamped to the text. */
  function WindowEnd(text: string, s: Span): nat
  {
    if |text| < s.end + ContextWidth then |text| else s.end + ContextWidth
  }

  /**
   * `text[max(0, m.start()-80):m.end()+80].strip()`: no whitespace at either
   * end, and no longer than the match with 80 characters on each side.
   */
  function Snippet(text: string, s: Span): (r: string)
    ensures Trimmed(r)
    ensures |r| <= |text|
    ensures s.start <= s.end ==> |r| <= (s.end - s.start) + 2 * ContextWidth
  {
    Strip(Slice(text, WindowStart(s), s.end + ContextWidth))
  }

  /**
   * Stripping a slice `text[lo..hi]` leaves a slice `text[i..i + |r|]`
   * with only whitespace removed on each side.
   */
  lemma StripSlice(text: string, lo: nat, hi: nat) returns (i: nat)
    requires lo <= hi <= |text|
    ensures lo <= i && i + |Strip(text[lo..hi])| <= hi
    ensures text[i..i + |Strip(text[lo..hi])|] == Strip(text[lo..hi])
    ensures AllSpace(text[lo..i]) && AllSpace(text[i + |Strip(text[lo..hi])|..hi])
    ensures Trimmed(Strip(text[lo..hi]))
  {
    var w := text[lo..hi];
    var a, b := StripSpec(w);
    i := lo + a;
    SubSlices(text, lo, hi, a, b);
  }

  /** The pieces of a slice `text[lo..hi]` are themselves slices of `text`. */
  lemma SubSlices(text: string, lo: nat, hi: nat, a: nat, b: nat)
    requires lo <= hi <= |text| && a <= b <= hi - lo
    ensures text[lo..hi][a..b] == text[lo + a..lo + b]
    ensures text[lo..hi][..a] == text[lo..lo + a]
    ensures text[lo..hi][b..] == text[lo + b..hi]
  {
    assert forall k :: 0 <= k < b - a ==> text[lo..hi][a..b][k] == text[lo + a..lo + b][k];
  }

  /**
   * Dropping only whitespace from both ends of `text[lo..hi]`, down to
   * `text[i..j]`, keeps whole any stretch with no whitespace at its ends.
   */
  lemma KeepsTrimmed(text: string, lo: nat, i: nat, j: nat, hi: nat, x: nat, y: nat)
    requires lo <= i <= j <= hi <= |text|
    requires AllSpace(text[lo..i]) && AllSpace(text[j..hi])
    requires lo <= x < y <= hi && Trimmed(text[x..y])
    ensures i <= x && y <= j
  {
    assert text[x..y][0] == text[x] && text[x..y][y - x - 1] == text[y - 1];
    forall k | lo <= k < i
      ensures IsSpace(text[k])
    {
      assert text[lo..i][k - lo] == text[k];
    }
    forall k | j <= k < hi
      ensures IsSpace(text[k])
    {
      assert text[j..hi][k - j] == text[k];
    }
  }

  /**
   * What a snippet is: the slice `text[i..i + |r|]` of the context window
   * with whitespace only dropped on either side of it, so no longer than
   * the match plus 80 characters each way and with no whitespace at its
   * ends; a match with no whitespace at its own ends lies inside it.
   */
  lemma SnippetPlacement(text: string, s: Span) returns (i: nat)
    requires s.start <= s.end <= |text|
    ensures WindowStart(s) <= i && i + |Snippet(text, s)| <= WindowEnd(text, s) <= |text|
    ensures text[i..i + |Snippet(text, s)|] == Snippet(text, s)
    ensures AllSpace(text[WindowStart(s)..i])
    ensures AllSpace(text[i + |Snippet(text, s)|..WindowEnd(text, s)])
    ensures |Snippet(text, s)| <= (s.end - s.start) + 2 * ContextWidth
    ensures Trimmed(Snippet(text, s))
    ensures s.start < s.end && Trimmed(text[s.start..s.end]) ==>
              i <= s.start && s.end <= i + |Snippet(text, s)|
  {
    var lo, hi := WindowStart(s), WindowEnd(text, s);
    assert lo <= s.start && s.end <= hi <= |text|;
    assert hi - lo <= (s.end - s.start) + 2 * ContextWidth;
    assert Slice(text, lo, s.end + ContextWidth) == text[lo..hi];
    var r := Strip(text[lo..hi]);
    assert Snippet(text, s) == r;
    i := StripSlice(text, lo, hi);
    if s.start < s.end && Trimmed(text[s.start..s.end]) {
      KeepsTrimmed(text, lo, i, i + |r|, hi, s.start, s.end);
    }
  }

  /**
   * The finding recorded for one match: the pattern's kind, `m.group(0)`,
   * which is the text the span covers, and the snippet around it.
   */
  function MakeFinding(text: string, kind: Kind, s: Span): (f: Finding)
    ensures f.kind == kind
    ensures s.start <= s.end <= |text| ==> f.matched == text[s.start..s.end]
  {
    Finding(kind, Slice(text, s.start, s.end), Snippet(text, s))
  }

  /** The findings of one pattern: one per match, in match order. */
  function MatchFindings(text: string, kind: Kind, spans: seq<Span>): (r: seq<Finding>)
    ensures |r| == |spans|
    ensures forall k :: 0 <= k < |spans| ==> r[k] == MakeFinding(text, kind, spans[k])
  {
    if spans == [] then []
    else
      MatchFindings(text, kind, spans[..|spans| - 1]) + [MakeFinding(text, kind, spans[|spans| - 1])]
  }

  lemma MatchFindingsSnoc(text: string, kind: Kind, spans: seq<Span>, j: nat)
    requires j < |spans|
    ensures MatchFindings(text, kind, spans[..j + 1])
              == MatchFindings(text, kind, spans[..j]) + [MakeFinding(text, kind, spans[j])]
  {
    assert spans[..j + 1][..j] == spans[..j];
  }

  /** The number of matches all of `pats` have in `text`. */
  function MatchCount(text: string, pats: seq<Matcher>): nat
  {
    if pats == [] then 0 else MatchCount(text, pats[..|pats| - 1]) + |pats[|pats| - 1](text)|
  }

  /** The findings of a list of patterns of one kind: pattern by pattern, each in match order. */
  function PatternFindings(text: string, kind: Kind, pats: seq<Matcher>): (r: seq<Finding>)
    ensures |r| == MatchCount(text, pats)
    ensures forall k :: 0 <= k < |r| ==> r[k].kind == kind
  {
    if pats == [] then []
    else PatternFindings(text, kind, pats[..|pats| - 1]) + MatchFindings(text, kind, pats[|pats| - 1](text))
  }

  lemma PatternFindingsSnoc(text: string, kind: Kind, pats: seq<Matcher>, i: nat)
    requires i < |pats|
    ensures PatternFindings(text, kind, pats[..i + 1])
              == PatternFindings(text, kind, pats[..i]) + MatchFindings(text, kind, pats[i](text))
  {
    assert pats[..i + 1][..i] == pats[..i];
  }

  /**
   * What `find_offers_in_text` returns: one finding per match of every
   * pattern, all offer findings first, then all countdown findings.
   */
  function Findings(text: string, offers: seq<Matcher>, countdowns: seq<Matcher>): (r: seq<Finding>)
    ensures |r| == MatchCount(text, offers) + MatchCount(text, countdowns)
    ensures forall k :: 0 <= k < |r| ==> (r[k].kind == Offer <==> k < MatchCount(text, offers))
  {
    PatternFindings(text, Offer, offers) + PatternFindings(text, Countdown, countdowns)
  }

  lemma ConcatAssoc<T>(a: seq<T>, b: seq<T>, c: seq<T>)
    ensures (a + b) + c == a + (b + c)
  {
  }

  /**
   * The inner loop of `find_offers_in_text`: for each match of one pattern,
   * in order, append the finding for that match to `found`.
   */
  method AppendMatchFindings(found: seq<Finding>, text: string, kind: Kind, matches: seq<Span>)
    returns (found': seq<Finding>)
    ensures found' == found + MatchFindings(text, kind, matches)
  {
    found' := found;
    for j := 0 to |matches|
      invariant found' == found + MatchFindings(text, kind, matches[..j])
    {
      var m := matches[j];
      var snippet := Snippet(text, m);
      ghost var before := found';
      found' := found' + [Finding(kind, Slice(text, m.start, m.end), snippet)];
      MatchFindingsSnoc(text, kind, matches, j);
      ConcatAssoc(found, MatchFindings(text, kind, matches[..j]), [MakeFinding(text, kind, m)]);
    }
    assert matches[..|matches|] == matches;
  }

  /**
   * One of the two loop nests of `find_offers_in_text`: for each pattern of
   * one kind in declaration order, append the findings of its matches.
   */
  method AppendFindings(found: seq<Finding>, text: string, kind: Kind, pats: seq<Matcher>)
    returns (found': seq<Finding>)
    ensures found' == found + PatternFindings(text, kind, pats)
  {
    found' := found;
    for i := 0 to |pats|
      invariant found' == found + PatternFindings(text, kind, pats[..i])
    {
      ghost var before := found';
      found' := AppendMatchFindings(found', text, kind, pats[i](text));
      PatternFindingsSnoc(text, kind, pats, i);
      ConcatAssoc(found, PatternFindings(text, kind, pats[..i]), MatchFindings(text, kind, pats[i](text)));
    }
    assert pats[..|pats|] == pats;
  }

  /** `find_offers_in_text`: the offer patterns' findings, then the countdown patterns'. */
  method FindOffersInText(text: string, offers: seq<Matcher>, countdowns: seq<Matcher>)
    returns (found: seq<Finding>)
    ensures found == Findings(text, offers, countdowns)
  {
    found := AppendFindings([], text, Offer, offers);
    assert found == PatternFindings(text, Offer, offers);
    found := AppendFindings(found, text, Countdown, countdowns);
  }

  /** Every offer finding comes before every countdown finding. */
  lemma OffersBeforeCountdowns(text: string, offers: seq<Matcher>, countdowns: seq<Matcher>, i: nat, j: nat)
    requires i < j < |Findings(text, offers, countdowns)|
    ensures Findings(text, offers, countdowns)[j].kind == Offer ==> Findings(text, offers, countdowns)[i].kind == Offer
    ensures Findings(text, offers, countdowns)[i].kind == Countdown ==> Findings(text, offers, countdowns)[j].kind == Countdown
  {
  }

  /** Where the findings of pattern `p` start: after all matches of the patterns before it. */
  function Offset(text: string, pats: seq<Matcher>, p: nat): nat
    requires p <= |pats|
  {
    MatchCount(text, pats[..p])
  }

  lemma {:induction false} OffsetStep(text: string, pats: seq<Matcher>, p: nat)
    requires p < |pats|
    ensures Offset(text, pats, p + 1) == Offset(text, pats, p) + |pats[p](text)|
  {
    assert pats[..p + 1][..p] == pats[..p];
  }

  /** Later patterns start at later (or equal) offsets. */
  lemma {:induction false} OffsetMonotone(text: string, pats: seq<Matcher>, p: nat, q: nat)
    requires p <= q <= |pats|
    ensures Offset(text, pats, p) <= Offset(text, pats, q)
  {
    if p < q {
      OffsetMonotone(text, pats, p, q - 1);
      OffsetStep(text, pats, q - 1);
    }
  }

  /** Match `m` of pattern `p` is recorded at index `Offset(p) + m`. */
  lemma {:induction false} FindingAt(text: string, kind: Kind, pats: seq<Matcher>, p: nat, m: nat)
    requires p < |pats| && m < |pats[p](text)|
    ensures Offset(text, pats, p) + m < |PatternFindings(text, kind, pats)|
    ensures PatternFindings(text, kind, pats)[Offset(text, pats, p) + m]
              == MakeFinding(text, kind, pats[p](text)[m])
  {
    var init := pats[..|pats| - 1];
    if p == |pats| - 1 {
      assert pats[..p] == init;
    } else {
      assert init[..p] == pats[..p];
      assert init[p] == pats[p];
      FindingAt(text, kind, init, p, m);
      assert Offset(text, init, p) == Offset(text, pats, p);
    }
  }

  /** Every finding of a kind comes from some match of some pattern of that kind. */
  lemma {:induction false} FindingOrigin(text: string, kind: Kind, pats: seq<Matcher>, i: nat)
    returns (p: nat, m: nat)
    requires i < |PatternFindings(text, kind, pats)|
    ensures p < |pats| && m < |pats[p](text)|
    ensures i == Offset(text, pats, p) + m
    ensures PatternFindings(text, kind, pats)[i] == MakeFinding(text, kind, pats[p](text)[m])
  {
    var init := pats[..|pats| - 1];
    var front := PatternFindings(text, kind, init);
    var last := MatchFindings(text, kind, pats[|pats| - 1](text));
    assert PatternFindings(text, kind, pats) == front + last;
    if i < |front| {
      p, m := FindingOrigin(text, kind, init, i);
      assert init[..p] == pats[..p];
      assert init[p] == pats[p];
      assert (front + last)[i] == front[i];
    } else {
      p, m := |pats| - 1, i - |front|;
      assert pats[..p] == init;
      assert Offset(text, pats, p) == |front|;
      assert (front + last)[i] == last[m];
    }
  }

  /**
   * Each finding of `find_offers_in_text` is a match of one pattern: an
   * offer pattern when its kind is `Offer`, a countdown pattern otherwise;
   * its matched text is exactly `text[start..end]` of that match and its
   * snippet is the context window around it.
   */
  lemma FindingSource(text: string, offers: seq<Matcher>, countdowns: seq<Matcher>, i: nat)
    returns (pats: seq<Matcher>, p: nat, m: nat)
    requires ValidMatchers(text, offers) && ValidMatchers(text, countdowns)
    requires i < |Findings(text, offers, countdowns)|
    ensures pats == if Findings(text, offers, countdowns)[i].kind == Offer then offers else countdowns
    ensures p < |pats| && m < |pats[p](text)|
    ensures pats[p](text)[m].start <= pats[p](text)[m].end <= |text|
    ensures Findings(text, offers, countdowns)[i].matched
              == text[pats[p](text)[m].start..pats[p](text)[m].end]
    ensures Findings(text, offers, countdowns)[i].snippet == Snippet(text, pats[p](text)[m])
  {
    var front := PatternFindings(text, Offer, offers);
    if i < |front| {
      pats := offers;
      p, m := FindingOrigin(text, Offer, offers, i);
    } else {
      pats := countdowns;
      p, m := FindingOrigin(text, Countdown, countdowns, i - |front|);
    }
    assert ValidSpans(pats[p](text), |text|);
  }

  /**
   * Within one kind the findings follow pattern declaration order, and
   * within one pattern the position of the match in the text: of two
   * findings, the earlier one comes from an earlier pattern, or from the
   * same pattern and a match that ends before the later one starts.
   */
  lemma FindingsInOrder(text: string, kind: Kind, pats: seq<Matcher>, i: nat, j: nat)
    returns (p: nat, m: nat, q: nat, n: nat)
    requires ValidMatchers(text, pats) && i < j < |PatternFindings(text, kind, pats)|
    ensures p < |pats| && m < |pats[p](text)| && q < |pats| && n < |pats[q](text)|
    ensures PatternFindings(text, kind, pats)[i] == MakeFinding(text, kind, pats[p](text)[m])
    ensures PatternFindings(text, kind, pats)[j] == MakeFinding(text, kind, pats[q](text)[n])
    ensures p < q || (p == q && m < n && pats[p](text)[m].end <= pats[q](text)[n].start)
  {
    p, m := FindingOrigin(text, kind, pats, i);
    q, n := FindingOrigin(text, kind, pats, j);
    if q < p {
      OffsetStep(text, pats, q);
      OffsetMonotone(text, pats, q + 1, p);
    } else if p < q {
    } else {
      assert ValidSpans(pats[p](text), |text|);
    }
  }

  /** Patterns none of whose matches in `text` is empty. */
  predicate NonEmptyMatches(text: string, pats: seq<Matcher>)
  {
    forall p, k :: 0 <= p < |pats| && 0 <= k < |pats[p](text)| ==> pats[p](text)[k].start < pats[p](text)[k].end
  }

  lemma NoPatternFindingsInEmptyText(kind: Kind, pats: seq<Matcher>)
    requires ValidMatchers("", pats) && NonEmptyMatches("", pats)
    ensures PatternFindings("", kind, pats) == []
  {
    if PatternFindings("", kind, pats) != [] {
      var p, m := FindingOrigin("", kind, pats, 0);
      assert false;
    }
  }

  /**
   * `find_offers_in_text("")` finds nothing when no pattern matches the
   * empty string (none of the bot's patterns does).
   */
  lemma NoFindingsInEmptyText(offers: seq<Matcher>, countdowns: seq<Matcher>)
    requires ValidMatchers("", offers) && ValidMatchers("", countdowns)
    requires NonEmptyMatches("", offers) && NonEmptyMatches("", countdowns)
    ensures Findings("", offers, countdowns) == []
  {
    NoPatternFindingsInEmptyText(Offer, offers);
    NoPatternFindingsInEmptyText(Countdown, countdowns);
  }
}
