/**
 * `compose_message` (main.py): the notification text for one URL. With no
 * findings it is a fixed "no discounts" body; otherwise a header naming the
 * detection method, then the offer block, then the countdown block, each
 * block present only when it has lines, all joined with newlines.
 * The timestamp `now` is a parameter.
 */
module Report {
  import opened Text
  import opened Finder

  /** Snippets are cut to this many characters in the message. */
  const SnippetLimit: nat := 200

  const OfferPrefix := "- Oferta: "
  const CountdownPrefix := "- Tiempo detectado: "
  const SnippetSep := "  \n  snippet: "
  const OffersTitle := "Ofertas encontradas:"
  const CountdownsTitle := "\nTiempos / conteos:"

  /** The body sent when nothing was found. */
  function NoDiscountBody(now: string, url: string): string
  {
    "\U{1F50E} Revisi\U{F3}n: " + now + "\nURL: " + url + "\nNo hay descuentos activos en el banner superior."
  }

  /** The first line of a report with findings. */
  function Header(now: string, url: string, how: string): string
  {
    "\U{1F6A8} Oferta detectada (" + now + ")\nURL: " + url + "\nDetectado por: " + how + "\n"
  }

  /** The line for one finding: its kind's prefix, the match, and the snippet cut to `SnippetLimit`. */
  function FindingLine(f: Finding): (r: string)
    ensures |r| <= |PrefixOf(f.kind)| + |f.matched| + |SnippetSep| + SnippetLimit
  {
    (if f.kind == Offer then OfferPrefix else CountdownPrefix) + f.matched + SnippetSep + Take(f.snippet, SnippetLimit)
  }

  function LinesOf(fs: seq<Finding>): (r: seq<string>)
    ensures |r| == |fs|
    ensures forall k :: 0 <= k < |fs| ==> r[k] == FindingLine(fs[k])
  {
    seq(|fs|, k requires 0 <= k < |fs| => FindingLine(fs[k]))
  }

  /** The findings of one kind, in their original order. */
  function OfKind(fs: seq<Finding>, kind: Kind): (r: seq<Finding>)
    ensures |r| <= |fs|
    ensures forall k :: 0 <= k < |r| ==> r[k].kind == kind
  {
    if fs == [] then []
    else
      var init := OfKind(fs[..|fs| - 1], kind);
      if fs[|fs| - 1].kind == kind then init + [fs[|fs| - 1]] else init
  }

  /** A titled block of lines, left out entirely when it has no lines. */
  function Block(title: string, lines: seq<string>): seq<string>
  {
    if lines == [] then [] else [title] + lines
  }

  /** The lines of a report with findings, before they are joined. */
  function ReportLines(now: string, url: string, how: string, fs: seq<Finding>): seq<string>
  {
    [Header(now, url, how)]
      + Block(OffersTitle, LinesOf(OfKind(fs, Offer)))
      + Block(CountdownsTitle, LinesOf(OfKind(fs, Countdown)))
  }

  /**
   * What `compose_message(url, findings, how)` returns at time `now`: the
   * fixed body when nothing was found, otherwise a text opening with the
   * header that names the detection method.
   */
  function Message(now: string, url: string, how: string, fs: seq<Finding>): (r: string)
    ensures fs == [] ==> r == NoDiscountBody(now, url)
    ensures fs != [] ==> Header(now, url, how) <= r
  {
    if fs == [] then NoDiscountBody(now, url) else Join("\n", ReportLines(now, url, how, fs))
  }

  /**
   * `compose_message`: one pass over the findings sorting their lines into
   * the offer and the countdown list, then the blocks that have lines.
   */
  method ComposeMessage(url: string, findings: seq<Finding>, how: string, now: string) returns (body: string)
    ensures body == Message(now, url, how, findings)
  {
    if findings == [] {
      body := NoDiscountBody(now, url);
      return;
    }
    var lines := [Header(now, url, how)];
    var offerLines: seq<string> := [];
    var countdownLines: seq<string> := [];
    for i := 0 to |findings|
      invariant offerLines == LinesOf(OfKind(findings[..i], Offer))
      invariant countdownLines == LinesOf(OfKind(findings[..i], Countdown))
    {
      var f := findings[i];
      assert findings[..i + 1][..i] == findings[..i];
      if f.kind == Offer {
        offerLines := offerLines + [OfferPrefix + f.matched + SnippetSep + Take(f.snippet, SnippetLimit)];
      } else {
        countdownLines := countdownLines + [CountdownPrefix + f.matched + SnippetSep + Take(f.snippet, SnippetLimit)];
      }
    }
    assert findings[..|findings|] == findings;
    if offerLines != [] {
      lines := lines + [OffersTitle];
      lines := lines + offerLines;
    }
    assert lines == [Header(now, url, how)] + Block(OffersTitle, offerLines);
    if countdownLines != [] {
      lines := lines + [CountdownsTitle];
      lines := lines + countdownLines;
    }
    assert lines == ReportLines(now, url, how, findings);
    body := Join("\n", lines);
  }

  // ---- Splitting findings by kind ----

  lemma {:induction false} OfKindAppend(a: seq<Finding>, b: seq<Finding>, kind: Kind)
    ensures OfKind(a + b, kind) == OfKind(a, kind) + OfKind(b, kind)
  {
    if b == [] {
      assert a + b == a;
    } else {
      var init := b[..|b| - 1];
      OfKindAppend(a, init, kind);
      assert (a + b)[..|a + b| - 1] == a + init;
      ConcatAssoc(OfKind(a, kind), OfKind(init, kind), [b[|b| - 1]]);
    }
  }

  /** A sequence whose findings all have `kind` keeps every one of them. */
  lemma {:induction false} OfKindAll(fs: seq<Finding>, kind: Kind)
    requires forall k :: 0 <= k < |fs| ==> fs[k].kind == kind
    ensures OfKind(fs, kind) == fs
  {
    if fs != [] {
      OfKindAll(fs[..|fs| - 1], kind);
      assert fs[..|fs| - 1] + [fs[|fs| - 1]] == fs;
    }
  }

  /** A sequence with no finding of `kind` keeps none. */
  lemma {:induction false} OfKindNone(fs: seq<Finding>, kind: Kind)
    requires forall k :: 0 <= k < |fs| ==> fs[k].kind != kind
    ensures OfKind(fs, kind) == []
  {
    if fs != [] {
      OfKindNone(fs[..|fs| - 1], kind);
    }
  }

  /** Every finding is either an offer or a countdown, so the two blocks together hold one line per finding. */
  lemma {:induction false} OfKindPartition(fs: seq<Finding>)
    ensures |OfKind(fs, Offer)| + |OfKind(fs, Countdown)| == |fs|
  {
    if fs != [] {
      OfKindPartition(fs[..|fs| - 1]);
    }
  }

  /**
   * Applied to what `find_offers_in_text` returns, the offer block holds
   * exactly the offer patterns' findings and the countdown block exactly the
   * countdown patterns' findings, each in the order they were found.
   */
  lemma BlocksOfFindings(text: string, offers: seq<Matcher>, countdowns: seq<Matcher>)
    ensures OfKind(Findings(text, offers, countdowns), Offer) == PatternFindings(text, Offer, offers)
    ensures OfKind(Findings(text, offers, countdowns), Countdown) == PatternFindings(text, Countdown, countdowns)
  {
    var a := PatternFindings(text, Offer, offers);
    var b := PatternFindings(text, Countdown, countdowns);
    OfKindAppend(a, b, Offer);
    OfKindAppend(a, b, Countdown);
    OfKindAll(a, Offer);
    OfKindNone(b, Offer);
    OfKindNone(a, Countdown);
    OfKindAll(b, Countdown);
    assert a + [] == a;
  }

  // ---- The lines of a report ----

  /** `s.startswith(prefix)`, one character at a time. */
  predicate StartsWith(s: string, prefix: string)
  {
    prefix == [] || (s != [] && s[0] == prefix[0] && StartsWith(s[1..], prefix[1..]))
  }

  lemma {:induction false} StartsWithConcat(prefix: string, rest: string)
    ensures StartsWith(prefix + rest, prefix)
  {
    if prefix != [] {
      assert (prefix + rest)[1..] == prefix[1..] + rest;
      StartsWithConcat(prefix[1..], rest);
    }
  }

  /** The lines that start with `prefix`, in order. */
  function WithPrefix(lines: seq<string>, prefix: string): seq<string>
  {
    if lines == [] then []
    else
      var init := WithPrefix(lines[..|lines| - 1], prefix);
      if StartsWith(lines[|lines| - 1], prefix) then init + [lines[|lines| - 1]] else init
  }

  lemma {:induction false} WithPrefixAppend(a: seq<string>, b: seq<string>, prefix: string)
    ensures WithPrefix(a + b, prefix) == WithPrefix(a, prefix) + WithPrefix(b, prefix)
  {
    if b == [] {
      assert a + b == a;
    } else {
      var init := b[..|b| - 1];
      WithPrefixAppend(a, init, prefix);
      assert (a + b)[..|a + b| - 1] == a + init;
      ConcatAssoc(WithPrefix(a, prefix), WithPrefix(init, prefix), [b[|b| - 1]]);
    }
  }

  lemma {:induction false} WithPrefixAll(lines: seq<string>, prefix: string)
    requires forall k :: 0 <= k < |lines| ==> StartsWith(lines[k], prefix)
    ensures WithPrefix(lines, prefix) == lines
  {
    if lines != [] {
      WithPrefixAll(lines[..|lines| - 1], prefix);
      assert lines[..|lines| - 1] + [lines[|lines| - 1]] == lines;
    }
  }

  lemma {:induction false} WithPrefixNone(lines: seq<string>, prefix: string)
    requires forall k :: 0 <= k < |lines| ==> !StartsWith(lines[k], prefix)
    ensures WithPrefix(lines, prefix) == []
  {
    if lines != [] {
      WithPrefixNone(lines[..|lines| - 1], prefix);
    }
  }

  /** A string whose `k`-th character differs from that of `prefix` does not start with `prefix`. */
  lemma {:induction false} DiffersAt(s: string, prefix: string, k: nat)
    requires k < |prefix| && (k < |s| ==> s[k] != prefix[k])
    ensures !StartsWith(s, prefix)
  {
    if k > 0 && s != [] {
      DiffersAt(s[1..], prefix[1..], k - 1);
    }
  }

  /** The line prefix of each kind of finding. */
  function PrefixOf(kind: Kind): string
  {
    if kind == Offer then OfferPrefix else CountdownPrefix
  }

  function Other(kind: Kind): Kind
  {
    if kind == Offer then Countdown else Offer
  }

  /** The third character tells the two line prefixes apart; every finding line starts with '-'. */
  lemma FindingLineShape(f: Finding)
    ensures StartsWith(FindingLine(f), PrefixOf(f.kind))
    ensures !StartsWith(FindingLine(f), PrefixOf(Other(f.kind)))
    ensures FindingLine(f)[0] == '-'
  {
    var line := FindingLine(f);
    var rest := f.matched + SnippetSep + Take(f.snippet, SnippetLimit);
    if f.kind == Offer {
      assert line == OfferPrefix + rest;
      StartsWithConcat(OfferPrefix, rest);
      assert line[2] == 'O';
      DiffersAt(line, CountdownPrefix, 2);
    } else {
      assert line == CountdownPrefix + rest;
      StartsWithConcat(CountdownPrefix, rest);
      assert line[2] == 'T';
      DiffersAt(line, OfferPrefix, 2);
    }
  }

  /** The header and the two block titles start with neither line prefix and differ in their first character. */
  lemma TitleShapes(now: string, url: string, how: string)
    ensures Header(now, url, how)[0] == '\U{1F6A8}' && OffersTitle[0] == 'O' && CountdownsTitle[0] == '\n'
    ensures !StartsWith(Header(now, url, how), OfferPrefix) && !StartsWith(Header(now, url, how), CountdownPrefix)
    ensures !StartsWith(OffersTitle, OfferPrefix) && !StartsWith(OffersTitle, CountdownPrefix)
    ensures !StartsWith(CountdownsTitle, OfferPrefix) && !StartsWith(CountdownsTitle, CountdownPrefix)
  {
    var h := Header(now, url, how);
    assert h[0] == '\U{1F6A8}';
    DiffersAt(h, OfferPrefix, 0);
    DiffersAt(h, CountdownPrefix, 0);
    DiffersAt(OffersTitle, OfferPrefix, 0);
    DiffersAt(OffersTitle, CountdownPrefix, 0);
    DiffersAt(CountdownsTitle, OfferPrefix, 0);
    DiffersAt(CountdownsTitle, CountdownPrefix, 0);
  }

  lemma LinesOfShape(fs: seq<Finding>, kind: Kind)
    requires forall k :: 0 <= k < |fs| ==> fs[k].kind == kind
    ensures forall k :: 0 <= k < |fs| ==>
              StartsWith(LinesOf(fs)[k], PrefixOf(kind))
              && !StartsWith(LinesOf(fs)[k], PrefixOf(Other(kind)))
              && LinesOf(fs)[k][0] == '-'
  {
    forall k | 0 <= k < |fs|
      ensures StartsWith(LinesOf(fs)[k], PrefixOf(kind))
              && !StartsWith(LinesOf(fs)[k], PrefixOf(Other(kind)))
              && LinesOf(fs)[k][0] == '-'
    {
      FindingLineShape(fs[k]);
    }
  }

  lemma WithPrefixBlock(title: string, lines: seq<string>, prefix: string)
    requires !StartsWith(title, prefix)
    ensures WithPrefix(Block(title, lines), prefix) == WithPrefix(lines, prefix)
  {
    if lines != [] {
      WithPrefixAppend([title], lines, prefix);
      WithPrefixNone([title], prefix);
    }
  }

  /** Filtering the layout of a report keeps only what the two blocks' own lines contribute. */
  lemma WithPrefixLayout(h: string, t1: string, a: seq<string>, t2: string, b: seq<string>, prefix: string)
    requires !StartsWith(h, prefix) && !StartsWith(t1, prefix) && !StartsWith(t2, prefix)
    ensures WithPrefix([h] + Block(t1, a) + Block(t2, b), prefix)
              == WithPrefix(a, prefix) + WithPrefix(b, prefix)
  {
    var ba := Block(t1, a);
    var bb := Block(t2, b);
    WithPrefixAppend([h] + ba, bb, prefix);
    WithPrefixAppend([h], ba, prefix);
    WithPrefixNone([h], prefix);
    WithPrefixBlock(t1, a, prefix);
    WithPrefixBlock(t2, b, prefix);
  }

  /** The lines of a report with the prefix of `kind` are the lines of the findings of `kind`. */
  lemma FilteredLines(now: string, url: string, how: string, fs: seq<Finding>, kind: Kind)
    ensures WithPrefix(ReportLines(now, url, how, fs), PrefixOf(kind)) == LinesOf(OfKind(fs, kind))
  {
    var a := LinesOf(OfKind(fs, Offer));
    var b := LinesOf(OfKind(fs, Countdown));
    var prefix := PrefixOf(kind);
    TitleShapes(now, url, how);
    WithPrefixLayout(Header(now, url, how), OffersTitle, a, CountdownsTitle, b, prefix);
    LinesOfShape(OfKind(fs, Offer), Offer);
    LinesOfShape(OfKind(fs, Countdown), Countdown);
    if kind == Offer {
      WithPrefixAll(a, prefix);
      WithPrefixNone(b, prefix);
      assert a + [] == a;
    } else {
      WithPrefixNone(a, prefix);
      WithPrefixAll(b, prefix);
      assert [] + b == b;
    }
  }

  /**
   * The offer lines of a report: its lines starting with "- Oferta: " are
   * exactly one per offer finding, in findings order, each holding the
   * finding's match and its snippet cut to `SnippetLimit`.
   */
  lemma OfferLinesOfReport(now: string, url: string, how: string, fs: seq<Finding>)
    ensures |WithPrefix(ReportLines(now, url, how, fs), OfferPrefix)| == |OfKind(fs, Offer)|
    ensures forall k :: 0 <= k < |OfKind(fs, Offer)| ==>
              WithPrefix(ReportLines(now, url, how, fs), OfferPrefix)[k]
                == OfferPrefix + OfKind(fs, Offer)[k].matched + SnippetSep + Take(OfKind(fs, Offer)[k].snippet, SnippetLimit)
  {
    FilteredLines(now, url, how, fs, Offer);
  }

  /** The same for countdown findings and the "- Tiempo detectado: " lines. */
  lemma CountdownLinesOfReport(now: string, url: string, how: string, fs: seq<Finding>)
    ensures |WithPrefix(ReportLines(now, url, how, fs), CountdownPrefix)| == |OfKind(fs, Countdown)|
    ensures forall k :: 0 <= k < |OfKind(fs, Countdown)| ==>
              WithPrefix(ReportLines(now, url, how, fs), CountdownPrefix)[k]
                == CountdownPrefix + OfKind(fs, Countdown)[k].matched + SnippetSep + Take(OfKind(fs, Countdown)[k].snippet, SnippetLimit)
  {
    FilteredLines(now, url, how, fs, Countdown);
  }

  /**
   * Line `k` of the layout `[h] + Block(t1, a) + Block(t2, b)` is the
   * header, a block title or a block line, according to where `k` falls.
   */
  lemma LayoutAt(h: string, t1: string, a: seq<string>, t2: string, b: seq<string>, k: nat)
    requires k < |[h] + Block(t1, a) + Block(t2, b)|
    ensures var n := |Block(t1, a)|;
            var line := ([h] + Block(t1, a) + Block(t2, b))[k];
            || (k == 0 && line == h)
            || (k == 1 && a != [] && line == t1)
            || (2 <= k <= n && line == a[k - 2])
            || (k == n + 1 && b != [] && line == t2)
            || (n + 2 <= k && line == b[k - n - 2])
  {
    var lines := [h] + Block(t1, a) + Block(t2, b);
    var ba := Block(t1, a);
    var bb := Block(t2, b);
    if k == 0 {
    } else if k <= |ba| {
      assert lines[k] == ba[k - 1];
    } else {
      assert lines[k] == bb[k - 1 - |ba|];
    }
  }

  /** In the layout, a line with a prefix only the first block uses comes before one with a prefix only the second uses. */
  lemma LayoutOrder(h: string, t1: string, a: seq<string>, t2: string, b: seq<string>,
                    p1: string, p2: string, i: nat, j: nat)
    requires !StartsWith(h, p1) && !StartsWith(t1, p1) && !StartsWith(t2, p1)
    requires !StartsWith(h, p2) && !StartsWith(t1, p2) && !StartsWith(t2, p2)
    requires forall k :: 0 <= k < |b| ==> !StartsWith(b[k], p1)
    requires forall k :: 0 <= k < |a| ==> !StartsWith(a[k], p2)
    requires i < |[h] + Block(t1, a) + Block(t2, b)| && j < |[h] + Block(t1, a) + Block(t2, b)|
    requires StartsWith(([h] + Block(t1, a) + Block(t2, b))[i], p1)
    requires StartsWith(([h] + Block(t1, a) + Block(t2, b))[j], p2)
    ensures i < j
  {
    LayoutAt(h, t1, a, t2, b, i);
    LayoutAt(h, t1, a, t2, b, j);
  }

  /** Every offer line of a report comes before every countdown line. */
  lemma OfferBlockFirst(now: string, url: string, how: string, fs: seq<Finding>, i: nat, j: nat)
    requires i < |ReportLines(now, url, how, fs)| && j < |ReportLines(now, url, how, fs)|
    requires StartsWith(ReportLines(now, url, how, fs)[i], OfferPrefix)
    requires StartsWith(ReportLines(now, url, how, fs)[j], CountdownPrefix)
    ensures i < j
  {
    TitleShapes(now, url, how);
    LinesOfShape(OfKind(fs, Offer), Offer);
    LinesOfShape(OfKind(fs, Countdown), Countdown);
    LayoutOrder(Header(now, url, how), OffersTitle, LinesOf(OfKind(fs, Offer)), CountdownsTitle, LinesOf(OfKind(fs, Countdown)),
                OfferPrefix, CountdownPrefix, i, j);
  }

  /** In the layout, a title that occurs nowhere else is present exactly when its block has lines. */
  lemma LayoutTitles(h: string, t1: string, a: seq<string>, t2: string, b: seq<string>)
    requires h != t1 && h != t2 && t1 != t2
    requires t1 !in a && t1 !in b && t2 !in a && t2 !in b
    ensures t1 in [h] + Block(t1, a) + Block(t2, b) <==> a != []
    ensures t2 in [h] + Block(t1, a) + Block(t2, b) <==> b != []
  {
    var lines := [h] + Block(t1, a) + Block(t2, b);
    if a != [] {
      assert lines[1] == t1;
    }
    if b != [] {
      assert lines[1 + |Block(t1, a)|] == t2;
    }
    if t1 in lines {
      var i :| 0 <= i < |lines| && lines[i] == t1;
      LayoutAt(h, t1, a, t2, b, i);
    }
    if t2 in lines {
      var i :| 0 <= i < |lines| && lines[i] == t2;
      LayoutAt(h, t1, a, t2, b, i);
    }
  }

  /** Each block's title appears exactly when that block has lines. */
  lemma TitlesPresent(now: string, url: string, how: string, fs: seq<Finding>)
    ensures OffersTitle in ReportLines(now, url, how, fs) <==> OfKind(fs, Offer) != []
    ensures CountdownsTitle in ReportLines(now, url, how, fs) <==> OfKind(fs, Countdown) != []
  {
    var a := LinesOf(OfKind(fs, Offer));
    var b := LinesOf(OfKind(fs, Countdown));
    TitleShapes(now, url, how);
    LinesOfShape(OfKind(fs, Offer), Offer);
    LinesOfShape(OfKind(fs, Countdown), Countdown);
    assert OffersTitle !in a && OffersTitle !in b by {
      forall k | 0 <= k < |a| ensures a[k] != OffersTitle { assert a[k][0] != OffersTitle[0]; }
      forall k | 0 <= k < |b| ensures b[k] != OffersTitle { assert b[k][0] != OffersTitle[0]; }
    }
    assert CountdownsTitle !in a && CountdownsTitle !in b by {
      forall k | 0 <= k < |a| ensures a[k] != CountdownsTitle { assert a[k][0] != CountdownsTitle[0]; }
      forall k | 0 <= k < |b| ensures b[k] != CountdownsTitle { assert b[k][0] != CountdownsTitle[0]; }
    }
    assert Header(now, url, how) != OffersTitle && Header(now, url, how) != CountdownsTitle;
    LayoutTitles(Header(now, url, how), OffersTitle, a, CountdownsTitle, b);
  }

  /**
   * The "no discounts" body is sent exactly when there are no findings,
   * and then it does not depend on the method passed in.
   */
  lemma NoDiscountExactlyWhenEmpty(now: string, url: string, how: string, how': string, fs: seq<Finding>)
    ensures Message(now, url, how, fs) == NoDiscountBody(now, url) <==> fs == []
    ensures fs == [] ==> Message(now, url, how, fs) == Message(now, url, how', fs)
  {
    if fs != [] {
      var lines := ReportLines(now, url, how, fs);
      TitleShapes(now, url, how);
      assert lines[0] == Header(now, url, how);
      JoinHead("\n", lines);
      assert NoDiscountBody(now, url)[0] == '\U{1F50E}';
    }
  }
}
