/**
 * The step `scrape_requests` and `scrape_playwright` (main.py) share once
 * they have collected their text fragments: drop the empty fragments, join
 * the rest with single spaces and lowercase the result.
 */
module Scrape {
  import opened Text

  /** The fragments that are not empty, in their original order (`filter(None, parts)`). */
  function NonEmpty(parts: seq<string>): (r: seq<string>)
    ensures forall k :: 0 <= k < |r| ==> r[k] != ""
    ensures r == [] <==> forall k :: 0 <= k < |parts| ==> parts[k] == ""
    ensures |r| <= |parts|
  {
    if parts == [] then []
    else
      var init := NonEmpty(parts[..|parts| - 1]);
      var last := parts[|parts| - 1];
      assert forall k :: 0 <= k < |parts| - 1 ==> parts[..|parts| - 1][k] == parts[k];
      if last == "" then init else init + [last]
  }

  /** A single fragment is kept exactly when it is not empty. */
  lemma NonEmptyOne(x: string)
    ensures NonEmpty([x]) == if x == "" then [] else [x]
  {
    assert [x][..0] == [];
  }

  /**
   * The filter works fragment by fragment: filtering a concatenation is
   * concatenating the filtered pieces, so with `NonEmptyOne` the result is
   * exactly the non-empty fragments in their original order.
   */
  lemma {:induction false} NonEmptyAppend(a: seq<string>, b: seq<string>)
    ensures NonEmpty(a + b) == NonEmpty(a) + NonEmpty(b)
  {
    if b == [] {
      assert a + b == a;
    } else {
      var init := b[..|b| - 1];
      NonEmptyAppend(a, init);
      assert (a + b)[..|a + b| - 1] == a + init;
      assert (a + b)[|a + b| - 1] == b[|b| - 1];
    }
  }

  /**
   * `" ".join(filter(None, parts)).lower()`: empty exactly when every
   * fragment is empty, and never holding an upper-case ASCII letter.
   */
  function CombineFragments(parts: seq<string>): (r: string)
    ensures r == "" <==> forall k :: 0 <= k < |parts| ==> parts[k] == ""
    ensures NoUpper(r)
  {
    var kept := NonEmpty(parts);
    JoinEmpty(" ", kept);
    LowerIsLower(Join(" ", kept));
    Lower(Join(" ", kept))
  }

  /**
   * Combining is a left fold: an empty fragment changes nothing, the first
   * non-empty fragment becomes the text, and every later one is added
   * after exactly one space, lowercased.
   */
  lemma CombineSnoc(parts: seq<string>, p: string)
    ensures CombineFragments(parts + [p]) ==
              if p == "" then CombineFragments(parts)
              else if CombineFragments(parts) == "" then Lower(p)
              else CombineFragments(parts) + " " + Lower(p)
  {
    var kept := NonEmpty(parts);
    assert (parts + [p])[..|parts|] == parts;
    assert NonEmpty(parts + [p]) == if p == "" then kept else kept + [p];
    JoinEmpty(" ", kept);
    if p != "" {
      if kept == [] {
        assert kept + [p] == [p];
      } else {
        LowerJoinSnoc(kept, p);
      }
    }
  }

  /** Lowering a space-join with one more part appends a space and that part, lowered. */
  lemma LowerJoinSnoc(kept: seq<string>, p: string)
    requires kept != []
    ensures Lower(Join(" ", kept + [p])) == Lower(Join(" ", kept)) + " " + Lower(p)
  {
    JoinSnoc(" ", kept, p);
    LowerConcat(Join(" ", kept) + " ", p);
    LowerConcat(Join(" ", kept), " ");
  }

  /** Lowercasing the joined text is lowercasing each kept fragment and joining those. */
  lemma CombineLowersEachFragment(parts: seq<string>)
    ensures CombineFragments(parts) == Join(" ", LowerAll(NonEmpty(parts)))
  {
    LowerJoin(" ", NonEmpty(parts));
  }
}
