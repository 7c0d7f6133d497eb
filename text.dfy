/**
 * The few Python string operations the bot relies on: `str.strip()`,
 * `str.lower()` (ASCII letters only), `sep.join(parts)` and the slice `s[:n]`.
 */
module Text {

  /** Python's `str.isspace()` for one character: the characters `strip()` removes. */
  predicate IsSpace(c: char)
  {
    || c == ' '
    || ('\t' <= c <= '\r')
    || ('\U{1C}' <= c <= '\U{1F}')
    || c == '\U{85}' || c == '\U{A0}' || c == '\U{1680}'
    || ('\U{2000}' <= c <= '\U{200A}')
    || c == '\U{2028}' || c == '\U{2029}' || c == '\U{202F}' || c == '\U{205F}' || c == '\U{3000}'
  }

  predicate AllSpace(s: string)
  {
    forall k :: 0 <= k < |s| ==> IsSpace(s[k])
  }

  /** A string that `strip()` leaves alone: empty, or no whitespace at either end. */
  predicate Trimmed(s: string)
  {
    s == [] || (!IsSpace(s[0]) && !IsSpace(s[|s| - 1]))
  }

  /** Python's `s.lstrip()`: `s` without its leading whitespace. */
  function StripLeft(s: string): string
  {
    if s != [] && IsSpace(s[0]) then StripLeft(s[1..]) else s
  }

  /** Python's `s.rstrip()`: `s` without its trailing whitespace. */
  function StripRight(s: string): string
  {
    if s != [] && IsSpace(s[|s| - 1]) then StripRight(s[..|s| - 1]) else s
  }

  /** Python's `s.strip()`: never longer than `s`, with no whitespace at either end. */
  function Strip(s: string): (r: string)
    ensures |r| <= |s|
    ensures Trimmed(r)
  {
    var t := StripLeft(s);
    assert |StripRight(t)| <= |s| && Trimmed(StripRight(t)) by {
      var i := StripLeftSpec(s);
      var j := StripRightSpec(t);
      if 0 < j {
        assert t[..j][0] == s[i];
      }
    }
    StripRight(t)
  }

  /** `lstrip` removes a run of whitespace from the front and stops at the first other character. */
  lemma {:induction false} StripLeftSpec(s: string) returns (i: nat)
    ensures i <= |s| && StripLeft(s) == s[i..]
    ensures AllSpace(s[..i])
    ensures i < |s| ==> !IsSpace(s[i])
  {
    if s != [] && IsSpace(s[0]) {
      var i' := StripLeftSpec(s[1..]);
      i := i' + 1;
      assert s[1..][i'..] == s[i..];
      assert s[..i] == [s[0]] + s[1..][..i'];
    } else {
      i := 0;
    }
  }

  /** `rstrip` removes a run of whitespace from the back and stops at the last other character. */
  lemma {:induction false} StripRightSpec(s: string) returns (j: nat)
    ensures j <= |s| && StripRight(s) == s[..j]
    ensures AllSpace(s[j..])
    ensures 0 < j ==> !IsSpace(s[j - 1])
  {
    if s != [] && IsSpace(s[|s| - 1]) {
      var init := s[..|s| - 1];
      j := StripRightSpec(init);
      assert init[..j] == s[..j];
      assert s[j..] == init[j..] + [s[|s| - 1]];
    } else {
      j := |s|;
    }
  }

  /**
   * `s.strip()` is the slice `s[i..j]` between a whitespace prefix and a
   * whitespace suffix, with no whitespace at either of its own ends; it is
   * empty exactly when `s` is all whitespace.
   */
  lemma StripSpec(s: string) returns (i: nat, j: nat)
    ensures i <= j <= |s| && Strip(s) == s[i..j]
    ensures AllSpace(s[..i]) && AllSpace(s[j..])
    ensures Trimmed(Strip(s))
    ensures Strip(s) == [] <==> AllSpace(s)
  {
    i := StripLeftSpec(s);
    var t := s[i..];
    var j' := StripRightSpec(t);
    j := i + j';
    assert t[..j'] == s[i..j];
    assert t[j'..] == s[j..];
    if i < j {
      assert s[i] == t[0];
      assert s[j - 1] == t[j' - 1];
    } else {
      assert s == s[..i] + s[j..];
    }
  }

  /**
   * `strip()` is characterised by what it removes: whatever whitespace `p`
   * and `q` surround a trimmed `r` with, stripping gives back `r`.
   */
  lemma StripRemovesPadding(p: string, r: string, q: string)
    requires AllSpace(p) && AllSpace(q) && Trimmed(r)
    ensures Strip(p + r + q) == r
  {
    var s := p + r + q;
    var i, j := StripSpec(s);
    if r == [] {
      assert AllSpace(s) by {
        forall k | 0 <= k < |s| ensures IsSpace(s[k]) {
          if k < |p| { assert s[k] == p[k]; } else { assert s[k] == q[k - |p|]; }
        }
      }
    } else {
      assert s[|p|] == r[0];
      assert s[|p| + |r| - 1] == r[|r| - 1];
      assert forall k :: 0 <= k < |p| ==> s[k] == p[k];
      assert forall k :: |p| + |r| <= k < |s| ==> s[k] == q[k - |p| - |r|];
      assert i == |p|;
      assert j == |p| + |r|;
      assert s[i..j] == r;
    }
  }

  /** Stripping twice removes nothing more. */
  lemma StripIdempotent(s: string)
    ensures Strip(Strip(s)) == Strip(s)
  {
    var _, _ := StripSpec(s);
    StripRemovesPadding([], Strip(s), []);
    assert [] + Strip(s) + [] == Strip(s);
  }

  /** ASCII lowercasing of one character. */
  function LowerChar(c: char): char
  {
    if 'A' <= c <= 'Z' then (c as int + 32) as char else c
  }

  predicate NoUpper(s: string)
  {
    forall k :: 0 <= k < |s| ==> !('A' <= s[k] <= 'Z')
  }

  /** `s.lower()`, restricted to ASCII letters: same length, each character lowered. */
  function Lower(s: string): (r: string)
    ensures |r| == |s|
    ensures forall k :: 0 <= k < |s| ==> r[k] == LowerChar(s[k])
  {
    if s == [] then [] else [LowerChar(s[0])] + Lower(s[1..])
  }

  /** A lowered string has no upper-case letter, so lowering it again changes nothing. */
  lemma LowerIsLower(s: string)
    ensures NoUpper(Lower(s))
    ensures Lower(Lower(s)) == Lower(s)
  {
  }

  lemma LowerConcat(a: string, b: string)
    ensures Lower(a + b) == Lower(a) + Lower(b)
  {
    assert forall k :: 0 <= k < |a + b| ==> Lower(a + b)[k] == (Lower(a) + Lower(b))[k];
  }

  /**
   * Python's `sep.join(parts)`: the parts in order with `sep` between
   * neighbours, so it starts with the first part and ends with the last.
   */
  function Join(sep: string, parts: seq<string>): (r: string)
    ensures parts == [] ==> r == ""
    ensures |parts| == 1 ==> r == parts[0]
    ensures parts != [] ==> parts[0] <= r
    ensures parts != [] ==> |parts[|parts| - 1]| <= |r| && r[|r| - |parts[|parts| - 1]|..] == parts[|parts| - 1]
  {
    if |parts| == 0 then ""
    else if |parts| == 1 then parts[0]
    else Join(sep, parts[..|parts| - 1]) + sep + parts[|parts| - 1]
  }

  /** Joining one more part appends the separator and that part. */
  lemma JoinSnoc(sep: string, parts: seq<string>, p: string)
    requires parts != []
    ensures Join(sep, parts + [p]) == Join(sep, parts) + sep + p
  {
    assert (parts + [p])[..|parts|] == parts;
  }

  /** With a non-empty first part, the joined text starts with that part's first character. */
  lemma {:induction false} JoinHead(sep: string, parts: seq<string>)
    requires parts != [] && parts[0] != ""
    ensures Join(sep, parts) != "" && Join(sep, parts)[0] == parts[0][0]
  {
    if |parts| > 1 {
      var init := parts[..|parts| - 1];
      JoinHead(sep, init);
    }
  }

  /** With no empty part, the join is empty exactly when there is nothing to join. */
  lemma JoinEmpty(sep: string, parts: seq<string>)
    requires forall k :: 0 <= k < |parts| ==> parts[k] != ""
    ensures Join(sep, parts) == "" <==> parts == []
  {
  }

  /** Lowering distributes over a join whose separator has no upper-case letter. */
  lemma {:induction false} LowerJoin(sep: string, parts: seq<string>)
    requires NoUpper(sep)
    ensures Lower(Join(sep, parts)) == Join(sep, LowerAll(parts))
  {
    if |parts| > 1 {
      var init := parts[..|parts| - 1];
      LowerJoin(sep, init);
      assert LowerAll(parts)[..|parts| - 1] == LowerAll(init);
      LowerConcat(Join(sep, init) + sep, parts[|parts| - 1]);
      LowerConcat(Join(sep, init), sep);
      assert Lower(sep) == sep;
    }
  }

  function LowerAll(parts: seq<string>): (r: seq<string>)
    ensures |r| == |parts|
    ensures forall k :: 0 <= k < |parts| ==> r[k] == Lower(parts[k])
  {
    seq(|parts|, k requires 0 <= k < |parts| => Lower(parts[k]))
  }

  /**
   * Python's `s[a:b]` for `a, b >= 0`: both ends are clamped to the length
   * of `s`, and an empty slice results when `a` is not before `b`.
   */
  function Slice(s: string, a: nat, b: nat): (r: string)
    ensures a <= b <= |s| ==> r == s[a..b]
    ensures a <= |s| < b ==> r == s[a..]
    ensures |s| <= a || b <= a ==> r == []
  {
    var hi := if b < |s| then b else |s|;
    if a < hi then s[a..hi] else []
  }

  /** Python's `s[:n]` for `n >= 0`: the first `n` characters, or all of `s` when it is shorter. */
  function Take(s: string, n: nat): (r: string)
    ensures |r| == if |s| < n then |s| else n
    ensures r == s[..|r|]
  {
    if |s| < n then s else s[..n]
  }
}
