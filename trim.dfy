/**
 * What ltrim, rtrim, trim and trim_copy of CLI11's StringTools leave of a string:
 * a filter string names the characters to strip; the whitespace overloads use
 * Ascii.Whitespace as that filter.
 */
module Trim {
  /** Where ltrim stops erasing: the first index whose character is not in filter, or |s|. */
  function FirstKept(s: string, filter: string): (i: nat)
    ensures i <= |s|
    ensures forall k :: 0 <= k < i ==> s[k] in filter
    ensures i < |s| ==> s[i] !in filter
    decreases |s|
  {
    if |s| == 0 || s[0] !in filter then 0 else 1 + FirstKept(s[1..], filter)
  }

  /** Where rtrim starts erasing: one past the last index whose character is not in filter, or 0. */
  function EndKept(s: string, filter: string): (j: nat)
    ensures j <= |s|
    ensures forall k :: j <= k < |s| ==> s[k] in filter
    ensures j > 0 ==> s[j - 1] !in filter
    decreases |s|
  {
    if |s| == 0 || s[|s| - 1] !in filter then |s| else EndKept(s[..|s| - 1], filter)
  }

  function TrimmedLeft(s: string, filter: string): string {
    s[FirstKept(s, filter)..]
  }

  function TrimmedRight(s: string, filter: string): string {
    s[..EndKept(s, filter)]
  }

  /** trim is ltrim applied to the result of rtrim: what is left starts and ends outside filter. */
  function Trimmed(s: string, filter: string): (r: string)
    ensures |r| <= |s|
    ensures |r| > 0 ==> r[0] !in filter && r[|r| - 1] !in filter
  {
    TrimmedLeft(TrimmedRight(s, filter), filter)
  }

  /** FirstKept is pinned down by its two defining facts. */
  lemma FirstKeptUnique(s: string, filter: string, i: nat)
    requires i <= |s|
    requires forall k :: 0 <= k < i ==> s[k] in filter
    requires i < |s| ==> s[i] !in filter
    ensures FirstKept(s, filter) == i
  {
  }

  /** EndKept is pinned down by its two defining facts. */
  lemma EndKeptUnique(s: string, filter: string, j: nat)
    requires j <= |s|
    requires forall k :: j <= k < |s| ==> s[k] in filter
    requires j > 0 ==> s[j - 1] !in filter
    ensures EndKept(s, filter) == j
  {
  }

  /**
   * trim leaves "" when every character is in filter, and otherwise exactly the
   * contiguous run from the first to the last character not in filter.
   */
  lemma TrimmedIsSpan(s: string, filter: string)
    ensures (forall k :: 0 <= k < |s| ==> s[k] in filter) ==> Trimmed(s, filter) == ""
    ensures (exists k :: 0 <= k < |s| && s[k] !in filter) ==>
      var i, j := FirstKept(s, filter), EndKept(s, filter);
      i < j && Trimmed(s, filter) == s[i..j]
  {
    var i, j := FirstKept(s, filter), EndKept(s, filter);
    var r := TrimmedRight(s, filter);
    if exists k :: 0 <= k < |s| && s[k] !in filter {
      var k :| 0 <= k < |s| && s[k] !in filter;
      assert i <= k < j;
      FirstKeptUnique(r, filter, i);
    } else {
      assert j == 0;
    }
  }

  /** Trimming a second time changes nothing. */
  lemma TrimmedIdempotent(s: string, filter: string)
    ensures Trimmed(Trimmed(s, filter), filter) == Trimmed(s, filter)
  {
    var r := Trimmed(s, filter);
    EndKeptUnique(r, filter, |r|);
    assert TrimmedRight(r, filter) == r;
    FirstKeptUnique(r, filter, 0);
  }

  /** Characters of filter in front of a trimmed string are all that trim removes. */
  lemma TrimmedPadding(w: string, t: string, filter: string)
    requires forall k :: 0 <= k < |w| ==> w[k] in filter
    requires |t| > 0 && t[0] !in filter && t[|t| - 1] !in filter
    ensures Trimmed(w + t, filter) == t
  {
    var s := w + t;
    EndKeptUnique(s, filter, |s|);
    assert TrimmedRight(s, filter) == s;
    FirstKeptUnique(s, filter, |w|);
    assert s[|w|..] == t;
  }
}
