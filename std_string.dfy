/**
 * The std::string primitives the string tools rely on: find, find_first_of and
 * find_last_of (npos is None), and the subsequence relation used to state that an
 * operation only ever erases characters.
 */
module StdString {
  import opened Wrappers

  /** The pattern p occurs in s starting at index j. */
  predicate OccursAt(s: string, p: string, j: nat) {
    j + |p| <= |s| && s[j..j + |p|] == p
  }

  /** s.find_first_of(chars, from): the first index at or after from whose character is in chars. */
  function FindFirstOf(s: string, chars: string, from: nat): (r: Option<nat>)
    ensures r.Some? ==> from <= r.value < |s| && s[r.value] in chars
    ensures r.Some? ==> forall k :: from <= k < r.value ==> s[k] !in chars
    ensures r.None? ==> forall k :: from <= k < |s| ==> s[k] !in chars
    decreases |s| - from
  {
    if from >= |s| then None
    else if s[from] in chars then Some(from)
    else FindFirstOf(s, chars, from + 1)
  }

  /** FindFirstOf is pinned down by its defining facts. */
  lemma FindFirstOfIs(s: string, chars: string, from: nat, j: nat)
    requires from <= j < |s| && s[j] in chars
    requires forall k :: from <= k < j ==> s[k] !in chars
    ensures FindFirstOf(s, chars, from) == Some(j)
  {
  }

  lemma FindFirstOfNone(s: string, chars: string, from: nat)
    requires forall k :: from <= k < |s| ==> s[k] !in chars
    ensures FindFirstOf(s, chars, from) == None
  {
  }

  /**
   * s.find_last_of(chars, pos) with end == pos + 1 (or end == |s| for pos == npos):
   * the last index below end whose character is in chars.
   */
  function FindLastOf(s: string, chars: string, end: nat): (r: Option<nat>)
    ensures r.Some? ==> r.value < end && r.value < |s| && s[r.value] in chars
    ensures r.Some? ==> forall k :: r.value < k < end && k < |s| ==> s[k] !in chars
    ensures r.None? ==> forall k :: 0 <= k < end && k < |s| ==> s[k] !in chars
    decreases end
  {
    if end == 0 then None
    else if end - 1 < |s| && s[end - 1] in chars then Some(end - 1)
    else FindLastOf(s, chars, end - 1)
  }

  /** s.find(p, from): the first index at or after from where p occurs. */
  function Find(s: string, p: string, from: nat): (r: Option<nat>)
    ensures r.Some? ==> from <= r.value && OccursAt(s, p, r.value)
    ensures r.Some? ==> forall j :: from <= j < r.value ==> !OccursAt(s, p, j)
    ensures r.None? ==> forall j :: from <= j ==> !OccursAt(s, p, j)
    decreases |s| - from
  {
    if from + |p| > |s| then None
    else if s[from..from + |p|] == p then Some(from)
    else Find(s, p, from + 1)
  }

  /** b with its last character removed, or "" when b is empty (std::string::substr(0, length() - 1), npos wrap included). */
  function DropLast(b: string): (r: string)
    ensures |b| > 0 ==> |r| == |b| - 1 && b == r + [b[|b| - 1]]
    ensures |b| == 0 ==> r == ""
  {
    if |b| == 0 then "" else b[..|b| - 1]
  }

  /** a[..i] is obtained from b[..j] by deleting characters without reordering the rest. */
  predicate EmbedsUpTo(a: string, b: string, i: nat, j: nat)
    requires i <= |a| && j <= |b|
    decreases j
  {
    if j == 0 then i == 0
    else (i > 0 && a[i - 1] == b[j - 1] && EmbedsUpTo(a, b, i - 1, j - 1)) || EmbedsUpTo(a, b, i, j - 1)
  }

  /** a is obtained from b by deleting characters without reordering the rest. */
  predicate IsSubseq(a: string, b: string) {
    EmbedsUpTo(a, b, |a|, |b|)
  }

  /** EmbedsUpTo reads only the first i characters of a and the first j of b. */
  lemma {:induction false} EmbedsFrame(a: string, b: string, a': string, b': string, i: nat, j: nat)
    requires i <= |a| && i <= |a'| && j <= |b| && j <= |b'|
    requires forall k :: 0 <= k < i ==> a[k] == a'[k]
    requires forall k :: 0 <= k < j ==> b[k] == b'[k]
    ensures EmbedsUpTo(a, b, i, j) == EmbedsUpTo(a', b', i, j)
    decreases j
  {
    if j > 0 {
      EmbedsFrame(a, b, a', b', i, j - 1);
      if i > 0 {
        EmbedsFrame(a, b, a', b', i - 1, j - 1);
      }
    }
  }

  lemma {:induction false} EmbedsDiagonal(a: string, i: nat)
    requires i <= |a|
    ensures EmbedsUpTo(a, a, i, i)
  {
    if i > 0 {
      EmbedsDiagonal(a, i - 1);
    }
  }

  lemma {:induction false} EmbedsLength(a: string, b: string, i: nat, j: nat)
    requires i <= |a| && j <= |b| && EmbedsUpTo(a, b, i, j)
    ensures i <= j
    decreases j
  {
    if j > 0 {
      if i > 0 && a[i - 1] == b[j - 1] && EmbedsUpTo(a, b, i - 1, j - 1) {
        EmbedsLength(a, b, i - 1, j - 1);
      } else {
        EmbedsLength(a, b, i, j - 1);
      }
    }
  }

  lemma {:induction false} EmbedsTrans(a: string, b: string, c: string, i: nat, j: nat, k: nat)
    requires i <= |a| && j <= |b| && k <= |c|
    requires EmbedsUpTo(a, b, i, j) && EmbedsUpTo(b, c, j, k)
    ensures EmbedsUpTo(a, c, i, k)
    decreases k
  {
    if k == 0 {
      EmbedsLength(a, b, i, j);
    } else if j > 0 && b[j - 1] == c[k - 1] && EmbedsUpTo(b, c, j - 1, k - 1) {
      if i > 0 && a[i - 1] == b[j - 1] && EmbedsUpTo(a, b, i - 1, j - 1) {
        EmbedsTrans(a, b, c, i - 1, j - 1, k - 1);
      } else {
        EmbedsTrans(a, b, c, i, j - 1, k - 1);
      }
    } else {
      EmbedsTrans(a, b, c, i, j, k - 1);
    }
  }

  lemma {:induction false} EmbedsAppend(a: string, b: string, w: string, m: nat)
    requires IsSubseq(a, b) && m <= |w|
    ensures EmbedsUpTo(a + w, b + w, |a| + m, |b| + m)
  {
    if m == 0 {
      EmbedsFrame(a, b, a + w, b + w, |a|, |b|);
    } else {
      EmbedsAppend(a, b, w, m - 1);
      assert (a + w)[|a| + m - 1] == w[m - 1] == (b + w)[|b| + m - 1];
    }
  }

  lemma {:induction false} EmbedsExtend(a: string, b: string, w: string, m: nat)
    requires IsSubseq(a, b) && m <= |w|
    ensures EmbedsUpTo(a, b + w, |a|, |b| + m)
  {
    if m == 0 {
      EmbedsFrame(a, b, a, b + w, |a|, |b|);
    } else {
      EmbedsExtend(a, b, w, m - 1);
    }
  }

  lemma SubseqRefl(a: string)
    ensures IsSubseq(a, a)
  {
    EmbedsDiagonal(a, |a|);
  }

  lemma SubseqLength(a: string, b: string)
    requires IsSubseq(a, b)
    ensures |a| <= |b|
  {
    EmbedsLength(a, b, |a|, |b|);
  }

  lemma SubseqTrans(a: string, b: string, c: string)
    requires IsSubseq(a, b) && IsSubseq(b, c)
    ensures IsSubseq(a, c)
  {
    EmbedsTrans(a, b, c, |a|, |b|, |c|);
  }

  /** A common suffix keeps the relation. */
  lemma SubseqAppend(a: string, b: string, w: string)
    requires IsSubseq(a, b)
    ensures IsSubseq(a + w, b + w)
  {
    EmbedsAppend(a, b, w, |w|);
  }

  /** Extra characters at the end of the larger side keep the relation. */
  lemma SubseqExtend(a: string, b: string, w: string)
    requires IsSubseq(a, b)
    ensures IsSubseq(a, b + w)
  {
    EmbedsExtend(a, b, w, |w|);
  }

  /** Erasing the range [i, j) of a leaves a subsequence of a. */
  lemma SubseqErase(a: string, i: nat, j: nat)
    requires i <= j <= |a|
    ensures IsSubseq(a[..i] + a[j..], a)
  {
    SubseqRefl(a[..i]);
    SubseqExtend(a[..i], a[..i], a[i..j]);
    assert a[..i] + a[i..j] == a[..j];
    SubseqAppend(a[..i], a[..j], a[j..]);
    assert a[..j] + a[j..] == a;
  }

  /** SubseqErase for a string r known to be the erased one. */
  lemma SubseqEraseAs(a: string, i: nat, j: nat, r: string)
    requires i <= j <= |a| && r == a[..i] + a[j..]
    ensures IsSubseq(r, a)
  {
    SubseqErase(a, i, j);
  }

  /** SubseqRefl for a string r known to equal a. */
  lemma SubseqReflAs(a: string, r: string)
    requires r == a
    ensures IsSubseq(r, a)
  {
    SubseqRefl(a);
  }

  /** Removing the last character of the smaller side keeps the relation. */
  lemma SubseqDropLast(a: string, b: string)
    requires IsSubseq(a, b)
    ensures IsSubseq(DropLast(a), b)
  {
    if |a| > 0 {
      SubseqRefl(DropLast(a));
      SubseqExtend(DropLast(a), DropLast(a), [a[|a| - 1]]);
      SubseqTrans(DropLast(a), a, b);
    }
  }
}
