/** detail::find_and_replace of CLI11's StringTools. */
module Replace {
  import opened Wrappers
  import opened StdString

  /**
   * The meaning of find_and_replace, read left to right: where from starts, emit to
   * and go on after the occurrence; elsewhere keep the character and move one on. The
   * emitted text is never searched again.
   */
  function ReplaceAll(s: string, from: string, to: string): (r: string)
    requires |from| > 0
    ensures |to| == |from| ==> |r| == |s|
    ensures |to| > |from| ==> |r| >= |s|
    ensures |to| < |from| ==> |r| <= |s|
    decreases |s|
  {
    if |s| < |from| then s
    else if s[..|from|] == from then to + ReplaceAll(s[|from|..], from, to)
    else [s[0]] + ReplaceAll(s[1..], from, to)
  }

  /** The number of occurrences ReplaceAll replaces. */
  function Replacements(s: string, from: string): nat
    requires |from| > 0
    decreases |s|
  {
    if |s| < |from| then 0
    else if s[..|from|] == from then 1 + Replacements(s[|from|..], from)
    else Replacements(s[1..], from)
  }

  /** Where no occurrence starts at 0, ReplaceAll keeps the first character. */
  lemma KeepFirst(t: string, from: string, to: string)
    requires |from| > 0 && |t| > 0 && !OccursAt(t, from, 0)
    ensures ReplaceAll(t, from, to) == [t[0]] + ReplaceAll(t[1..], from, to)
  {
    if |t| < |from| {
      assert t == [t[0]] + t[1..];
    } else {
      assert t[..|from|] == t[0..|from|];
    }
  }

  /** Where no occurrence starts at p, ReplaceAll keeps the character at p. */
  lemma KeepOne(r: string, from: string, to: string, p: nat)
    requires |from| > 0 && p < |r| && !OccursAt(r, from, p)
    ensures r[..p] + ReplaceAll(r[p..], from, to) == r[..p + 1] + ReplaceAll(r[p + 1..], from, to)
  {
    assert !OccursAt(r[p..], from, 0) by {
      if |from| <= |r| - p {
        assert r[p..][0..|from|] == r[p..p + |from|];
      }
    }
    KeepFirst(r[p..], from, to);
    assert r[p..][1..] == r[p + 1..];
    assert r[..p] + [r[p]] == r[..p + 1];
    Regrouped(r[..p], [r[p]], ReplaceAll(r[p + 1..], from, to));
  }

  lemma Regrouped(a: string, b: string, c: string)
    ensures a + (b + c) == (a + b) + c
  {
  }

  /** Where an occurrence starts at i, ReplaceAll replaces it. */
  lemma ReplaceHere(r: string, from: string, to: string, i: nat)
    requires |from| > 0 && OccursAt(r, from, i)
    ensures r[..i] + ReplaceAll(r[i..], from, to) == r[..i] + to + ReplaceAll(r[i + |from|..], from, to)
  {
    assert r[i..][..|from|] == from;
    assert r[i..][|from|..] == r[i + |from|..];
  }

  /**
   * From position p of r on, up to the occurrence i that find reports from p: the text
   * before i is kept, and the occurrence is replaced.
   */
  lemma {:induction false} ReplaceFrom(r: string, from: string, to: string, p: nat, i: nat)
    requires |from| > 0 && p <= |r|
    requires Find(r, from, p) == Some(i)
    ensures i + |from| <= |r|
    ensures r[..p] + ReplaceAll(r[p..], from, to) == r[..i] + to + ReplaceAll(r[i + |from|..], from, to)
    decreases i - p
  {
    if p == i {
      ReplaceHere(r, from, to, i);
    } else {
      KeepOne(r, from, to, p);
      ReplaceFrom(r, from, to, p + 1, i);
    }
  }

  /** From position p of r on, with no occurrence left to find: the rest is kept. */
  lemma {:induction false} ReplaceNoneFrom(r: string, from: string, to: string, p: nat)
    requires |from| > 0 && p <= |r|
    requires Find(r, from, p) == None
    ensures r[..p] + ReplaceAll(r[p..], from, to) == r
    decreases |r| - p
  {
    if p == |r| {
      assert r[..p] + r[p..] == r;
    } else {
      KeepOne(r, from, to, p);
      ReplaceNoneFrom(r, from, to, p + 1);
    }
  }

  /** ReplaceAll at the first occurrence that find reports. */
  lemma ReplaceAt(s: string, from: string, to: string, i: nat)
    requires |from| > 0 && Find(s, from, 0) == Some(i)
    ensures i + |from| <= |s|
    ensures ReplaceAll(s, from, to) == s[..i] + to + ReplaceAll(s[i + |from|..], from, to)
  {
    ReplaceFrom(s, from, to, 0, i);
    assert s[..0] == "" && s[0..] == s;
  }

  /**
   * find_and_replace(str, from, to) for a non-empty from (an empty from never lets the
   * C++ loop end): str.find from start_pos, replace, advance start_pos past to.
   */
  method FindAndReplace(str: string, from: string, to: string) returns (r: string)
    requires |from| > 0
    ensures r == ReplaceAll(str, from, to)
  {
    r := str;
    var startPos: nat := 0;
    var pos := Find(r, from, startPos);
    assert r[..0] == "" && r[0..] == r;
    while pos.Some?
      invariant startPos <= |r|
      invariant pos == Find(r, from, startPos)
      invariant r[..startPos] + ReplaceAll(r[startPos..], from, to) == ReplaceAll(str, from, to)
      decreases |r| - startPos
    {
      var i := pos.value;
      ReplaceFrom(r, from, to, startPos, i);
      var r' := r[..i] + to + r[i + |from|..];
      assert r'[..i + |to|] == r[..i] + to;
      assert r'[i + |to|..] == r[i + |from|..];
      r := r';
      startPos := i + |to|;
      pos := Find(r, from, startPos);
    }
    ReplaceNoneFrom(r, from, to, startPos);
  }

  /** Where from does not occur, find_and_replace leaves the string as it is. */
  lemma ReplaceAbsent(s: string, from: string, to: string)
    requires |from| > 0
    requires forall j: nat :: !OccursAt(s, from, j)
    ensures ReplaceAll(s, from, to) == s
  {
    ReplaceNoneFrom(s, from, to, 0);
    assert s[..0] == "" && s[0..] == s;
  }

  /** Replacing a pattern by itself changes nothing. */
  lemma {:induction false} ReplaceBySelf(s: string, p: string)
    requires |p| > 0
    ensures ReplaceAll(s, p, p) == s
    decreases |s|
  {
    if |s| >= |p| {
      if s[..|p|] == p {
        ReplaceBySelf(s[|p|..], p);
        assert s == s[..|p|] + s[|p|..];
      } else {
        ReplaceBySelf(s[1..], p);
        assert s == [s[0]] + s[1..];
      }
    }
  }

  /** Each replacement changes the length by |to| - |from|, and how many there are does not depend on to. */
  lemma {:induction false} ReplaceLength(s: string, from: string, to: string)
    requires |from| > 0
    ensures |ReplaceAll(s, from, to)| == |s| + Replacements(s, from) * (|to| - |from|)
    decreases |s|
  {
    if |s| >= |from| {
      if s[..|from|] == from {
        ReplaceLength(s[|from|..], from, to);
        OneMoreReplacement(Replacements(s[|from|..], from), |to| - |from|);
      } else {
        ReplaceLength(s[1..], from, to);
      }
    }
  }

  /** (1 + k) replacements change the length by d more than k do. */
  lemma OneMoreReplacement(k: nat, d: int)
    ensures (1 + k) * d == d + k * d
  {
  }

  /** Replacement text is not searched again: replacing "a" by "aa" in "aa" stops at "aaaa". */
  lemma ReplaceDoesNotRescan()
    ensures ReplaceAll("aa", "a", "aa") == "aaaa"
  {
    assert "aa"[..1] == "a" && "aa"[1..] == "a";
    assert "a"[..1] == "a" && "a"[1..] == "";
  }
}
