/**
 * Flag-default handling of CLI11's StringTools: has_default_flag_values and what
 * remove_default_flag_values leaves of a flag definition string.
 */
module FlagValues {
  import opened Wrappers
  import opened StdString
  import opened Names

  /** has_default_flag_values: the definition holds a '{' or a '!'. */
  function HasDefaultFlagValues(flags: string): (r: bool)
    ensures r <==> ('{' in flags || '!' in flags)
  {
    FindFirstOf(flags, "{!", 0).Some?
  }

  /**
   * One pass of the brace loop at the '{' at l: erase from it through the next '}',
   * unless a ',' comes first or no '}' follows.
   */
  function ErasedGroup(flags: string, l: nat): (r: string)
    requires l < |flags|
    ensures |r| <= |flags|
    ensures l <= |r| && r[..l] == flags[..l]
  {
    var finish := FindFirstOf(flags, "},", l + 1);
    if finish.Some? && flags[finish.value] == '}' then flags[..l] + flags[finish.value + 1..] else flags
  }

  /**
   * The brace loop of remove_default_flag_values, from the '{' at loc on: erase that
   * group, then look for the next '{' one past loc (in the string as it now is).
   */
  function ErasedBraces(flags: string, loc: Option<nat>): (r: string)
    requires loc.Some? ==> loc.value < |flags|
    ensures |r| <= |flags|
    decreases if loc.Some? then |flags| - loc.value else 0
  {
    match loc
    case None => flags
    case Some(l) =>
      var next := ErasedGroup(flags, l);
      ErasedBraces(next, FindFirstOf(next, "{", l + 1))
  }

  /** One turn of the brace loop: ErasedBraces goes on from the next '{' in the string as erased, which is no longer. */
  lemma ErasedBracesStep(flags: string, l: nat)
    requires l < |flags|
    ensures |ErasedGroup(flags, l)| <= |flags|
    ensures ErasedBraces(flags, Some(l))
         == ErasedBraces(ErasedGroup(flags, l), FindFirstOf(ErasedGroup(flags, l), "{", l + 1))
  {
  }

  /** What remove_default_flag_values leaves: the brace groups erased, then every '!' removed. */
  function RemovedDefaults(flags: string): (r: string)
    ensures '!' !in r
    ensures |r| <= |flags|
  {
    var erased := ErasedBraces(flags, FindFirstOf(flags, "{", 0));
    SubseqLength(RemoveChar(erased, '!'), erased);
    RemoveChar(erased, '!')
  }

  /** Erasing one group leaves a subsequence. */
  lemma ErasedGroupOnlyErases(flags: string, l: nat)
    requires l < |flags|
    ensures IsSubseq(ErasedGroup(flags, l), flags)
  {
    var finish := FindFirstOf(flags, "},", l + 1);
    if finish.Some? && flags[finish.value] == '}' {
      SubseqEraseAs(flags, l, finish.value + 1, ErasedGroup(flags, l));
    } else {
      SubseqReflAs(flags, ErasedGroup(flags, l));
    }
  }

  /** The brace loop only erases characters. */
  lemma {:induction false} ErasedBracesOnlyErases(flags: string, loc: Option<nat>)
    requires loc.Some? ==> loc.value < |flags|
    ensures IsSubseq(ErasedBraces(flags, loc), flags)
    decreases if loc.Some? then |flags| - loc.value else 0
  {
    match loc
    case None =>
      SubseqRefl(flags);
    case Some(l) =>
      var next := ErasedGroup(flags, l);
      ErasedBracesOnlyErases(next, FindFirstOf(next, "{", l + 1));
      ErasedGroupOnlyErases(flags, l);
      SubseqTrans(ErasedBraces(flags, loc), next, flags);
  }

  /** remove_default_flag_values only erases characters, and no '!' survives it. */
  lemma RemovedDefaultsOnlyErases(flags: string)
    ensures IsSubseq(RemovedDefaults(flags), flags)
    ensures '!' !in RemovedDefaults(flags)
  {
    var e := ErasedBraces(flags, FindFirstOf(flags, "{", 0));
    ErasedBracesOnlyErases(flags, FindFirstOf(flags, "{", 0));
    SubseqTrans(RemovedDefaults(flags), e, flags);
  }

  lemma {:induction false} RemoveCharAbsent(s: string, c: char)
    requires c !in s
    ensures RemoveChar(s, c) == s
    decreases |s|
  {
    if |s| > 0 {
      RemoveCharAbsent(s[..|s| - 1], c);
      assert s == s[..|s| - 1] + [s[|s| - 1]];
    }
  }

  /** A definition with neither '{' nor '!' comes out unchanged. */
  lemma PlainFlagsUnchanged(flags: string)
    requires !HasDefaultFlagValues(flags)
    ensures RemovedDefaults(flags) == flags
  {
    RemoveCharAbsent(flags, '!');
  }

  lemma GroupOpensAt(pre: string, value: string, post: string)
    requires '{' !in pre
    ensures FindFirstOf(pre + "{" + value + "}" + post, "{", 0) == Some(|pre|)
  {
    var flags := pre + "{" + value + "}" + post;
    assert flags[|pre|] == '{';
    forall k | 0 <= k < |pre| ensures flags[k] !in "{" {
      assert flags[k] == pre[k];
    }
    FindFirstOfIs(flags, "{", 0, |pre|);
  }

  lemma GroupClosesAt(pre: string, value: string, post: string)
    requires '}' !in value && ',' !in value
    ensures FindFirstOf(pre + "{" + value + "}" + post, "},", |pre| + 1) == Some(|pre| + 1 + |value|)
  {
    var flags := pre + "{" + value + "}" + post;
    var l, f := |pre|, |pre| + 1 + |value|;
    assert flags[f] == '}';
    forall k | l + 1 <= k < f ensures flags[k] !in "}," {
      assert flags[k] == value[k - l - 1];
    }
    FindFirstOfIs(flags, "},", l + 1, f);
  }

  lemma NoBraceAfterGroup(pre: string, post: string)
    requires '{' !in post
    ensures FindFirstOf(pre + post, "{", |pre| + 1) == None
  {
    var next := pre + post;
    assert forall k :: |pre| + 1 <= k < |next| ==> next[k] == post[k - |pre|];
    FindFirstOfNone(next, "{", |pre| + 1);
  }

  /**
   * A single default group "{value}" (no '}' or ',' inside) is erased whole; what is
   * around it keeps everything but its '!' characters.
   */
  lemma OneDefaultGroupErased(pre: string, value: string, post: string)
    requires '{' !in pre && '{' !in post
    requires '}' !in value && ',' !in value
    ensures RemovedDefaults(pre + "{" + value + "}" + post) == RemoveChar(pre + post, '!')
  {
    var flags := pre + "{" + value + "}" + post;
    GroupOpensAt(pre, value, post);
    GroupErased(pre, value, post);
    NoBraceAfterGroup(pre, post);
    assert ErasedBraces(flags, Some(|pre|)) == ErasedBraces(pre + post, None);
  }

  /** The group "{value}" after pre is erased by one pass of the brace loop. */
  lemma GroupErased(pre: string, value: string, post: string)
    requires '}' !in value && ',' !in value
    ensures ErasedGroup(pre + "{" + value + "}" + post, |pre|) == pre + post
  {
    var flags := pre + "{" + value + "}" + post;
    var f := |pre| + 1 + |value|;
    GroupClosesAt(pre, value, post);
    assert flags[..|pre|] == pre;
    assert flags[f + 1..] == post;
  }

  /** The brace loop at the group "{value}" after pre erases it and goes on one past pre. */
  lemma GroupErasedThenResumes(pre: string, value: string, rest: string)
    requires '}' !in value && ',' !in value
    ensures ErasedBraces(pre + "{" + value + "}" + rest, Some(|pre|))
         == ErasedBraces(pre + rest, FindFirstOf(pre + rest, "{", |pre| + 1))
  {
    ErasedBracesStep(pre + "{" + value + "}" + rest, |pre|);
    GroupErased(pre, value, rest);
  }

  lemma ConcatAssoc(a: string, b: string, c: string, d: string, e: string)
    ensures a + (b + c + d + e) == a + b + c + d + e
  {
  }

  lemma ConcatAssoc6(a: string, b: string, c: string, d: string, e: string, f: string)
    ensures a + (b + c + d + e + f) == a + b + c + d + e + f
  {
  }

  /** The next '{' after the text between two groups: the loop resumes one past the erased group. */
  lemma GroupOpensAfter(pre: string, between: string, value: string, post: string)
    requires '{' !in between && |between| > 0
    ensures FindFirstOf(pre + between + "{" + value + "}" + post, "{", |pre| + 1) == Some(|pre + between|)
  {
    var flags := pre + between + "{" + value + "}" + post;
    assert flags[|pre| + |between|] == '{';
    forall k | |pre| + 1 <= k < |pre| + |between| ensures flags[k] !in "{" {
      assert flags[k] == between[k - |pre|];
    }
    FindFirstOfIs(flags, "{", |pre| + 1, |pre| + |between|);
  }

  /**
   * Two default groups with text between them, as in "-a{x},-b{y}", are both erased by
   * the brace loop: after the first erasure the search resumes one past it, inside the
   * text between.
   */
  lemma SeparatedGroupsErased(pre: string, v: string, between: string, w: string, post: string)
    requires '{' !in between && '{' !in post && |between| > 0
    requires '}' !in v && ',' !in v && '}' !in w && ',' !in w
    ensures ErasedBraces(pre + "{" + v + "}" + (between + "{" + w + "}" + post), Some(|pre|))
         == pre + between + post
  {
    FirstOfSeparatedGroups(pre, v, between, w, post);
    LastGroupErased(pre + between, w, post);
  }

  /** The first of two separated groups goes, and the loop moves on to the second. */
  lemma FirstOfSeparatedGroups(pre: string, v: string, between: string, w: string, post: string)
    requires '{' !in between && |between| > 0
    requires '}' !in v && ',' !in v
    ensures ErasedBraces(pre + "{" + v + "}" + (between + "{" + w + "}" + post), Some(|pre|))
         == ErasedBraces(pre + between + "{" + w + "}" + post, Some(|pre + between|))
  {
    GroupErasedThenResumes(pre, v, between + "{" + w + "}" + post);
    ConcatAssoc6(pre, between, "{", w, "}", post);
    GroupOpensAfter(pre, between, w, post);
  }

  /** A group with no '{' after it is the last one the loop erases. */
  lemma LastGroupErased(pre: string, value: string, post: string)
    requires '{' !in post
    requires '}' !in value && ',' !in value
    ensures ErasedBraces(pre + "{" + value + "}" + post, Some(|pre|)) == pre + post
  {
    GroupErasedThenResumes(pre, value, post);
    NoBraceAfterGroup(pre, post);
  }

  /**
   * remove_default_flag_values on two groups with text between them, as in
   * "-a{x},-b{y}": both groups go, and the rest loses only its '!' characters.
   */
  lemma SeparatedDefaults(pre: string, v: string, between: string, w: string, post: string)
    requires '{' !in pre && '{' !in between && '{' !in post && |between| > 0
    requires '}' !in v && ',' !in v && '}' !in w && ',' !in w
    ensures RemovedDefaults(pre + "{" + v + "}" + (between + "{" + w + "}" + post))
         == RemoveChar(pre + between + post, '!')
  {
    GroupOpensAt(pre, v, between + "{" + w + "}" + post);
    SeparatedGroupsErased(pre, v, between, w, post);
  }

  /** "-a{x},-b{y}", with any option letters and values, becomes "-a,-b". */
  lemma CommaSeparatedDefaults(a: char, x: char, b: char, y: char)
    requires a !in "{}!" && b !in "{}!" && x !in "},!" && y !in "},!"
    ensures RemovedDefaults(['-', a, '{', x, '}', ',', '-', b, '{', y, '}']) == ['-', a, ',', '-', b]
  {
    CommaShape(a, x, b, y);
    SeparatedDefaults(['-', a], [x], [',', '-', b], [y], "");
    RemoveCharAbsent(['-', a, ',', '-', b], '!');
  }

  lemma CommaShape(a: char, x: char, b: char, y: char)
    ensures ['-', a, '{', x, '}', ',', '-', b, '{', y, '}']
         == ['-', a] + "{" + [x] + "}" + ([',', '-', b] + "{" + [y] + "}" + "")
    ensures ['-', a] + [',', '-', b] + "" == ['-', a, ',', '-', b]
  {
  }

  /**
   * Of two adjacent default groups the brace loop erases only the first: the search for
   * the next '{' resumes one past where the first group began, and the second group's
   * '{' now stands exactly there.
   */
  lemma AdjacentGroupsKeepSecond(pre: string, v: string, w: string, post: string)
    requires '{' !in w && '{' !in post
    requires '}' !in v && ',' !in v
    ensures ErasedBraces(pre + "{" + v + "}" + ("{" + w + "}" + post), Some(|pre|))
         == pre + "{" + w + "}" + post
  {
    var rest := "{" + w + "}" + post;
    GroupErasedThenResumes(pre, v, rest);
    ConcatAssoc(pre, "{", w, "}", post);
    NoBraceAfterOpener(pre, w, post);
  }

  /** Past the '{' right after pre, no '{' is left when w and post hold none. */
  lemma NoBraceAfterOpener(pre: string, w: string, post: string)
    requires '{' !in w && '{' !in post
    ensures FindFirstOf(pre + "{" + w + "}" + post, "{", |pre| + 1) == None
  {
    var s := pre + "{" + w + "}" + post;
    forall k | |pre| + 1 <= k < |s| ensures s[k] !in "{" {
      if k < |pre| + 1 + |w| {
        assert s[k] == w[k - |pre| - 1];
      } else if k > |pre| + 1 + |w| {
        assert s[k] == post[k - |pre| - 2 - |w|];
      }
    }
    FindFirstOfNone(s, "{", |pre| + 1);
  }

  /** remove_default_flag_values on two adjacent groups keeps the second group. */
  lemma AdjacentDefaults(pre: string, v: string, w: string, post: string)
    requires '{' !in pre && '{' !in w && '{' !in post
    requires '}' !in v && ',' !in v
    ensures RemovedDefaults(pre + "{" + v + "}" + ("{" + w + "}" + post))
         == RemoveChar(pre + "{" + w + "}" + post, '!')
  {
    GroupOpensAt(pre, v, "{" + w + "}" + post);
    AdjacentGroupsKeepSecond(pre, v, w, post);
  }

  /** "{a}{b}", with any values, becomes "{b}". */
  lemma AdjacentGroupsExample(a: char, b: char)
    requires a !in "},!" && b !in "{}!"
    ensures RemovedDefaults(['{', a, '}', '{', b, '}']) == ['{', b, '}']
  {
    assert ['{', a, '}', '{', b, '}'] == "" + "{" + [a] + "}" + ("{" + [b] + "}" + "");
    AdjacentDefaults("", [a], [b], "");
    assert "" + "{" + [b] + "}" + "" == ['{', b, '}'];
    RemoveCharAbsent(['{', b, '}'], '!');
  }
}
