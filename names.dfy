/**
 * Option-name checks and name folding of CLI11's StringTools: valid_first_char,
 * valid_later_char, valid_name_string, to_lower, remove_underscore, find_member.
 */
module Names {
  import opened Ascii
  import opened StdString

  /**
   * valid_first_char: an option name starts with a letter, a digit or '_'. These are the
   * characters allowed later in a name except '.' and '-', so no name starts with '-'.
   */
  function ValidFirstChar(c: char): (r: bool)
    ensures r <==> ValidLaterChar(c) && c != '.' && c != '-'
  {
    IsAlnum(c) || c == '_'
  }

  /**
   * valid_later_char: letters, digits, '_', '.' and '-'. No character that separates parts
   * of a definition string (white space, ',', '=') or marks a flag default ('{', '!') can
   * occur in a name.
   */
  function ValidLaterChar(c: char): (r: bool)
    ensures r ==> !IsSpace(c) && c != '=' && c != ',' && c != '{' && c != '!'
  {
    IsAlnum(c) || c == '_' || c == '.' || c == '-'
  }

  /** A valid option name: non-empty, a valid first character, valid later characters. */
  predicate IsValidName(s: string) {
    |s| > 0 && ValidFirstChar(s[0]) && forall i :: 1 <= i < |s| ==> ValidLaterChar(s[i])
  }

  /** valid_name_string: checks the first character, then every character of str.substr(1). */
  method ValidNameString(str: string) returns (ok: bool)
    ensures ok <==> IsValidName(str)
  {
    if |str| == 0 || !ValidFirstChar(str[0]) {
      return false;
    }
    var rest := str[1..];
    for i := 0 to |rest|
      invariant forall k :: 0 <= k < i ==> ValidLaterChar(rest[k])
    {
      if !ValidLaterChar(rest[i]) {
        return false;
      }
    }
    return true;
  }

  /** to_lower: every character passed through std::tolower. */
  function ToLower(s: string): (r: string)
    ensures |r| == |s|
    ensures forall i :: 0 <= i < |s| ==> r[i] == LowerChar(s[i])
    decreases |s|
  {
    if |s| == 0 then "" else [LowerChar(s[0])] + ToLower(s[1..])
  }

  /**
   * The erase-remove idiom for one character c: every c goes, every other character
   * stays, in its original order.
   */
  function RemoveChar(s: string, c: char): (r: string)
    ensures c !in r
    ensures IsSubseq(r, s)
    ensures forall x :: x != c ==> multiset(r)[x] == multiset(s)[x]
    decreases |s|
  {
    if |s| == 0 then ""
    else
      var init := s[..|s| - 1];
      assert s == init + [s[|s| - 1]];
      if s[|s| - 1] == c then
        SubseqExtend(RemoveChar(init, c), init, [c]);
        RemoveChar(init, c)
      else
        var r := RemoveChar(init, c) + [s[|s| - 1]];
        SubseqAppend(RemoveChar(init, c), init, [s[|s| - 1]]);
        assert r[..|r| - 1] == RemoveChar(init, c);
        r
  }

  /** remove_underscore */
  function RemoveUnderscore(s: string): (r: string)
    ensures '_' !in r
    ensures IsSubseq(r, s)
    ensures forall x :: x != '_' ==> multiset(r)[x] == multiset(s)[x]
  {
    RemoveChar(s, '_')
  }

  /** Lower-casing a lower-cased string changes nothing, and leaves no upper-case letter. */
  lemma ToLowerIdempotent(s: string)
    ensures ToLower(ToLower(s)) == ToLower(s)
    ensures forall i :: 0 <= i < |s| ==> !IsUpper(ToLower(s)[i])
  {
  }

  lemma ToLowerAppend(a: string, b: string)
    ensures ToLower(a + b) == ToLower(a) + ToLower(b)
  {
    var l, r := ToLower(a + b), ToLower(a) + ToLower(b);
    forall i | 0 <= i < |a + b|
      ensures l[i] == r[i]
    {
      if i < |a| {
        assert (a + b)[i] == a[i];
      } else {
        assert (a + b)[i] == b[i - |a|];
      }
    }
  }

  /** Removing underscores and lower-casing may be done in either order. */
  lemma {:induction false} FoldingsCommute(s: string)
    ensures ToLower(RemoveUnderscore(s)) == RemoveUnderscore(ToLower(s))
    decreases |s|
  {
    if |s| > 0 {
      var init, x := s[..|s| - 1], s[|s| - 1];
      assert s == init + [x];
      FoldingsCommute(init);
      FoldingsCommuteSnoc(init, x);
    }
  }

  /** If the foldings commute on init, they commute on init + [x]. */
  lemma FoldingsCommuteSnoc(init: string, x: char)
    requires ToLower(RemoveUnderscore(init)) == RemoveUnderscore(ToLower(init))
    ensures ToLower(RemoveUnderscore(init + [x])) == RemoveUnderscore(ToLower(init + [x]))
  {
    ToLowerAppend(init, [x]);
    assert ToLower([x]) == [LowerChar(x)];
    RemoveUnderscoreSnoc(init, x);
    RemoveUnderscoreSnoc(ToLower(init), LowerChar(x));
    if x != '_' {
      assert LowerChar(x) != '_';
      ToLowerAppend(RemoveUnderscore(init), [x]);
    } else {
      assert LowerChar(x) == '_';
    }
  }

  /** One more character: remove_underscore drops it if it is '_' and keeps it otherwise. */
  lemma RemoveUnderscoreSnoc(init: string, x: char)
    ensures RemoveUnderscore(init + [x]) == if x == '_' then RemoveUnderscore(init) else RemoveUnderscore(init) + [x]
  {
    assert (init + [x])[..|init|] == init;
  }

  /** The form find_member compares: name lower-cased and/or without underscores, per the two flags. */
  function Folded(s: string, ignoreCase: bool, ignoreUnderscore: bool): string {
    if ignoreCase && ignoreUnderscore then ToLower(RemoveUnderscore(s))
    else if ignoreCase then ToLower(s)
    else if ignoreUnderscore then RemoveUnderscore(s)
    else s
  }

  function FirstFoldedMatch(names: seq<string>, key: string, ignoreCase: bool, ignoreUnderscore: bool, from: nat): (r: int)
    ensures r == -1 || from <= r < |names|
    ensures r >= 0 ==> Folded(names[r], ignoreCase, ignoreUnderscore) == key
    ensures r >= 0 ==> forall j :: from <= j < r ==> Folded(names[j], ignoreCase, ignoreUnderscore) != key
    ensures r == -1 ==> forall j :: from <= j < |names| ==> Folded(names[j], ignoreCase, ignoreUnderscore) != key
    decreases |names| - from
  {
    if from >= |names| then -1
    else if Folded(names[from], ignoreCase, ignoreUnderscore) == key then from
    else FirstFoldedMatch(names, key, ignoreCase, ignoreUnderscore, from + 1)
  }

  /**
   * find_member: the index of the first element of names equal to name once both are
   * folded per the flags, or -1 when there is none.
   */
  function FindMember(name: string, names: seq<string>, ignoreCase: bool, ignoreUnderscore: bool): (r: int)
    ensures -1 <= r < |names|
    ensures r >= 0 ==> Folded(names[r], ignoreCase, ignoreUnderscore) == Folded(name, ignoreCase, ignoreUnderscore)
    ensures r >= 0 ==> forall j :: 0 <= j < r ==>
      Folded(names[j], ignoreCase, ignoreUnderscore) != Folded(name, ignoreCase, ignoreUnderscore)
    ensures r == -1 <==> forall j :: 0 <= j < |names| ==>
      Folded(names[j], ignoreCase, ignoreUnderscore) != Folded(name, ignoreCase, ignoreUnderscore)
  {
    FirstFoldedMatch(names, Folded(name, ignoreCase, ignoreUnderscore), ignoreCase, ignoreUnderscore, 0)
  }

  /** Folding only widens matching: an exact match is still found, at the same or an earlier index. */
  lemma FoldingFindsExactMatch(name: string, names: seq<string>, ignoreCase: bool, ignoreUnderscore: bool)
    requires FindMember(name, names, false, false) >= 0
    ensures 0 <= FindMember(name, names, ignoreCase, ignoreUnderscore) <= FindMember(name, names, false, false)
  {
    var e := FindMember(name, names, false, false);
    assert names[e] == name;
    assert Folded(names[e], ignoreCase, ignoreUnderscore) == Folded(name, ignoreCase, ignoreUnderscore);
  }
}
