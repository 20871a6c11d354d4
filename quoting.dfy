/**
 * escape_detect and add_quotes_if_needed of CLI11's StringTools, as functions from
 * the string before the call to the string after it; the in-place versions are the
 * methods of StringRef.MutableString.
 */
module Quoting {
  import opened Wrappers
  import opened StdString

  /** The quote characters escape_detect looks for right after the trigger. */
  const QuoteChars: string := "\"'`"

  /** The characters that may open the argument holding the trigger. */
  const ArgStarts: string := "-/ \"'`"

  /**
   * str[offset + 1] of a std::string, whose character at index size() is the terminating
   * '\0': the character after offset in s followed by that terminator.
   */
  function NextChar(s: string, offset: nat): (r: char)
    requires offset < |s|
    ensures r == (s + ['\0'])[offset + 1]
  {
    if offset + 1 < |s| then s[offset + 1] else '\0'
  }

  /**
   * find_last_of(ArgStarts, offset - 1): the last index at or below offset - 1; for
   * offset 0 the unsigned offset - 1 is npos, and the whole string is searched.
   */
  function ArgStart(s: string, offset: nat): (r: Option<nat>)
    requires offset < |s|
    ensures r.Some? ==> r.value < |s| && s[r.value] in ArgStarts
    ensures offset > 0 && r.Some? ==> r.value < offset
  {
    FindLastOf(s, ArgStarts, if offset == 0 then |s| else offset)
  }

  /**
   * escape_detect rewrites the trigger when a quote follows it and the argument
   * starts with '-' for a '=' trigger, or with '/' for any other trigger.
   */
  function TriggerIsSeparator(s: string, offset: nat): (r: bool)
    requires offset < |s|
    ensures r ==> offset + 1 < |s| && s[offset + 1] in QuoteChars
    ensures r ==> exists a :: 0 <= a < |s| && (offset == 0 || a < offset) && s[a] in "-/"
  {
    NextChar(s, offset) in QuoteChars &&
    var a := ArgStart(s, offset);
    a.Some? && s[a.value] == (if s[offset] == '=' then '-' else '/')
  }

  /** The string after escape_detect(s, offset). */
  function EscapeDetected(s: string, offset: nat): (r: string)
    requires offset < |s|
    ensures |r| == |s|
    ensures forall k :: 0 <= k < |s| && k != offset ==> r[k] == s[k]
    ensures r[offset] == s[offset] || r[offset] == ' '
    ensures r[offset] != s[offset] <==> TriggerIsSeparator(s, offset) && s[offset] != ' '
  {
    if TriggerIsSeparator(s, offset) then s[offset := ' '] else s
  }

  /** The usual case: an option's '=' before a quoted value becomes a space. */
  lemma EscapeDetectedLongOption()
    ensures EscapeDetected("--opt=\"a b\"", 5) == "--opt \"a b\""
  {
    assert NextChar("--opt=\"a b\"", 5) == '"';
    assert ArgStart("--opt=\"a b\"", 5) == Some(1);
  }

  /** A Windows-style option's ':' before a quoted value becomes a space. */
  lemma EscapeDetectedSlashOption()
    ensures EscapeDetected("/opt:'x'", 4) == "/opt 'x'"
  {
    assert NextChar("/opt:'x'", 4) == '\'';
    assert ArgStart("/opt:'x'", 4) == Some(0);
  }

  /** A '=' inside a positional value, with no '-' before it, is left alone. */
  lemma EscapeDetectedPositional()
    ensures EscapeDetected("a=\"b\"", 1) == "a=\"b\""
  {
    assert ArgStart("a=\"b\"", 1) == None;
  }

  /** At offset 0 the search covers the whole string, so a later '-' counts as the argument start. */
  lemma EscapeDetectedAtStart()
    ensures EscapeDetected("=\"a-", 0) == " \"a-"
  {
    assert NextChar("=\"a-", 0) == '"';
    assert ArgStart("=\"a-", 0) == Some(3);
  }

  /**
   * find_and_modify(s, trigger, escape_detect), from position from on, read position
   * by position: where trigger occurs, escape_detect runs there; either way the scan
   * moves one on. escape_detect changes only the character at its offset, so no later
   * occurrence is created or destroyed.
   */
  function EscapesFixed(s: string, trigger: string, from: nat): (r: string)
    requires |trigger| > 0
    ensures |r| == |s|
    decreases |s| - from
  {
    if from + |trigger| > |s| then s
    else if OccursAt(s, trigger, from) then EscapesFixed(EscapeDetected(s, from), trigger, from + 1)
    else EscapesFixed(s, trigger, from + 1)
  }

  /**
   * From position start on, up to the occurrence i that find reports: escape_detect
   * runs at i and the scan resumes at i + 1.
   */
  lemma {:induction false} EscapesFromFound(s: string, trigger: string, start: nat, i: nat)
    requires |trigger| > 0 && Find(s, trigger, start) == Some(i)
    ensures i < |s|
    ensures EscapesFixed(s, trigger, start) == EscapesFixed(EscapeDetected(s, i), trigger, i + 1)
    decreases i - start
  {
    if start < i {
      assert !OccursAt(s, trigger, start);
      assert Find(s, trigger, start + 1) == Some(i);
      EscapesFromFound(s, trigger, start + 1, i);
    }
  }

  /** From position start on, with no occurrence left to find: nothing changes. */
  lemma {:induction false} EscapesNoneFrom(s: string, trigger: string, start: nat)
    requires |trigger| > 0 && Find(s, trigger, start) == None
    ensures EscapesFixed(s, trigger, start) == s
    decreases |s| - start
  {
    if start + |trigger| <= |s| {
      assert !OccursAt(s, trigger, start);
      assert Find(s, trigger, start + 1) == None;
      EscapesNoneFrom(s, trigger, start + 1);
    }
  }

  /**
   * find_and_modify with escape_detect only turns characters where an occurrence of
   * the trigger begins into spaces, and only at or after from.
   */
  lemma {:induction false} EscapesFixedOnlySeparators(s: string, trigger: string, from: nat)
    requires |trigger| > 0
    ensures forall k :: 0 <= k < |s| && EscapesFixed(s, trigger, from)[k] != s[k] ==>
      from <= k && OccursAt(s, trigger, k) && EscapesFixed(s, trigger, from)[k] == ' ' && s[k] == trigger[0]
    decreases |s| - from
  {
    if from + |trigger| <= |s| {
      if OccursAt(s, trigger, from) {
        EscapesFixedOnlySeparators(EscapeDetected(s, from), trigger, from + 1);
        SeparatorsCompose(s, trigger, from, from, EscapesFixed(EscapeDetected(s, from), trigger, from + 1));
      } else {
        EscapesFixedOnlySeparators(s, trigger, from + 1);
      }
    }
  }

  /**
   * One escape_detect at an occurrence p, followed by changes at later occurrences
   * only, changes only occurrences at or after from: escape_detect at p leaves every
   * later occurrence's characters as they were.
   */
  lemma SeparatorsCompose(s: string, trigger: string, from: nat, p: nat, r: string)
    requires |trigger| > 0 && from <= p && OccursAt(s, trigger, p) && |r| == |s|
    requires var s' := EscapeDetected(s, p);
      forall k :: 0 <= k < |s| && r[k] != s'[k] ==> p + 1 <= k && OccursAt(s', trigger, k) && r[k] == ' '
    ensures forall k :: 0 <= k < |s| && r[k] != s[k] ==>
      from <= k && OccursAt(s, trigger, k) && r[k] == ' ' && s[k] == trigger[0]
  {
    var s' := EscapeDetected(s, p);
    forall k | 0 <= k < |s| && r[k] != s[k]
      ensures from <= k && OccursAt(s, trigger, k) && r[k] == ' ' && s[k] == trigger[0]
    {
      if r[k] == s'[k] {
        assert k == p;
        assert s[p..p + |trigger|][0] == s[p];
      } else {
        assert s'[k..k + |trigger|] == s[k..k + |trigger|];
        assert s'[k..k + |trigger|][0] == s'[k];
      }
    }
  }

  /** Where the trigger does not occur, find_and_modify changes nothing. */
  lemma EscapesFixedAbsent(s: string, trigger: string)
    requires |trigger| > 0
    requires forall j :: 0 <= j ==> !OccursAt(s, trigger, j)
    ensures EscapesFixed(s, trigger, 0) == s
  {
    assert Find(s, trigger, 0).None?;
    EscapesNoneFrom(s, trigger, 0);
  }

  /** The string starts with '"' or '\'' and ends with the same character. */
  predicate AlreadyQuoted(s: string)
    requires |s| > 0
  {
    (s[0] == '"' || s[0] == '\'') && s[0] == s[|s| - 1]
  }

  /** An index from find, with npos ordered after every index. */
  function PositionOrEnd(o: Option<nat>, s: string): nat {
    if o.Some? then o.value else |s|
  }

  /** add_quotes_if_needed quotes with '\'' when a '"' comes before any '\'', and with '"' otherwise. */
  function QuoteFor(s: string): (q: char)
    ensures q == '"' || q == '\''
  {
    if PositionOrEnd(Find(s, "\"", 0), s) < PositionOrEnd(Find(s, "'", 0), s) then '\'' else '"'
  }

  /**
   * The string after add_quotes_if_needed (which reads front() and back(), so the
   * string must not be empty): one that holds a space and is not already quoted is
   * wrapped in QuoteFor(s).
   */
  function AddedQuotes(s: string): (r: string)
    requires |s| > 0
    ensures |r| > 0
  {
    if !AlreadyQuoted(s) && FindFirstOf(s, " ", 0).Some? then [QuoteFor(s)] + s + [QuoteFor(s)] else s
  }

  /** The string changes exactly when it holds a space and is not already quoted, and then gains only the two quotes. */
  lemma AddedQuotesChanges(s: string)
    requires |s| > 0
    ensures AddedQuotes(s) != s <==> ' ' in s && !AlreadyQuoted(s)
    ensures AddedQuotes(s) != s ==>
      var q := AddedQuotes(s)[0];
      AddedQuotes(s) == [q] + s + [q] && (q == '"' || q == '\'')
  {
    if ' ' in s {
      var k :| 0 <= k < |s| && s[k] == ' ';
      assert s[k] in " ";
    }
    if AddedQuotes(s) != s {
      assert |AddedQuotes(s)| == |s| + 2;
    }
  }

  /** A quoted result is left as it is by a second call. */
  lemma AddedQuotesIdempotent(s: string)
    requires |s| > 0
    ensures AddedQuotes(AddedQuotes(s)) == AddedQuotes(s)
  {
    var r := AddedQuotes(s);
    if r != s {
      assert AlreadyQuoted(r);
    }
  }

  /** When the string holds at most one kind of quote, the chosen quote is not in it. */
  lemma QuoteForAbsent(s: string)
    requires '"' !in s || '\'' !in s
    ensures QuoteFor(s) !in s
  {
    var dq, sq := Find(s, "\"", 0), Find(s, "'", 0);
    if '"' in s {
      var k :| 0 <= k < |s| && s[k] == '"';
      assert OccursAt(s, "\"", k);
      assert dq.Some?;
    }
  }
}
