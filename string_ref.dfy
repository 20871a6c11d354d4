/**
 * The StringTools operations that change a std::string through a reference: the trim
 * family, remove_default_flag_values, escape_detect and add_quotes_if_needed, as
 * methods of a class holding the referenced string; and the free functions that copy
 * a string into such a reference (trim_copy, find_and_modify with escape_detect).
 */
module StringRef {
  import opened Wrappers
  import opened StdString
  import opened Ascii
  import opened Trim
  import opened Names
  import opened FlagValues
  import opened Quoting

  /** A std::string that the string tools update in place. */
  class MutableString {
    var value: string

    constructor (s: string)
      ensures value == s
    {
      value := s;
    }

    /** ltrim(str, filter): find_if the first character not in filter, then erase everything before it. */
    method LTrim(filter: string)
      modifies this
      ensures value == TrimmedLeft(old(value), filter)
    {
      var it := 0;
      while it < |value| && value[it] in filter
        invariant it <= |value|
        invariant forall k :: 0 <= k < it ==> value[k] in filter
      {
        it := it + 1;
      }
      FirstKeptUnique(value, filter, it);
      value := value[it..];
    }

    /** rtrim(str, filter): find_if from the back the last character not in filter, then erase everything after it. */
    method RTrim(filter: string)
      modifies this
      ensures value == TrimmedRight(old(value), filter)
    {
      var base: nat := |value|;
      while base > 0 && value[base - 1] in filter
        invariant base <= |value|
        invariant forall k :: base <= k < |value| ==> value[k] in filter
      {
        base := base - 1;
      }
      EndKeptUnique(value, filter, base);
      value := value[..base];
    }

    /** trim(str, filter) is ltrim(rtrim(str, filter), filter). */
    method Trim(filter: string)
      modifies this
      ensures value == Trimmed(old(value), filter)
    {
      RTrim(filter);
      LTrim(filter);
    }

    /** ltrim(str): the same loop with the white-space test in place of the filter. */
    method LTrimSpace()
      modifies this
      ensures value == TrimmedLeft(old(value), Whitespace)
    {
      LTrim(Whitespace);
    }

    /** rtrim(str) */
    method RTrimSpace()
      modifies this
      ensures value == TrimmedRight(old(value), Whitespace)
    {
      RTrim(Whitespace);
    }

    /** trim(str) */
    method TrimSpace()
      modifies this
      ensures value == Trimmed(old(value), Whitespace)
    {
      RTrimSpace();
      LTrimSpace();
    }

    /**
     * remove_default_flag_values: erase each '{'…'}' group whose '}' comes before any
     * ',', resuming one past the group's '{', then erase every '!'.
     */
    method RemoveDefaultFlagValues()
      modifies this
      ensures value == RemovedDefaults(old(value))
    {
      EraseBraceGroups();
      value := RemoveChar(value, '!');
    }

    /** The brace loop of remove_default_flag_values. */
    method EraseBraceGroups()
      modifies this
      ensures value == ErasedBraces(old(value), FindFirstOf(old(value), "{", 0))
    {
      var loc: Option<nat> := FindFirstOf(value, "{", 0);
      while loc.Some?
        invariant loc.Some? ==> loc.value < |value|
        invariant ErasedBraces(value, loc) == ErasedBraces(old(value), FindFirstOf(old(value), "{", 0))
        decreases if loc.Some? then |value| - loc.value else 0
      {
        var l := loc.value;
        ErasedBracesStep(value, l);
        EraseGroupAt(l);
        loc := FindFirstOf(value, "{", l + 1);
      }
    }

    /** One turn of the brace loop, at the '{' at l: erase through the next '}' unless a ',' comes first. */
    method EraseGroupAt(l: nat)
      requires l < |value|
      modifies this
      ensures value == ErasedGroup(old(value), l)
    {
      var finish := FindFirstOf(value, "},", l + 1);
      if finish.Some? && value[finish.value] == '}' {
        value := value[..l] + value[finish.value + 1..];
      }
    }

    /**
     * escape_detect(str, offset): turn the trigger at offset into a space when it
     * separates an option from a quoted value; the search resumes at offset + 1.
     */
    method EscapeDetect(offset: nat) returns (next: nat)
      requires offset < |value|
      modifies this
      ensures value == EscapeDetected(old(value), offset)
      ensures next == offset + 1
    {
      var following := if offset + 1 < |value| then value[offset + 1] else '\0';
      if following == '"' || following == '\'' || following == '`' {
        var astart := FindLastOf(value, "-/ \"'`", if offset == 0 then |value| else offset);
        if astart.Some? {
          if value[astart.value] == (if value[offset] == '=' then '-' else '/') {
            value := value[offset := ' '];
          }
        }
      }
      next := offset + 1;
    }

    /** add_quotes_if_needed(str), for a non-empty str. */
    method AddQuotesIfNeeded()
      requires |value| > 0
      modifies this
      ensures value == AddedQuotes(old(value))
    {
      if (value[0] != '"' && value[0] != '\'') || value[0] != value[|value| - 1] {
        var quote := if PositionOrEnd(Find(value, "\"", 0), value) < PositionOrEnd(Find(value, "'", 0), value)
                     then '\'' else '"';
        if FindFirstOf(value, " ", 0).Some? {
          value := [quote] + value;
          value := value + [quote];
        }
      }
    }
  }

  /** trim_copy(str, filter): trim a copy, leaving str itself alone. */
  method TrimCopy(str: string, filter: string) returns (r: string)
    ensures r == Trimmed(str, filter)
  {
    var s := new MutableString(str);
    s.Trim(filter);
    r := s.value;
  }

  /** trim_copy(str) */
  method TrimCopySpace(str: string) returns (r: string)
    ensures r == Trimmed(str, Whitespace)
  {
    var s := new MutableString(str);
    s.TrimSpace();
    r := s.value;
  }

  /**
   * find_and_modify(str, trigger, escape_detect): hand every occurrence of trigger to
   * escape_detect, resuming the search where it says. An empty trigger would make
   * escape_detect read past the end, so trigger must not be empty.
   */
  method FindAndModifyEscapes(str: string, trigger: string) returns (r: string)
    requires |trigger| > 0
    ensures r == EscapesFixed(str, trigger, 0)
    ensures |r| == |str|
    ensures forall k :: 0 <= k < |str| && r[k] != str[k] ==>
      OccursAt(str, trigger, k) && r[k] == ' ' && str[k] == trigger[0]
  {
    EscapesFixedOnlySeparators(str, trigger, 0);
    var s := new MutableString(str);
    var startPos: nat := 0;
    var found := Find(s.value, trigger, startPos);
    while found.Some?
      invariant startPos <= |s.value| == |str|
      invariant found == Find(s.value, trigger, startPos)
      invariant EscapesFixed(s.value, trigger, startPos) == EscapesFixed(str, trigger, 0)
      decreases |str| - startPos
    {
      EscapesFromFound(s.value, trigger, startPos, found.value);
      startPos := s.EscapeDetect(found.value);
      found := Find(s.value, trigger, startPos);
    }
    EscapesNoneFrom(s.value, trigger, startPos);
    r := s.value;
  }
}
