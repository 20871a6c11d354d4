/** detail::fix_newlines of CLI11's StringTools. */
module FixNewlines {
  import opened Wrappers
  import opened StdString
  import opened JoinSplit

  /** The input with leader inserted right after each of its '\n' characters, and nowhere else. */
  function NewlinesLed(leader: string, s: string): string
    decreases |s|
  {
    if |s| == 0 then ""
    else if s[0] == '\n' then "\n" + leader + NewlinesLed(leader, s[1..])
    else [s[0]] + NewlinesLed(leader, s[1..])
  }

  lemma {:induction false} NewlinesLedAppend(leader: string, a: string, b: string)
    ensures NewlinesLed(leader, a + b) == NewlinesLed(leader, a) + NewlinesLed(leader, b)
    decreases |a|
  {
    if |a| > 0 {
      NewlinesLedAppend(leader, a[1..], b);
      assert (a + b)[1..] == a[1..] + b;
    } else {
      assert a + b == b;
    }
  }

  /** Text without a newline gets no leader. */
  lemma {:induction false} NewlinesLedPlain(leader: string, s: string)
    requires '\n' !in s
    ensures NewlinesLed(leader, s) == s
    decreases |s|
  {
    if |s| > 0 {
      NewlinesLedPlain(leader, s[1..]);
      assert s == [s[0]] + s[1..];
    }
  }

  /** The same result, stated independently: the lines of s joined by '\n' followed by leader. */
  lemma {:induction false} NewlinesLedJoinsLines(leader: string, s: string)
    ensures NewlinesLed(leader, s) == Joined(Pieces(s, '\n'), "\n" + leader)
    decreases |s|
  {
    match FindFirstOf(s, "\n", 0)
    case None =>
      NewlinesLedPlain(leader, s);
    case Some(j) =>
      var line, rest := s[..j], s[j + 1..];
      NewlinesLedJoinsLines(leader, rest);
      FirstLine(s, j);
      LedUpToNewline(leader, line, rest);
      JoinedCons(line, Pieces(rest, '\n'), "\n" + leader);
  }

  /** Where s's first '\n' is at j, s is its first line, that '\n' and the rest; the pieces follow the same cut. */
  lemma FirstLine(s: string, j: nat)
    requires FindFirstOf(s, "\n", 0) == Some(j)
    ensures '\n' !in s[..j]
    ensures s == s[..j] + "\n" + s[j + 1..]
    ensures Pieces(s, '\n') == [s[..j]] + Pieces(s[j + 1..], '\n')
  {
    assert "\n" == ['\n'];
    assert s == s[..j] + "\n" + s[j + 1..];
  }

  lemma JoinedCons(x: string, ps: seq<string>, delim: string)
    requires |ps| > 0
    ensures Joined([x] + ps, delim) == x + delim + Joined(ps, delim)
  {
    assert ([x] + ps)[1..] == ps;
  }

  /** Up to the next '\n', the scanned text is copied; the '\n' gets the leader. */
  lemma LedUpToNewline(leader: string, pre: string, tail: string)
    requires '\n' !in pre
    ensures NewlinesLed(leader, pre + "\n" + tail) == pre + "\n" + leader + NewlinesLed(leader, tail)
  {
    assert pre + "\n" + tail == pre + ("\n" + tail);
    NewlinesLedAppend(leader, pre, "\n" + tail);
    NewlinesLedPlain(leader, pre);
    assert ("\n" + tail)[1..] == tail;
  }

  /**
   * One round of the fix_newlines loop: with the scan at the start of mid and the next
   * '\n' right after mid, the leader goes in after that '\n' and the scan resumes at
   * the leader's last character.
   */
  lemma FixStep(leader: string, pre: string, mid: string, tail: string)
    requires |leader| > 0 && leader[|leader| - 1] != '\n'
    requires '\n' !in mid
    ensures pre + mid + "\n" + leader[..|leader| - 1] + NewlinesLed(leader, [leader[|leader| - 1]] + tail)
         == pre + NewlinesLed(leader, mid + "\n" + tail)
  {
    var last := leader[|leader| - 1];
    NewlinesLedAppend(leader, [last], tail);
    assert NewlinesLed(leader, [last]) == [last];
    LedUpToNewline(leader, mid, tail);
    assert leader == leader[..|leader| - 1] + [last];
  }

  /** How the text around the scan position looks before and after one insertion. */
  lemma InsertionSlices(leader: string, r: string, n: nat, j: nat)
    requires |leader| > 0
    requires n <= j < |r| && r[j] == '\n'
    ensures r[n..] == r[n..j] + "\n" + r[j + 1..]
    ensures r[..j + 1] == r[..n] + r[n..j] + "\n"
    ensures var r' := r[..j + 1] + leader + r[j + 1..];
      r'[..j + |leader|] == r[..n] + r[n..j] + "\n" + leader[..|leader| - 1] &&
      r'[j + |leader|..] == [leader[|leader| - 1]] + r[j + 1..]
  {
    var r' := r[..j + 1] + leader + r[j + 1..];
    assert r[n..] == r[n..j] + "\n" + r[j + 1..];
    assert r[..j + 1] == r[..n] + r[n..j] + "\n";
    assert r'[..j + |leader|] == r[..j + 1] + leader[..|leader| - 1];
  }

  /** When no '\n' is left after the scan position, the text is complete. */
  lemma NoMoreNewlines(leader: string, r: string, n: nat)
    requires n <= |r|
    requires forall k :: n <= k < |r| ==> r[k] !in "\n"
    ensures r[..n] + NewlinesLed(leader, r[n..]) == r
  {
    assert '\n' !in r[n..];
    NewlinesLedPlain(leader, r[n..]);
    assert r[..n] + r[n..] == r;
  }

  /** How many '\n' characters s holds. */
  function NewlineCount(s: string): nat
    decreases |s|
  {
    if |s| == 0 then 0 else (if s[0] == '\n' then 1 else 0) + NewlineCount(s[1..])
  }

  lemma {:induction false} NewlineCountAppend(a: string, b: string)
    ensures NewlineCount(a + b) == NewlineCount(a) + NewlineCount(b)
    decreases |a|
  {
    if |a| > 0 {
      NewlineCountAppend(a[1..], b);
      assert (a + b)[1..] == a[1..] + b;
    } else {
      assert a + b == b;
    }
  }

  /** Each round of the fix_newlines loop leaves one '\n' fewer ahead of the scan position. */
  lemma FixStepProgress(c: char, mid: string, tail: string)
    requires c != '\n' && '\n' !in mid
    ensures NewlineCount([c] + tail) < NewlineCount(mid + "\n" + tail)
  {
    NewlineCountAppend([c], tail);
    NewlineCountAppend(mid + "\n", tail);
    NewlineCountAppend(mid, "\n");
    if NewlineCount(mid) > 0 {
      NewlineCountPositive(mid);
    }
  }

  /** The result is longer than the input by one copy of leader per '\n'. */
  lemma {:induction false} NewlinesLedLength(leader: string, s: string)
    ensures |NewlinesLed(leader, s)| == |s| + NewlineCount(s) * |leader|
    decreases |s|
  {
    if |s| > 0 {
      NewlinesLedLength(leader, s[1..]);
      var n := NewlineCount(s[1..]);
      if s[0] == '\n' {
        assert NewlineCount(s) == n + 1;
        assert (n + 1) * |leader| == n * |leader| + |leader|;
      } else {
        assert NewlineCount(s) == n;
      }
    }
  }

  lemma {:induction false} NewlineCountPositive(s: string)
    requires NewlineCount(s) > 0
    ensures '\n' in s
    decreases |s|
  {
    if s[0] != '\n' {
      NewlineCountPositive(s[1..]);
    }
  }

  /**
   * fix_newlines(leader, input), for a leader that is non-empty and does not end in
   * '\n' (otherwise the C++ loop finds the same '\n' again and never ends).
   */
  method FixNewlines(leader: string, input: string) returns (r: string)
    requires |leader| > 0 && leader[|leader| - 1] != '\n'
    ensures r == NewlinesLed(leader, input)
  {
    r := input;
    var n: Option<nat> := Some(0);
    while n.Some? && n.value < |r|
      invariant n.Some? ==> n.value <= |r| && r[..n.value] + NewlinesLed(leader, r[n.value..]) == NewlinesLed(leader, input)
      invariant n.None? ==> r == NewlinesLed(leader, input)
      decreases if n.Some? then NewlineCount(r[n.value..]) + 1 else 0
    {
      var from := n.value;
      n := FindFirstOf(r, "\n", from);
      if n.Some? {
        var j := n.value;
        InsertionSlices(leader, r, from, j);
        FixStepProgress(leader[|leader| - 1], r[from..j], r[j + 1..]);
        FixStep(leader, r[..from], r[from..j], r[j + 1..]);
        r := r[..j + 1] + leader + r[j + 1..];
        n := Some(j + |leader|);
      } else {
        NoMoreNewlines(leader, r, from);
      }
    }
    if n.Some? {
      assert r[..n.value] == r;
    }
  }
}
