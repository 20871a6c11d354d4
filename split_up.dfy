/**
 * detail::split_up of CLI11's StringTools: cut a command line into tokens at white
 * space, keeping text between matching quotes (', " or `) together.
 */
module SplitUp {
  import opened Wrappers
  import opened StdString
  import opened Ascii
  import opened Trim
  import opened Replace
  import opened StringRef

  /** The characters that open a quoted token. */
  const Quotes: string := "'\"`"

  /** The two-character escape "\q" for the quote q. */
  function Escaped(q: char): string {
    ['\\', q]
  }

  /**
   * The quote that ends a token opened at index 0: the first copy of q at or after
   * from that does not follow a backslash.
   */
  function ClosingQuote(str: string, q: char, from: nat): (r: Option<nat>)
    requires from >= 1
    ensures r.Some? ==> from <= r.value < |str| && str[r.value] == q && str[r.value - 1] != '\\'
    decreases |str| - from
  {
    if from >= |str| then None
    else if str[from] == q && str[from - 1] != '\\' then Some(from)
    else ClosingQuote(str, q, from + 1)
  }

  /** Every copy of q that ClosingQuote passes over follows a backslash. */
  lemma {:induction false} ClosingQuoteIsFirst(str: string, q: char, from: nat)
    requires from >= 1
    ensures var r := ClosingQuote(str, q, from);
      forall j :: from <= j < |str| && (r.None? || j < r.value) && str[j] == q ==> str[j - 1] == '\\'
    decreases |str| - from
  {
    if from < |str| && !(str[from] == q && str[from - 1] != '\\') {
      ClosingQuoteIsFirst(str, q, from + 1);
    }
  }

  /** Copies of q that follow a backslash are passed over. */
  lemma {:induction false} ClosingQuoteSkips(str: string, q: char, from: nat, to: nat)
    requires 1 <= from <= to <= |str|
    requires forall j :: from <= j < to && str[j] == q ==> str[j - 1] == '\\'
    ensures ClosingQuote(str, q, from) == ClosingQuote(str, q, to)
    decreases |str| - from
  {
    if from < to {
      ClosingQuoteSkips(str, q, from + 1, to);
    }
  }

  /** One token cut from the front of the remaining text, and the text after it. */
  datatype Cut = Cut(token: string, rest: string)

  /**
   * One round of the split_up loop on a non-empty str: a quoted token runs to its
   * closing quote (or to the end) with every "\q" turned into q; any other token runs
   * to the next white space.
   */
  function NextToken(str: string): (c: Cut)
    requires |str| > 0
    ensures str[0] !in Whitespace ==> |c.rest| < |str|
  {
    if str[0] in Quotes then
      var q := str[0];
      match ClosingQuote(str, q, 1)
      case Some(end) => Cut(ReplaceAll(str[1..end], Escaped(q), [q]), str[end + 1..])
      case None => Cut(ReplaceAll(str[1..], Escaped(q), [q]), "")
    else
      match FindFirstOf(str, Whitespace, 0)
      case Some(i) => Cut(str[..i], str[i..])
      case None => Cut(str, "")
  }

  /** The tokens of a string that is already trimmed. */
  function Tokens(str: string): (r: seq<string>)
    requires |str| == 0 || str[0] !in Whitespace
    ensures |r| == 0 <==> |str| == 0
    decreases |str|
  {
    if |str| == 0 then []
    else
      var c := NextToken(str);
      [c.token] + Tokens(Trimmed(c.rest, Whitespace))
  }

  /** Each token uses up at least one character, so there are no more tokens than characters. */
  lemma {:induction false} TokensBound(str: string)
    requires |str| == 0 || str[0] !in Whitespace
    ensures |Tokens(str)| <= |str|
    decreases |str|
  {
    if |str| > 0 {
      var c := NextToken(str);
      TokensBound(Trimmed(c.rest, Whitespace));
    }
  }

  /** What split_up(s) returns. */
  function TokensOf(s: string): (r: seq<string>)
    ensures |r| == 0 <==> |Trimmed(s, Whitespace)| == 0
  {
    Tokens(Trimmed(s, Whitespace))
  }

  /** Without a copy of q in it, raw holds no "\q" to unescape. */
  lemma NoQuoteNoEscape(raw: string, q: char)
    requires q !in raw
    ensures ReplaceAll(raw, Escaped(q), [q]) == raw
  {
    forall j: nat
      ensures !OccursAt(raw, Escaped(q), j)
    {
      if j + 2 <= |raw| {
        assert raw[j..j + 2][1] == raw[j + 1];
      }
    }
    ReplaceAbsent(raw, Escaped(q), [q]);
  }

  /**
   * The unquoted branch of split_up: find_if the first white space, and cut the
   * token there, or take the whole string when there is none.
   */
  method CutUnquoted(str: string) returns (token: string, rest: string)
    requires |str| > 0 && str[0] !in Quotes
    ensures NextToken(str) == Cut(token, rest)
  {
    var it := 0;
    while it < |str| && str[it] !in Whitespace
      invariant it <= |str|
      invariant forall k :: 0 <= k < it ==> str[k] !in Whitespace
    {
      it := it + 1;
    }
    if it < |str| {
      FindFirstOfIs(str, Whitespace, 0, it);
      token, rest := str[..it], str[it..];
    } else {
      FindFirstOfNone(str, Whitespace, 0);
      token, rest := str, "";
    }
  }

  /**
   * The quoted branch of split_up on str, whose first character q is a quote: find
   * the next q from 1, skip the ones after a backslash, cut the token out, and
   * unescape it when a skip happened.
   */
  method CutQuoted(str: string) returns (token: string, rest: string)
    requires |str| > 0 && str[0] in Quotes
    ensures NextToken(str) == Cut(token, rest)
  {
    var keyChar := str[0];
    var end, embeddedQuote := SeekClosingQuote(str);
    var raw;
    if end.Some? {
      raw := str[1..end.value];
      rest := str[end.value + 1..];
    } else {
      raw := str[1..];
      rest := "";
    }
    if embeddedQuote {
      token := FindAndReplace(raw, Escaped(keyChar), [keyChar]);
    } else {
      forall k | 0 <= k < |raw|
        ensures raw[k] != keyChar
      {
        assert raw[k] == str[k + 1];
      }
      token := raw;
      NoQuoteNoEscape(raw, keyChar);
    }
  }

  /**
   * The search loop of the quoted branch: find the next copy of the opening quote
   * from 1 on, and search again past each one that follows a backslash.
   */
  method SeekClosingQuote(str: string) returns (end: Option<nat>, embeddedQuote: bool)
    requires |str| > 0
    ensures end == ClosingQuote(str, str[0], 1)
    ensures !embeddedQuote ==> end == FindFirstOf(str, [str[0]], 1)
  {
    var keyChar := str[0];
    embeddedQuote := false;
    end := FindFirstOf(str, [keyChar], 1);
    SkipToCandidate(str, keyChar, 1);
    while end.Some? && str[end.value - 1] == '\\'
      invariant end.Some? ==> 1 <= end.value < |str| && str[end.value] == keyChar
      invariant end.Some? ==> ClosingQuote(str, keyChar, end.value) == ClosingQuote(str, keyChar, 1)
      invariant end.None? ==> ClosingQuote(str, keyChar, 1) == None
      invariant !embeddedQuote ==> end == FindFirstOf(str, [keyChar], 1)
      decreases if end.Some? then |str| - end.value else 0
    {
      SkipEscapedQuote(str, keyChar, end.value);
      end := FindFirstOf(str, [keyChar], end.value + 1);
      embeddedQuote := true;
    }
    if end.Some? {
      ClosingQuoteHere(str, keyChar, end.value);
    }
  }

  /** A copy of q that follows a backslash is not the closing quote: the search goes on at the next copy. */
  lemma SkipEscapedQuote(str: string, q: char, e: nat)
    requires 1 <= e < |str| && str[e - 1] == '\\'
    ensures ClosingQuote(str, q, e) == ClosingQuoteFrom(str, q, FindFirstOf(str, [q], e + 1))
  {
    SkipToCandidate(str, q, e + 1);
  }

  /** A copy of q that does not follow a backslash is the closing quote. */
  lemma ClosingQuoteHere(str: string, q: char, e: nat)
    requires 1 <= e < |str| && str[e] == q && str[e - 1] != '\\'
    ensures ClosingQuote(str, q, e) == Some(e)
  {
  }

  /** The closing quote at or after the candidate copy of q, if there is a candidate. */
  function ClosingQuoteFrom(str: string, q: char, candidate: Option<nat>): Option<nat>
    requires candidate.Some? ==> candidate.value >= 1
  {
    if candidate.Some? then ClosingQuote(str, q, candidate.value) else None
  }

  /** The search for the closing quote may jump straight to the next copy of q. */
  lemma SkipToCandidate(str: string, q: char, from: nat)
    requires from >= 1
    ensures ClosingQuote(str, q, from) == ClosingQuoteFrom(str, q, FindFirstOf(str, [q], from))
  {
    match FindFirstOf(str, [q], from)
    case Some(n) =>
      assert forall k :: from <= k < n ==> str[k] != q;
      ClosingQuoteSkips(str, q, from, n);
    case None =>
      if from <= |str| {
        assert forall k :: from <= k < |str| ==> str[k] != q;
        ClosingQuoteSkips(str, q, from, |str|);
      }
  }

  /**
   * split_up(str): trim, then cut one token at a time from the front, trimming what
   * is left after each.
   */
  method SplitUp(s: string) returns (output: seq<string>)
    ensures output == TokensOf(s)
  {
    var str := new MutableString(s);
    str.TrimSpace();
    output := [];
    while |str.value| > 0
      invariant |str.value| == 0 || str.value[0] !in Whitespace
      invariant output + Tokens(str.value) == TokensOf(s)
      decreases |str.value|
    {
      var cur := str.value;
      var token, rest;
      if cur[0] in Quotes {
        token, rest := CutQuoted(cur);
      } else {
        token, rest := CutUnquoted(cur);
      }
      TokensStep(output, cur, token, rest);
      output := output + [token];
      str.value := rest;
      str.TrimSpace();
    }
  }

  /** One round of the split_up loop moves one token from the text to the output. */
  lemma TokensStep(output: seq<string>, cur: string, token: string, rest: string)
    requires |cur| > 0 && cur[0] !in Whitespace
    requires NextToken(cur) == Cut(token, rest)
    ensures output + Tokens(cur) == (output + [token]) + Tokens(Trimmed(rest, Whitespace))
  {
  }

  /** Blank input has no tokens. */
  lemma BlankHasNoTokens(s: string)
    requires forall k :: 0 <= k < |s| ==> s[k] in Whitespace
    ensures TokensOf(s) == []
  {
    TrimmedIsSpan(s, Whitespace);
  }

  /** A token that does not open with a quote is non-empty, holds no white space, and ends at white space or the end. */
  lemma UnquotedToken(str: string)
    requires |str| > 0 && str[0] !in Whitespace && str[0] !in Quotes
    ensures var c := NextToken(str);
      |c.token| > 0 && (forall k :: 0 <= k < |c.token| ==> c.token[k] !in Whitespace) &&
      str == c.token + c.rest && (|c.rest| == 0 || c.rest[0] in Whitespace)
  {
    match FindFirstOf(str, Whitespace, 0)
    case Some(i) =>
      assert str == str[..i] + str[i..];
    case None =>
  }

  /**
   * A token opening with the quote q that has an unescaped closing q at end is the
   * text between the quotes with each "\q" turned into q, and the rest follows the
   * closing quote.
   */
  lemma QuotedToken(str: string, end: nat)
    requires |str| > 0 && str[0] in Quotes
    requires 1 <= end < |str| && str[end] == str[0] && str[end - 1] != '\\'
    requires forall j :: 1 <= j < end && str[j] == str[0] ==> str[j - 1] == '\\'
    ensures NextToken(str) == Cut(ReplaceAll(str[1..end], Escaped(str[0]), [str[0]]), str[end + 1..])
  {
    ClosingQuoteSkips(str, str[0], 1, end);
    ClosingQuoteHere(str, str[0], end);
  }

  /** A quote that is never closed takes the rest of the string. */
  lemma UnterminatedQuote(str: string)
    requires |str| > 0 && str[0] in Quotes
    requires forall j :: 1 <= j < |str| && str[j] == str[0] ==> str[j - 1] == '\\'
    ensures NextToken(str) == Cut(ReplaceAll(str[1..], Escaped(str[0]), [str[0]]), "")
  {
    ClosingQuoteSkips(str, str[0], 1, |str|);
  }

  /** A quoted token with no quote and no trailing backslash inside is just the text between the quotes. */
  lemma PlainQuotedToken(q: char, body: string, tail: string)
    requires q in Quotes && q !in body && (|body| == 0 || body[|body| - 1] != '\\')
    ensures NextToken([q] + body + [q] + tail) == Cut(body, tail)
  {
    var str := [q] + body + [q] + tail;
    var end := |body| + 1;
    assert str[1..end] == body;
    assert str[end + 1..] == tail;
    assert forall j :: 1 <= j < end ==> str[j] == body[j - 1];
    QuotedToken(str, end);
    NoQuoteNoEscape(body, q);
  }

  /**
   * A plain quoted token after blanks comes out first, and split_up goes on with
   * what follows it.
   */
  lemma QuotedThen(s: string, w: string, q: char, x: string, tail: string)
    requires s == w + [q] + x + [q] + tail
    requires forall k :: 0 <= k < |w| ==> w[k] in Whitespace
    requires q in Quotes && q !in x && (|x| == 0 || x[|x| - 1] != '\\')
    requires |tail| == 0 || tail[|tail| - 1] !in Whitespace
    ensures TokensOf(s) == [x] + TokensOf(tail)
  {
    var t := [q] + x + [q] + tail;
    assert s == w + t;
    TrimmedPadding(w, t, Whitespace);
    PlainQuotedToken(q, x, tail);
    TokensStep([], t, x, tail);
  }

  /**
   * The usage the source documents, '"one two" "three"' giving 'one two' and 'three',
   * for any two quoted texts without quotes or a trailing backslash.
   */
  lemma TwoQuotedTokens(x: string, y: string)
    requires '"' !in x && (|x| == 0 || x[|x| - 1] != '\\')
    requires '"' !in y && (|y| == 0 || y[|y| - 1] != '\\')
    ensures TokensOf("\"" + x + "\" \"" + y + "\"") == [x, y]
  {
    var tail := " \"" + y + "\"";
    TwoQuotedShape(x, y);
    QuotedThen("\"" + x + "\" \"" + y + "\"", "", '"', x, tail);
    LastQuotedToken(y);
  }

  lemma TwoQuotedShape(x: string, y: string)
    ensures "\"" + x + "\" \"" + y + "\"" == "" + ['"'] + x + ['"'] + (" \"" + y + "\"")
  {
  }

  /** The second half of TwoQuotedTokens: a blank, then a quoted text that ends the line. */
  lemma LastQuotedToken(y: string)
    requires '"' !in y && (|y| == 0 || y[|y| - 1] != '\\')
    ensures TokensOf(" \"" + y + "\"") == [y]
  {
    var tail := " \"" + y + "\"";
    assert tail == " " + ['"'] + y + ['"'] + "";
    QuotedThen(tail, " ", '"', y, "");
    assert TokensOf("") == [];
  }

  /** Unescaping a single "\q": the text around it is kept and the backslash goes. */
  lemma UnescapeOne(a: string, b: string, q: char)
    requires '\\' !in a && q !in b
    ensures ReplaceAll(a + Escaped(q) + b, Escaped(q), [q]) == a + [q] + b
  {
    var raw := a + Escaped(q) + b;
    assert OccursAt(raw, Escaped(q), |a|) by {
      assert raw[|a|..|a| + 2] == Escaped(q);
    }
    forall j | 0 <= j < |a|
      ensures !OccursAt(raw, Escaped(q), j)
    {
      assert raw[j] == a[j];
    }
    FindFirstOccurrence(raw, Escaped(q), |a|);
    ReplaceAt(raw, Escaped(q), [q], |a|);
    assert raw[..|a|] == a;
    assert raw[|a| + 2..] == b;
    NoQuoteNoEscape(b, q);
  }

  /** Find stops at the first occurrence. */
  lemma FindFirstOccurrence(s: string, p: string, i: nat)
    requires OccursAt(s, p, i)
    requires forall j :: 0 <= j < i ==> !OccursAt(s, p, j)
    ensures Find(s, p, 0) == Some(i)
  {
  }

  /** An escaped quote inside a quoted token is kept as a plain quote: 'it\\'s' gives it's. */
  lemma EscapedQuoteCut(q: char, a: string, b: string)
    requires q in Quotes
    requires '\\' !in a && q !in a && '\\' !in b && q !in b
    ensures NextToken([q] + a + Escaped(q) + b + [q]) == Cut(a + [q] + b, "")
  {
    var s := [q] + a + Escaped(q) + b + [q];
    var end := |s| - 1;
    assert forall j :: 1 <= j <= |a| ==> s[j] == a[j - 1];
    assert forall j :: |a| + 3 <= j < end ==> s[j] == b[j - |a| - 3];
    assert s[|a| + 1] == '\\' && s[|a| + 2] == q;
    assert s[end - 1] != '\\';
    assert s[1..end] == a + Escaped(q) + b;
    assert s[end + 1..] == "";
    QuotedToken(s, end);
    UnescapeOne(a, b, q);
  }

  /** split_up of a single quoted token holding one escaped quote. */
  lemma EscapedQuoteToken(s: string, q: char, a: string, b: string)
    requires s == [q] + a + Escaped(q) + b + [q]
    requires q in Quotes
    requires '\\' !in a && q !in a && '\\' !in b && q !in b
    ensures TokensOf(s) == [a + [q] + b]
  {
    assert s == "" + s;
    TrimmedPadding("", s, Whitespace);
    EscapedQuoteCut(q, a, b);
    TokensStep([], s, a + [q] + b, "");
  }
}
