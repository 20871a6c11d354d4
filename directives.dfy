/**
 * The directive splitter of main.cpp: one pass over a document that cuts it into
 * segments, literal text and @{ … } directive bodies in turn, tracking the brace
 * depth and quoted regions inside directives.
 */
module Directives {
  import opened StdString

  /** The character value 0, which the splitter uses for "no quote" and "no previous character". */
  const NoChar: char := '\0'

  /** The splitter's variables between two characters of the document. */
  datatype State = State(
    inQuotes: char,         // the quote that opened the current quoted region, or NoChar
    curly: int,             // the brace depth; 0 in literal text
    lastChar: char,         // the last character appended to output, or NoChar at the start
    output: string,         // the segment being collected
    segments: seq<string>)  // the segments pushed so far

  const Start: State := State(NoChar, 0, NoChar, "", [])

  /**
   * One iteration of the loop body for character c. A segment is closed by pushing
   * output without its last character; the iteration then ends early, so c is neither
   * appended nor recorded as lastChar.
   */
  function Step(st: State, c: char): (r: State)
    ensures r.segments == st.segments || (r.output == "" && r.segments == st.segments + [DropLast(st.output)])
  {
    if st.inQuotes != NoChar then
      var q := if c == st.inQuotes && st.lastChar != '\\' then NoChar else st.inQuotes;
      st.(inQuotes := q, output := st.output + [c], lastChar := c)
    else if st.curly > 0 then
      if c == '}' then
        var depth := (if st.lastChar == '@' then 1 else st.curly) - 1;
        if depth == 0 then st.(curly := 0, segments := st.segments + [DropLast(st.output)], output := "")
        else st.(curly := depth, output := st.output + [c], lastChar := c)
      else if c == '{' then st.(curly := st.curly + 1, output := st.output + [c], lastChar := c)
      else if c == '\'' || c == '"' then st.(inQuotes := c, output := st.output + [c], lastChar := c)
      else st.(output := st.output + [c], lastChar := c)
    else if c == '{' && st.lastChar == '@' then
      st.(curly := 1, segments := st.segments + [DropLast(st.output)], output := "")
    else st.(output := st.output + [c], lastChar := c)
  }

  /** The state after the loop body has run, from st, for each character of w in turn. */
  function Steps(st: State, w: string): (r: State)
    decreases |w|
  {
    if |w| == 0 then st else Step(Steps(st, w[..|w| - 1]), w[|w| - 1])
  }

  /** The state after the loop has consumed all of doc. */
  function Run(doc: string): (r: State)
  {
    Steps(Start, doc)
  }

  /** Consuming a then b is consuming a + b. */
  lemma {:induction false} StepsAppend(st: State, a: string, b: string)
    ensures Steps(st, a + b) == Steps(Steps(st, a), b)
    decreases |b|
  {
    if |b| == 0 {
      assert a + b == a;
    } else {
      StepsAppend(st, a, b[..|b| - 1]);
      assert (a + b)[..|a + b| - 1] == a + b[..|b| - 1];
    }
  }

  /** Each character either extends the buffer or pushes it as at most one segment. */
  lemma {:induction false} StepsBound(st: State, w: string)
    ensures |Steps(st, w).segments| + |Steps(st, w).output| <= |st.segments| + |st.output| + |w|
    decreases |w|
  {
    if |w| > 0 {
      StepsBound(st, w[..|w| - 1]);
    }
  }

  /** The segments parse returns: after the loop, a non-empty output is pushed as the last segment. */
  function Segments(doc: string): (r: seq<string>)
    ensures |r| <= |doc|
  {
    StepsBound(Start, doc);
    var st := Run(doc);
    if |st.output| > 0 then st.segments + [st.output] else st.segments
  }

  /** parse(doc) */
  method Parse(doc: string) returns (segments: seq<string>)
    ensures segments == Segments(doc)
  {
    var output := "";
    segments := [];
    var inQuotes := NoChar;
    var curly := 0;
    var lastChar := NoChar;
    for i := 0 to |doc|
      invariant State(inQuotes, curly, lastChar, output, segments) == Run(doc[..i])
    {
      var c := doc[i];
      assert doc[..i + 1][..i] == doc[..i];
      if inQuotes != NoChar {
        if c == inQuotes && lastChar != '\\' {
          inQuotes := NoChar;
        }
      } else if curly > 0 {
        if c == '}' {
          if lastChar == '@' {
            curly := 1;
          }
          curly := curly - 1;
          if curly == 0 {
            segments := segments + [DropLast(output)];
            output := "";
            continue;
          }
        } else if c == '{' {
          curly := curly + 1;
        } else if c == '\'' || c == '"' {
          inQuotes := c;
        }
      } else {
        if c == '{' && lastChar == '@' {
          curly := 1;
          segments := segments + [DropLast(output)];
          output := "";
          continue;
        }
      }
      output := output + [c];
      lastChar := c;
    }
    assert doc[..|doc|] == doc;
    if |output| > 0 {
      segments := segments + [output];
    }
  }

  /** The splitter's invariant between characters. */
  predicate Inv(st: State) {
    && st.curly >= 0
    // literal segments go to even positions, directive bodies to odd ones
    && (st.curly == 0 <==> |st.segments| % 2 == 0)
    // quoted regions exist only inside directives, and only for ' and "
    && (st.inQuotes != NoChar ==> st.curly > 0 && (st.inQuotes == '\'' || st.inQuotes == '"'))
  }

  lemma StepKeepsInv(st: State, c: char)
    requires Inv(st)
    ensures Inv(Step(st, c))
  {
  }

  lemma {:induction false} StepsKeepInv(st: State, w: string)
    requires Inv(st)
    ensures Inv(Steps(st, w))
    decreases |w|
  {
    if |w| > 0 {
      StepsKeepInv(st, w[..|w| - 1]);
      StepKeepsInv(Steps(st, w[..|w| - 1]), w[|w| - 1]);
    }
  }

  lemma RunInv(doc: string)
    ensures Inv(Run(doc))
  {
    StepsKeepInv(Start, doc);
  }

  /**
   * Segments alternate as the caller expects. A character pushes at most one segment,
   * and a push always switches sides: one pushed in literal text opens a directive, one
   * pushed inside a directive closes it. With Inv(st), which puts literal segments at
   * even positions, the pushed segments therefore alternate between the two kinds.
   */
  lemma StepPushesAlternately(st: State, c: char)
    requires Inv(st)
    ensures var st' := Step(st, c);
      st'.segments == st.segments || st'.segments == st.segments + [st'.segments[|st.segments|]]
    ensures var st' := Step(st, c);
      |st'.segments| > |st.segments| ==> (st.curly == 0 <==> st'.curly > 0)
  {
  }

  /** The last segment, flushed after the loop, is a directive body exactly when a directive was left open. */
  lemma FlushedSegmentKind(doc: string)
    requires |Run(doc).output| > 0
    ensures Run(doc).curly > 0 <==> |Segments(doc)| % 2 == 0
  {
    RunInv(doc);
  }

  /** Segments, once pushed, are never changed. */
  lemma {:induction false} StepsOnlyPush(st: State, w: string)
    ensures st.segments <= Steps(st, w).segments
    decreases |w|
  {
    if |w| > 0 {
      StepsOnlyPush(st, w[..|w| - 1]);
    }
  }

  lemma SegmentsOnlyGrow(pre: string, post: string)
    ensures Run(pre).segments <= Run(pre + post).segments
  {
    StepsAppend(Start, pre, post);
    StepsOnlyPush(Run(pre), post);
  }

  /** doc contains the two characters "@{" side by side. */
  predicate HasOpener(doc: string) {
    exists i :: 0 <= i < |doc| - 1 && doc[i] == '@' && doc[i + 1] == '{'
  }

  /** The last character of doc, or NoChar. */
  function LastOf(doc: string): char {
    if |doc| == 0 then NoChar else doc[|doc| - 1]
  }

  /** Without "@{", the splitter just collects the text. */
  lemma {:induction false} RunWithoutOpener(doc: string)
    requires !HasOpener(doc)
    ensures Run(doc) == State(NoChar, 0, LastOf(doc), doc, [])
    decreases |doc|
  {
    if |doc| > 0 {
      var init := doc[..|doc| - 1];
      RunWithoutOpener(init);
      assert init + [doc[|doc| - 1]] == doc;
    }
  }

  /** Plain text: no segments for "", otherwise one segment holding all of it. */
  lemma PlainText(doc: string)
    requires !HasOpener(doc)
    ensures Segments(doc) == if doc == "" then [] else [doc]
  {
    RunWithoutOpener(doc);
  }

  /** The empty document has no segments. */
  lemma EmptyDocument()
    ensures Segments("") == []
  {
  }

  /** The first segment is the literal text before the first "@{". */
  lemma FirstSegmentIsLiteral(pre: string, post: string)
    requires !HasOpener(pre + "@")
    ensures |Segments(pre + "@{" + post)| > 0
    ensures Segments(pre + "@{" + post)[0] == pre
  {
    var doc := pre + "@{" + post;
    var withOpener := pre + "@{";
    RunOpened(pre);
    SegmentsOnlyGrow(withOpener, post);
    assert doc == withOpener + post;
  }

  /** Everything the splitter keeps is input text, in input order. */
  predicate KeepsOrder(st: State, seen: string) {
    IsSubseq(Concat(st.segments) + st.output, seen)
  }

  /** The segments laid end to end. */
  function Concat(ss: seq<string>): string
    decreases |ss|
  {
    if |ss| == 0 then "" else Concat(ss[..|ss| - 1]) + ss[|ss| - 1]
  }

  lemma StepKeepsOrder(st: State, seen: string, c: char)
    requires KeepsOrder(st, seen)
    ensures KeepsOrder(Step(st, c), seen + [c])
  {
    var st' := Step(st, c);
    var before := Concat(st.segments) + st.output;
    if |st'.segments| > |st.segments| {
      // a segment was closed: output without its last character moved to segments
      assert st'.segments == st.segments + [DropLast(st.output)];
      assert Concat(st'.segments) + st'.output == Concat(st.segments) + DropLast(st.output);
      if |st.output| > 0 {
        assert DropLast(before) == Concat(st.segments) + DropLast(st.output);
        SubseqDropLast(before, seen);
        SubseqExtend(DropLast(before), seen, [c]);
      } else {
        assert DropLast(st.output) == "";
        assert Concat(st'.segments) + st'.output == before;
        SubseqExtend(before, seen, [c]);
      }
    } else {
      assert Concat(st'.segments) + st'.output == before + [c];
      SubseqAppend(before, seen, [c]);
    }
  }

  lemma {:induction false} RunKeepsOrder(doc: string)
    ensures KeepsOrder(Run(doc), doc)
    decreases |doc|
  {
    if |doc| == 0 {
      assert Concat([]) + "" == "";
    } else {
      var init := doc[..|doc| - 1];
      RunKeepsOrder(init);
      StepKeepsOrder(Run(init), init, doc[|doc| - 1]);
      assert init + [doc[|doc| - 1]] == doc;
    }
  }

  /** No character is ever inserted: the segments laid end to end are a subsequence of doc. */
  lemma SegmentsAreSubsequence(doc: string)
    ensures IsSubseq(Concat(Segments(doc)), doc)
    ensures |Concat(Segments(doc))| <= |doc|
  {
    var st := Run(doc);
    RunKeepsOrder(doc);
    if |st.output| > 0 {
      assert Concat(st.segments + [st.output]) == Concat(st.segments) + st.output;
    } else {
      assert Concat(st.segments) + st.output == Concat(st.segments);
    }
    SubseqLength(Concat(Segments(doc)), doc);
  }

  /** Inside a directive, a segment is pushed exactly when the depth reaches 0. */
  lemma DirectiveEndsAtDepthZero(st: State, c: char)
    requires Inv(st) && st.curly > 0
    ensures |Step(st, c).segments| > |st.segments| <==> Step(st, c).curly == 0
  {
  }

  /**
   * Inside a directive and outside quotes, '{' adds one to the depth and a '}' that does
   * not follow '@' takes one off; "@}" brings the depth to 0 whatever it was. A '\'' or
   * a '"' opens a quoted region; no other character does, the backtick included.
   */
  lemma DirectiveDepth(st: State, c: char)
    requires Inv(st) && st.curly > 0 && st.inQuotes == NoChar
    ensures c == '{' ==> Step(st, c).curly == st.curly + 1
    ensures c == '}' && st.lastChar != '@' ==> Step(st, c).curly == st.curly - 1
    ensures c == '}' && st.lastChar == '@' ==> Step(st, c).curly == 0
    ensures c != '{' && c != '}' ==> Step(st, c).curly == st.curly
    ensures (c == '\'' || c == '"') ==> Step(st, c).inQuotes == c
    ensures c != '\'' && c != '"' ==> Step(st, c).inQuotes == NoChar
  {
  }

  /**
   * In a quoted region the depth does not change and nothing is pushed; the region
   * ends only at its own quote character not preceded by a backslash.
   */
  lemma QuotedRegion(st: State, c: char)
    requires st.inQuotes != NoChar
    ensures Step(st, c).curly == st.curly && Step(st, c).segments == st.segments
    ensures Step(st, c).output == st.output + [c]
    ensures Step(st, c).inQuotes == NoChar <==> c == st.inQuotes && st.lastChar != '\\'
  {
  }

  /** In literal text a quote character opens no quoted region. */
  lemma LiteralQuotes(st: State, c: char)
    requires Inv(st) && st.curly == 0
    ensures Step(st, c).inQuotes == NoChar
  {
  }

  /**
   * In literal text, a segment is pushed exactly at the '{' of an opener "@{": the text
   * so far, without its '@', becomes a segment and a directive opens at depth 1.
   * Every other character is appended to the buffer and recorded as the last one.
   */
  lemma LiteralStep(st: State, c: char)
    requires Inv(st) && st.curly == 0
    ensures |Step(st, c).segments| > |st.segments| <==> c == '{' && st.lastChar == '@'
    ensures c == '{' && st.lastChar == '@' ==>
      Step(st, c) == st.(curly := 1, segments := st.segments + [DropLast(st.output)], output := "")
    ensures !(c == '{' && st.lastChar == '@') ==> Step(st, c) == st.(output := st.output + [c], lastChar := c)
  {
  }

  /** A directive body of plain characters is collected as it is, with the depth kept at 1. */
  lemma {:induction false} StepsPlainBody(st: State, body: string)
    requires st.inQuotes == NoChar && st.curly == 1 && st.output == ""
    requires forall k :: 0 <= k < |body| ==> body[k] !in "{}'\""
    ensures var st' := Steps(st, body);
      st'.inQuotes == NoChar && st'.curly == 1 && st'.output == body && st'.segments == st.segments
    ensures |body| > 0 ==> Steps(st, body).lastChar == body[|body| - 1]
    ensures |body| == 0 ==> Steps(st, body).lastChar == st.lastChar
    decreases |body|
  {
    if |body| > 0 {
      var init := body[..|body| - 1];
      StepsPlainBody(st, init);
      assert body[|body| - 1] !in "{}'\"";
      assert init + [body[|body| - 1]] == body;
    }
  }

  /** In literal text with no "@{" (counting the character before it), the splitter only collects. */
  lemma {:induction false} StepsLiteralText(st: State, w: string)
    requires st.inQuotes == NoChar && st.curly == 0
    requires !HasOpener([st.lastChar] + w)
    ensures Steps(st, w) == st.(output := st.output + w, lastChar := if |w| == 0 then st.lastChar else w[|w| - 1])
    decreases |w|
  {
    if |w| > 0 {
      var init := w[..|w| - 1];
      assert ([st.lastChar] + w)[..|init| + 1] == [st.lastChar] + init;
      StepsLiteralText(st, init);
      var lw := [st.lastChar] + w;
      assert lw[|init|] == (if |init| == 0 then st.lastChar else init[|init| - 1]);
      assert lw[|init| + 1] == w[|w| - 1];
      assert !(lw[|init|] == '@' && lw[|init| + 1] == '{');
      assert st.output + init + [w[|w| - 1]] == st.output + w;
    }
  }

  /** After literal text pre without "@{" and the opener "@{", the directive is open and pre is pushed. */
  lemma RunOpened(pre: string)
    requires !HasOpener(pre + "@")
    ensures Run(pre + "@{") == State(NoChar, 1, '@', "", [pre])
  {
    var withOpener := pre + "@{";
    RunWithoutOpener(pre + "@");
    assert withOpener[..|withOpener| - 1] == pre + "@";
    assert DropLast(pre + "@") == pre;
  }

  /** A plain directive body closed by '}' is pushed without its last character. */
  lemma RunClosed(pre: string, body: string)
    requires !HasOpener(pre + "@")
    requires forall k :: 0 <= k < |body| ==> body[k] !in "{}'\""
    ensures Run(pre + "@{" + body + "}")
         == State(NoChar, 0, if |body| == 0 then '@' else body[|body| - 1], "", [pre, DropLast(body)])
  {
    var withOpener := pre + "@{";
    RunOpened(pre);
    StepsPlainBody(Run(withOpener), body);
    StepsAppend(Start, withOpener, body);
    var closed := withOpener + body + "}";
    assert closed[..|closed| - 1] == withOpener + body;
  }

  /**
   * A directive whose body holds no brace and no quote, closed by '}', comes out as
   * its body without the body's last character, between the literal text before and
   * after it.
   */
  lemma DirectiveBody(pre: string, body: string, post: string)
    requires !HasOpener(pre + "@")
    requires forall k :: 0 <= k < |body| ==> body[k] !in "{}'\""
    requires !HasOpener([if |body| == 0 then '@' else body[|body| - 1]] + post)
    ensures Segments(pre + "@{" + body + "}" + post) == [pre, DropLast(body)] + (if |post| == 0 then [] else [post])
  {
    var closed := pre + "@{" + body + "}";
    RunClosed(pre, body);
    StepsAppend(Start, closed, post);
    StepsLiteralText(Run(closed), post);
    assert "" + post == post;
  }

  /** Examples: the last character of a directive body is dropped when a plain '}' closes it. */
  lemma ClosingDropsLastCharacter()
    ensures Segments("a@{bc}d") == ["a", "b", "d"]
    ensures Segments("a@{b}c") == ["a", "", "c"]
  {
    assert "a" + "@{" + "bc" + "}" + "d" == "a@{bc}d";
    DirectiveBody("a", "bc", "d");
    assert DropLast("bc") == "b";
    assert "a" + "@{" + "b" + "}" + "c" == "a@{b}c";
    DirectiveBody("a", "b", "c");
  }

  /**
   * Closing a directive leaves the previous character as it was, so after "@}" a '{'
   * opens a new directive straight away, with an empty literal segment between.
   */
  lemma CloseKeepsLastChar(st: State)
    requires Inv(st) && st.curly > 0 && st.inQuotes == NoChar && st.lastChar == '@'
    ensures var st' := Step(Step(st, '}'), '{');
      st'.curly == 1 && st'.output == "" && st'.segments == st.segments + [DropLast(st.output), ""]
  {
  }

  /** The loop consumes one more character. */
  lemma RunSnoc(doc: string, c: char)
    ensures Run(doc + [c]) == Step(Run(doc), c)
  {
    assert (doc + [c])[..|doc|] == doc;
  }

  /** After "@{" the splitter is inside a directive, with an empty literal segment pushed. */
  lemma RunOpener()
    ensures Run("@{") == State(NoChar, 1, '@', "", [""])
  {
    assert "" + "@" == "@" && "" + "@{" == "@{";
    RunOpened("");
  }

  /** The first part of QuotedBraceExample: up to the opening quote. */
  lemma QuoteOpened()
    ensures Run("@{x=\"") == State('"', 1, '"', "x=\"", [""])
  {
    AssignmentOpened();
    assert "@{x=" + ['"'] == "@{x=\"";
    RunSnoc("@{x=", '"');
  }

  /** In "@{x=", the directive body collects "x=". */
  lemma AssignmentOpened()
    ensures Run("@{x=") == State(NoChar, 1, '=', "x=", [""])
  {
    RunOpener();
    assert Run("@{x") == State(NoChar, 1, 'x', "x", [""]) by {
      assert "@{" + ['x'] == "@{x";
      RunSnoc("@{", 'x');
    }
    assert "@{x" + ['='] == "@{x=";
    RunSnoc("@{x", '=');
  }

  /** Example: a '}' inside a quoted region does not close the directive. */
  lemma QuotedBraceExample()
    ensures Segments("@{x=\"}\"}") == ["", "x=\"}"]
  {
    QuoteOpened();
    assert Run("@{x=\"}") == State('"', 1, '}', "x=\"}", [""]) by {
      assert "@{x=\"" + ['}'] == "@{x=\"}";
      RunSnoc("@{x=\"", '}');
    }
    assert Run("@{x=\"}\"") == State(NoChar, 1, '"', "x=\"}\"", [""]) by {
      assert "@{x=\"}" + ['"'] == "@{x=\"}\"";
      RunSnoc("@{x=\"}", '"');
    }
    assert Run("@{x=\"}\"}") == State(NoChar, 0, '"', "", ["", "x=\"}"]) by {
      assert "@{x=\"}\"" + ['}'] == "@{x=\"}\"}";
      RunSnoc("@{x=\"}\"", '}');
      assert DropLast("x=\"}\"") == "x=\"}";
    }
  }

  /** Example: an unterminated directive is flushed as the last segment. */
  lemma UnterminatedExample()
    ensures Segments("@{abc") == ["", "abc"]
  {
    RunOpener();
    StepsPlainBody(Run("@{"), "abc");
    StepsAppend(Start, "@{", "abc");
    assert "@{" + "abc" == "@{abc";
  }
}
