/**
 * detail::split, detail::join (plain and with a per-element callable) and
 * detail::rjoin of CLI11's StringTools.
 */
module JoinSplit {
  import opened Wrappers
  import opened StdString

  /** The meaning of join: the elements in order, delim between each consecutive pair. */
  function Joined(v: seq<string>, delim: string): (r: string)
    ensures |v| > 0 ==> v[0] <= r
    decreases |v|
  {
    if |v| == 0 then ""
    else if |v| == 1 then v[0]
    else v[0] + delim + Joined(v[1..], delim)
  }

  function Reversed<T>(v: seq<T>): seq<T> {
    seq(|v|, i requires 0 <= i < |v| => v[|v| - 1 - i])
  }

  function Mapped<T>(v: seq<T>, f: T -> string): seq<string> {
    seq(|v|, i requires 0 <= i < |v| => f(v[i]))
  }

  /** Appending one more element to a non-empty join adds the delimiter and that element. */
  lemma {:induction false} JoinedSnoc(v: seq<string>, x: string, delim: string)
    requires |v| > 0
    ensures Joined(v + [x], delim) == Joined(v, delim) + delim + x
    decreases |v|
  {
    if |v| == 1 {
      assert (v + [x])[1..] == [x];
    } else {
      JoinedSnoc(v[1..], x, delim);
      assert (v + [x])[1..] == v[1..] + [x];
    }
  }

  /** join(v, delim): the first element, then delim and the next element for each further one. */
  method Join(v: seq<string>, delim: string) returns (r: string)
    ensures r == Joined(v, delim)
    ensures |v| == 0 ==> r == ""
    ensures |v| == 1 ==> r == v[0]
  {
    r := "";
    var i := 0;
    if i < |v| {
      r := v[0];
      i := 1;
    }
    while i < |v|
      invariant (|v| == 0 && i == 0) || 1 <= i <= |v|
      invariant r == Joined(v[..i], delim)
    {
      JoinedSnoc(v[..i], v[i], delim);
      assert v[..i + 1] == v[..i] + [v[i]];
      r := r + delim + v[i];
      i := i + 1;
    }
    assert v[..i] == v;
  }

  /** join(v, func, delim): join of the elements each converted by func. */
  method JoinMapped<T>(v: seq<T>, f: T -> string, delim: string) returns (r: string)
    ensures r == Joined(Mapped(v, f), delim)
  {
    r := "";
    var i := 0;
    if i < |v| {
      r := f(v[0]);
      i := 1;
      assert Mapped(v[..1], f) == [f(v[0])];
    }
    while i < |v|
      invariant (|v| == 0 && i == 0) || 1 <= i <= |v|
      invariant r == Joined(Mapped(v[..i], f), delim)
    {
      JoinedSnoc(Mapped(v[..i], f), f(v[i]), delim);
      assert Mapped(v[..i + 1], f) == Mapped(v[..i], f) + [f(v[i])];
      r := r + delim + f(v[i]);
      i := i + 1;
    }
    assert v[..i] == v;
  }

  /** rjoin(v, delim): the join of the elements taken last to first. */
  method RJoin(v: seq<string>, delim: string) returns (r: string)
    ensures r == Joined(Reversed(v), delim)
  {
    r := "";
    for start := 0 to |v|
      invariant r == Joined(Reversed(v)[..start], delim)
    {
      assert Reversed(v)[..start + 1] == Reversed(v)[..start] + [v[|v| - start - 1]];
      if start > 0 {
        JoinedSnoc(Reversed(v)[..start], v[|v| - start - 1], delim);
        r := r + delim;
      }
      r := r + v[|v| - start - 1];
    }
    assert Reversed(v)[..|v|] == Reversed(v);
  }

  /** The classic split: s cut at every occurrence of d, so k occurrences give k + 1 pieces. */
  function Pieces(s: string, d: char): (r: seq<string>)
    ensures |r| > 0
    decreases |s|
  {
    match FindFirstOf(s, [d], 0)
    case None => [s]
    case Some(j) => [s[..j]] + Pieces(s[j + 1..], d)
  }

  /** The items std::getline(stream, item, d) yields, one after another, from a stream holding s. */
  function Getlines(s: string, d: char): (r: seq<string>)
    ensures forall i :: 0 <= i < |r| ==> d !in r[i]
    ensures |r| == 0 <==> |s| == 0
    decreases |s|
  {
    if |s| == 0 then []
    else match FindFirstOf(s, [d], 0)
      case None => [s]
      case Some(j) => [s[..j]] + Getlines(s[j + 1..], d)
  }

  /** s without one trailing d: getline never reports the empty item after a final delimiter. */
  function WithoutTrailing(s: string, d: char): string {
    if |s| > 0 && s[|s| - 1] == d then s[..|s| - 1] else s
  }

  /** getline yields the classic pieces of the stream contents less one trailing delimiter. */
  lemma {:induction false} GetlinesArePieces(s: string, d: char)
    requires |s| > 0
    ensures Getlines(s, d) == Pieces(WithoutTrailing(s, d), d)
    decreases |s|
  {
    match FindFirstOf(s, [d], 0)
    case None =>
      assert WithoutTrailing(s, d) == s;
    case Some(j) =>
      var w := WithoutTrailing(s, d);
      if j + 1 == |s| {
        assert w == s[..j];
        assert FindFirstOf(w, [d], 0).None?;
      } else {
        GetlinesArePieces(s[j + 1..], d);
        PiecesCut(s, d, j);
      }
  }

  /** Cutting s at its first d, when more follows, cuts the text less its trailing d there too. */
  lemma PiecesCut(s: string, d: char, j: nat)
    requires FindFirstOf(s, [d], 0) == Some(j) && j + 1 < |s|
    ensures Pieces(WithoutTrailing(s, d), d) == [s[..j]] + Pieces(WithoutTrailing(s[j + 1..], d), d)
  {
    var t := s[j + 1..];
    var w := WithoutTrailing(s, d);
    assert s[j] == d;
    if s[|s| - 1] == d {
      assert t[|t| - 1] == d;
      assert s[..|s| - 1] == s[..j] + [d] + t[..|t| - 1];
    } else {
      assert s == s[..j] + [d] + t;
    }
    assert w[j] == d && w[..j] == s[..j];
    FindFirstOfIs(w, [d], 0, j);
    assert w[j + 1..] == WithoutTrailing(t, d);
  }

  /**
   * split(s, delim): one empty element for the empty string, otherwise the items
   * std::getline reads from a stream holding s.
   */
  method Split(s: string, delim: char) returns (elems: seq<string>)
    ensures |s| == 0 ==> elems == [""]
    ensures |s| > 0 ==> elems == Pieces(WithoutTrailing(s, delim), delim)
  {
    elems := [];
    if |s| == 0 {
      elems := elems + [""];
    } else {
      var rest := s;  // what the stringstream has not yet delivered
      while |rest| > 0
        invariant elems + Getlines(rest, delim) == Getlines(s, delim)
      {
        var item;
        match FindFirstOf(rest, [delim], 0) {
          case None =>
            item, rest := rest, "";
          case Some(j) =>
            item, rest := rest[..j], rest[j + 1..];
        }
        elems := elems + [item];
      }
      assert elems == Getlines(s, delim);
      GetlinesArePieces(s, delim);
    }
  }

  /** No piece contains the delimiter. */
  lemma {:induction false} PiecesAvoidDelim(s: string, d: char)
    ensures forall i :: 0 <= i < |Pieces(s, d)| ==> d !in Pieces(s, d)[i]
    decreases |s|
  {
    match FindFirstOf(s, [d], 0)
    case None =>
    case Some(j) =>
      PiecesAvoidDelim(s[j + 1..], d);
      assert forall i :: 1 <= i < |Pieces(s, d)| ==> Pieces(s, d)[i] == Pieces(s[j + 1..], d)[i - 1];
  }

  /** Joining the pieces with the delimiter gives the string back. */
  lemma {:induction false} JoinedPieces(s: string, d: char)
    ensures Joined(Pieces(s, d), [d]) == s
    decreases |s|
  {
    match FindFirstOf(s, [d], 0)
    case None =>
    case Some(j) =>
      var rest := Pieces(s[j + 1..], d);
      JoinedPieces(s[j + 1..], d);
      assert ([s[..j]] + rest)[1..] == rest;
      assert s == s[..j] + [d] + s[j + 1..];
  }

  /** Splitting a join whose elements avoid the delimiter gives the elements back. */
  lemma {:induction false} PiecesOfJoined(v: seq<string>, d: char)
    requires |v| > 0
    requires forall i :: 0 <= i < |v| ==> d !in v[i]
    ensures Pieces(Joined(v, [d]), d) == v
    decreases |v|
  {
    if |v| == 1 {
      assert FindFirstOf(v[0], [d], 0).None?;
    } else {
      var s := Joined(v, [d]);
      var rest := Joined(v[1..], [d]);
      PiecesOfJoined(v[1..], d);
      assert s == v[0] + [d] + rest;
      assert s[|v[0]|] == d && s[..|v[0]|] == v[0];
      assert FindFirstOf(s, [d], 0) == Some(|v[0]|);
      assert s[|v[0]| + 1..] == rest;
      assert [v[0]] + v[1..] == v;
    }
  }

  /**
   * What split promises its callers: no element contains the delimiter, and joining the
   * elements gives s back less a single trailing delimiter.
   */
  lemma SplitThenJoin(s: string, d: char)
    requires |s| > 0
    ensures Joined(Getlines(s, d), [d]) == WithoutTrailing(s, d)
    ensures forall i :: 0 <= i < |Getlines(s, d)| ==> d !in Getlines(s, d)[i]
  {
    GetlinesArePieces(s, d);
    JoinedPieces(WithoutTrailing(s, d), d);
    PiecesAvoidDelim(WithoutTrailing(s, d), d);
  }

}
