/**
 * `parseInlineFormatting`: one line of review text becomes a list of text strings and
 * `<strong>`/`<em>` elements. The line is scanned with the alternation
 * `\*\*(.+?)\*\*|_([^_]+)_|\*([^*]+)\*|<em>(.+?)<\/em>`, written out here as an explicit scanner:
 * at each position the four alternatives are tried in that order, the first that matches wins,
 * and the scan resumes right after it; text between matches is kept as plain strings.
 */
module InlineFormat {
  import opened Wrappers
  import JsText

  /** Which of the three italic alternatives matched; all three render as `<em>`. */
  datatype EmMark = Underscore | Asterisk | EmTag

  /**
   * A child node of a paragraph: a text string, a `<strong>` or `<em>` element holding the
   * captured text, a `<br/>`, or a node of type `L` the caller splices in.
   */
  datatype Inline<L> =
    | Text(text: string)
    | Strong(text: string)
    | Em(text: string, mark: EmMark)
    | Br
    | Embedded(node: L)

  /** A match of the pattern: the captured text and the index just past the match. */
  datatype Match =
    | BoldMatch(inner: string, end: nat)
    | ItalicMatch(inner: string, mark: EmMark, end: nat)

  /** No JavaScript line terminator in `s[a..b]`: `.` can consume all of it. */
  predicate DotsOnly(s: string, a: nat, b: nat)
    requires a <= b <= |s|
  {
    forall m :: a <= m < b ==> !JsText.IsLineTerminator(s[m])
  }

  /**
   * The lazy `.+?` followed by `close`: having consumed `s[start..j]`, try `close` at `j`, and
   * otherwise consume one more character, which must not be a line terminator. The result is
   * the index where `close` begins, or -1.
   */
  function LazyClose(s: string, close: string, start: nat, j: nat): (k: int)
    requires start <= j <= |s| && DotsOnly(s, start, j)
    decreases |s| - j
    ensures k == -1 || (j <= k && k + |close| <= |s| && JsText.OccursAt(s, close, k) && DotsOnly(s, start, k))
    ensures k != -1 ==> forall m :: j <= m < k ==> !JsText.OccursAt(s, close, m)
    ensures k == -1 ==> forall m :: j <= m <= |s| && DotsOnly(s, start, m) ==> !JsText.OccursAt(s, close, m)
  {
    if j + |close| > |s| then -1
    else if s[j..j + |close|] == close then j
    else if JsText.IsLineTerminator(s[j]) then -1
    else LazyClose(s, close, start, j + 1)
  }

  /**
   * `open(.+)close` can match at `i` with `close` beginning at `k`: `open` at `i`, `close` at `k`,
   * and at least one character, none of them a line terminator, between the two.
   */
  predicate LazyFits(s: string, open: string, close: string, i: nat, k: int) {
    JsText.OccursAt(s, open, i) && i + |open| < k && JsText.OccursAt(s, close, k)
    && DotsOnly(s, i + |open|, k)
  }

  /**
   * `open(.+?)close` at `i`: the index where the nearest `close` begins, with at least one
   * character and no line terminator between `open` and it; -1 exactly when no `close` fits.
   */
  function LazyAt(s: string, open: string, close: string, i: nat): (k: int)
    ensures k != -1 ==> JsText.OccursAt(s, open, i) && i + |open| < k && k + |close| <= |s|
    ensures k != -1 ==> JsText.OccursAt(s, close, k) && DotsOnly(s, i + |open|, k)
    ensures k != -1 ==> forall m :: i + |open| < m < k ==> !JsText.OccursAt(s, close, m)
    ensures k == -1 ==> forall m :: !LazyFits(s, open, close, i, m)
  {
    if JsText.OccursAt(s, open, i) && i + |open| < |s| && !JsText.IsLineTerminator(s[i + |open|])
    then LazyClose(s, close, i + |open|, i + |open| + 1)
    else -1
  }

  /**
   * `c([^c]+)c` can match at `i` closing at `k`: `c` at both ends and at least one character,
   * none of them `c`, between.
   */
  predicate ExcludingFits(s: string, c: char, i: nat, k: int) {
    i + 1 < k < |s| && s[i] == c && s[k] == c && forall m :: i < m < k ==> s[m] != c
  }

  /**
   * `c([^c]+)c` at `i`: `s[i]` is `c`, and the next `c` after it is at least two characters
   * further on. The result is the index of that closing `c`, or -1 exactly when none fits.
   */
  function ExcludingAt(s: string, c: char, i: nat): (k: int)
    ensures k != -1 ==> i + 1 < k < |s| && s[i] == c && s[k] == c
    ensures k != -1 ==> forall m :: i < m < k ==> s[m] != c
    ensures k == -1 ==> forall m :: !ExcludingFits(s, c, i, m)
  {
    if i < |s| && s[i] == c then
      var k := JsText.IndexOfFrom(s, [c], i + 1);
      assert forall m :: i < m < |s| ==> (JsText.OccursAt(s, [c], m) <==> s[m] == c) by {
        forall m | i < m < |s| ensures JsText.OccursAt(s, [c], m) <==> s[m] == c {
          assert s[m..m + 1] == [s[m]];
        }
      }
      if k >= i + 2 then
        assert JsText.OccursAt(s, [c], k);
        k
      else
        assert forall m :: !ExcludingFits(s, c, i, m) by {
          if k == i + 1 {
            assert JsText.OccursAt(s, [c], i + 1);
          }
        }
        -1
    else -1
  }

  /** The pattern at position `i`, the four alternatives tried in order. */
  function MatchAt(s: string, i: nat): (r: Option<Match>)
    ensures r.Some? ==> i < r.value.end <= |s|
    ensures r.None? ==> forall k ::
      && !LazyFits(s, "**", "**", i, k) && !ExcludingFits(s, '_', i, k)
      && !ExcludingFits(s, '*', i, k) && !LazyFits(s, "<em>", "</em>", i, k)
  {
    var bold := LazyAt(s, "**", "**", i);
    if bold != -1 then Some(BoldMatch(s[i + 2..bold], bold + 2))
    else
      var under := ExcludingAt(s, '_', i);
      if under != -1 then Some(ItalicMatch(s[i + 1..under], Underscore, under + 1))
      else
        var star := ExcludingAt(s, '*', i);
        if star != -1 then Some(ItalicMatch(s[i + 1..star], Asterisk, star + 1))
        else
          var tag := LazyAt(s, "<em>", "</em>", i);
          if tag != -1 then Some(ItalicMatch(s[i + 4..tag], EmTag, tag + 5))
          else None
  }

  /** The next match at or after `from`, with its index, as `matchAll` yields it. */
  function NextMatch(s: string, from: nat): (r: Option<(nat, Match)>)
    decreases |s| - from
    ensures r.Some? ==> from <= r.value.0 < r.value.1.end <= |s| && MatchAt(s, r.value.0) == Some(r.value.1)
    ensures r.Some? ==> forall k :: from <= k < r.value.0 ==> MatchAt(s, k).None?
    ensures r.None? ==> forall k :: from <= k ==> MatchAt(s, k).None?
  {
    if from >= |s| then
      assert forall k :: from <= k ==> MatchAt(s, k).None? by {
        forall k | from <= k ensures MatchAt(s, k).None? {
          MatchNeedsRoom(s, k);
        }
      }
      None
    else match MatchAt(s, from)
      case Some(m) => Some((from, m))
      case None => NextMatch(s, from + 1)
  }

  lemma MatchNeedsRoom(s: string, k: nat)
    requires k >= |s|
    ensures MatchAt(s, k).None?
  {
  }

  /** The element a match renders as. */
  function NodeOf<L>(m: Match): Inline<L> {
    match m
    case BoldMatch(inner, _) => Strong(inner)
    case ItalicMatch(inner, mark, _) => Em(inner, mark)
  }

  /** The nodes for `s[last..]`, `last` being the end of the previous match. */
  function Tokens<L>(s: string, last: nat): seq<Inline<L>>
    requires last <= |s|
    decreases |s| - last
  {
    match NextMatch(s, last)
    case None => if last < |s| then [Text(s[last..])] else []
    case Some((index, m)) =>
      (if index > last then [Text(s[last..index])] else []) + [NodeOf(m)] + Tokens(s, m.end)
  }

  /** What `parseInlineFormatting(line)` returns. */
  function ParseInline<L>(line: string): seq<Inline<L>> {
    Tokens(line, 0)
  }

  /** One match of the scan: the text before it, its element, and the nodes after it. */
  lemma TokensStep<L>(s: string, last: nat, index: nat, m: Match)
    requires last <= |s| && NextMatch(s, last) == Some((index, m))
    ensures Tokens<L>(s, last) ==
      (if index > last then [Text(s[last..index])] else []) + [NodeOf(m)] + Tokens<L>(s, m.end)
  {
  }

  /** The loop of `parseInlineFormatting` over the matches of the line. */
  method ParseInlineFormatting<L>(line: string) returns (nodes: seq<Inline<L>>)
    ensures nodes == ParseInline<L>(line)
  {
    nodes := [];
    var lastIndex: nat := 0;
    var next := NextMatch(line, 0);
    while next.Some?
      invariant lastIndex <= |line|
      invariant next == NextMatch(line, lastIndex)
      invariant nodes + Tokens<L>(line, lastIndex) == ParseInline<L>(line)
      decreases |line| - lastIndex
    {
      var index := next.value.0;
      var m := next.value.1;
      TokensStep<L>(line, lastIndex, index, m);
      ghost var before := nodes;
      nodes := PushMatch(nodes, line, lastIndex, index, m);
      Regroup(before, if index > lastIndex then [Text(line[lastIndex..index])] else [], NodeOf(m), Tokens<L>(line, m.end));
      lastIndex := m.end;
      next := NextMatch(line, lastIndex);
    }
    TokensDone<L>(line, lastIndex);
    if lastIndex < |line| {
      nodes := nodes + [Text(line[lastIndex..])];
    }
  }

  /** One turn of the loop: the text since the last match, when there is any, then the match's element. */
  method PushMatch<L>(nodes: seq<Inline<L>>, line: string, lastIndex: nat, index: nat, m: Match)
    returns (nodes': seq<Inline<L>>)
    requires lastIndex <= index <= |line|
    ensures nodes' == nodes + (if index > lastIndex then [Text(line[lastIndex..index])] else []) + [NodeOf(m)]
  {
    nodes' := nodes;
    if index > lastIndex {
      nodes' := nodes' + [Text(line[lastIndex..index])];
    }
    nodes' := nodes' + [NodeOf(m)];
  }

  /** Appending in two steps or in one gives the same list. */
  lemma Regroup<T>(a: seq<T>, gap: seq<T>, x: T, rest: seq<T>)
    ensures a + (gap + [x] + rest) == (a + gap + [x]) + rest
  {
  }

  // ---------------------------------------------------------------------------------------
  // Properties of the scan

  /** The source text a node came from: captured text re-wrapped in its own delimiters. */
  function SourceOf<L>(n: Inline<L>): string {
    match n
    case Text(t) => t
    case Strong(t) => "**" + t + "**"
    case Em(t, Underscore) => "_" + t + "_"
    case Em(t, Asterisk) => "*" + t + "*"
    case Em(t, EmTag) => "<em>" + t + "</em>"
    case Br => "\n"
    case Embedded(_) => ""
  }

  function Flatten<L>(nodes: seq<Inline<L>>): string {
    if nodes == [] then "" else SourceOf(nodes[0]) + Flatten(nodes[1..])
  }

  lemma FlattenAppend<L>(a: seq<Inline<L>>, b: seq<Inline<L>>)
    ensures Flatten(a + b) == Flatten(a) + Flatten(b)
  {
    if a == [] {
      assert a + b == b;
    } else {
      assert (a + b)[1..] == a[1..] + b;
      FlattenAppend(a[1..], b);
    }
  }

  lemma LazyWrap(s: string, open: string, close: string, i: nat)
    requires LazyAt(s, open, close, i) != -1
    ensures var k := LazyAt(s, open, close, i);
      open + s[i + |open|..k] + close == s[i..k + |close|]
  {
    var k := LazyAt(s, open, close, i);
    assert s[i..i + |open|] == open && s[k..k + |close|] == close;
    assert s[i..k + |close|] == s[i..i + |open|] + s[i + |open|..k] + s[k..k + |close|];
  }

  lemma ExcludingWrap(s: string, c: char, i: nat)
    requires ExcludingAt(s, c, i) != -1
    ensures var k := ExcludingAt(s, c, i);
      [c] + s[i + 1..k] + [c] == s[i..k + 1]
  {
    var k := ExcludingAt(s, c, i);
    assert s[i..k + 1] == [s[i]] + s[i + 1..k] + [s[k]];
  }

  lemma LazySource<L>(s: string, open: string, close: string, i: nat, n: Inline<L>)
    requires LazyAt(s, open, close, i) != -1
    requires SourceOf(n) == open + s[i + |open|..LazyAt(s, open, close, i)] + close
    ensures SourceOf(n) == s[i..LazyAt(s, open, close, i) + |close|]
  {
    LazyWrap(s, open, close, i);
  }

  lemma ExcludingSource<L>(s: string, c: char, i: nat, n: Inline<L>)
    requires ExcludingAt(s, c, i) != -1
    requires SourceOf(n) == [c] + s[i + 1..ExcludingAt(s, c, i)] + [c]
    ensures SourceOf(n) == s[i..ExcludingAt(s, c, i) + 1]
  {
    ExcludingWrap(s, c, i);
  }

  /** A match covers exactly the text of its element with the delimiters around it. */
  lemma MatchSource<L>(s: string, i: nat, m: Match)
    requires MatchAt(s, i) == Some(m)
    ensures SourceOf<L>(NodeOf(m)) == s[i..m.end]
  {
    var bold := LazyAt(s, "**", "**", i);
    var under := ExcludingAt(s, '_', i);
    if bold != -1 {
      assert m == BoldMatch(s[i + 2..bold], bold + 2);
      LazySource<L>(s, "**", "**", i, NodeOf(m));
    } else if under != -1 {
      assert m == ItalicMatch(s[i + 1..under], Underscore, under + 1);
      ExcludingSource<L>(s, '_', i, NodeOf(m));
    } else {
      ItalicSource<L>(s, i, m);
    }
  }

  /** The same for the last two alternatives, `*...*` and `<em>...</em>`. */
  lemma ItalicSource<L>(s: string, i: nat, m: Match)
    requires MatchAt(s, i) == Some(m)
    requires LazyAt(s, "**", "**", i) == -1 && ExcludingAt(s, '_', i) == -1
    ensures SourceOf<L>(NodeOf(m)) == s[i..m.end]
  {
    var star := ExcludingAt(s, '*', i);
    var tag := LazyAt(s, "<em>", "</em>", i);
    if star != -1 {
      assert m == ItalicMatch(s[i + 1..star], Asterisk, star + 1);
      ExcludingSource<L>(s, '*', i, NodeOf(m));
    } else {
      assert m == ItalicMatch(s[i + 4..tag], EmTag, tag + 5);
      LazySource<L>(s, "<em>", "</em>", i, NodeOf(m));
    }
  }

  /** When no match is left, the rest of the line is one text string, if it is not empty. */
  lemma TokensDone<L>(s: string, last: nat)
    requires last <= |s| && NextMatch(s, last).None?
    ensures Tokens<L>(s, last) == if last < |s| then [Text(s[last..])] else []
  {
  }

  lemma {:induction false} TokensReconstruct<L>(s: string, last: nat)
    requires last <= |s|
    decreases |s| - last
    ensures Flatten(Tokens<L>(s, last)) == s[last..]
  {
    var nm := NextMatch(s, last);
    if nm.None? {
      TokensDone<L>(s, last);
    } else {
      var index, m := nm.value.0, nm.value.1;
      var plain: seq<Inline<L>> := if index > last then [Text(s[last..index])] else [];
      var rest := Tokens<L>(s, m.end);
      TokensStep<L>(s, last, index, m);
      assert Tokens<L>(s, last) == plain + [NodeOf(m)] + rest;
      TokensReconstruct<L>(s, m.end);
      MatchSource<L>(s, index, m);
      FlattenAppend(plain + [NodeOf(m)], rest);
      FlattenAppend(plain, [NodeOf(m)]);
      assert Flatten(plain) == s[last..index];
      assert Flatten([NodeOf<L>(m)]) == s[index..m.end];
      SliceJoin(s, last, index, m.end);
    }
  }

  lemma SliceJoin(s: string, a: nat, b: nat, c: nat)
    requires a <= b <= c <= |s|
    ensures s[a..] == s[a..b] + s[b..c] + s[c..]
  {
  }

  /**
   * Concatenating the plain strings and each element's text inside its own delimiters gives
   * the line back: no character is lost, reordered or duplicated, and matches do not overlap.
   */
  lemma ParseInlineReconstructs<L>(line: string)
    ensures Flatten(ParseInline<L>(line)) == line
  {
    TokensReconstruct<L>(line, 0);
  }

  /**
   * The shape of the result: every text string is non-empty, no two text strings are adjacent
   * (a plain run only ever sits before a match or at the end), and the line yields no `<br/>`
   * and no spliced node.
   */
  ghost predicate WellFormed<L>(nodes: seq<Inline<L>>) {
    && (forall k :: 0 <= k < |nodes| && nodes[k].Text? ==> nodes[k].text != "")
    && (forall k :: 0 <= k < |nodes| - 1 ==> !(nodes[k].Text? && nodes[k + 1].Text?))
    && (forall k :: 0 <= k < |nodes| ==> !nodes[k].Br? && !nodes[k].Embedded?)
  }

  lemma {:induction false} TokensWellFormed<L>(s: string, last: nat)
    requires last <= |s|
    decreases |s| - last
    ensures WellFormed(Tokens<L>(s, last))
  {
    var nm := NextMatch(s, last);
    if nm.None? {
      TokensDone<L>(s, last);
    } else {
      var index, m := nm.value.0, nm.value.1;
      var plain: seq<Inline<L>> := if index > last then [Text(s[last..index])] else [];
      var rest := Tokens<L>(s, m.end);
      TokensStep<L>(s, last, index, m);
      TokensWellFormed<L>(s, m.end);
      WellFormedJoin(plain, NodeOf<L>(m), rest);
    }
  }

  /** A plain run, then an element, then well-formed nodes, is well formed. */
  lemma WellFormedJoin<L>(plain: seq<Inline<L>>, node: Inline<L>, rest: seq<Inline<L>>)
    requires |plain| <= 1 && (forall k :: 0 <= k < |plain| ==> plain[k].Text? && plain[k].text != "")
    requires node.Strong? || node.Em?
    requires WellFormed(rest)
    ensures WellFormed(plain + [node] + rest)
  {
    var r := plain + [node] + rest;
    forall k | 0 <= k < |r| - 1 ensures !(r[k].Text? && r[k + 1].Text?) {
      if k >= |plain| + 1 {
        assert r[k] == rest[k - |plain| - 1] && r[k + 1] == rest[k + 1 - |plain| - 1];
      } else if k == |plain| {
        assert r[k] == node;
      } else {
        assert r[k + 1] == node;
      }
    }
    forall k | 0 <= k < |r| ensures (r[k].Text? ==> r[k].text != "") && !r[k].Br? && !r[k].Embedded? {
      if k > |plain| {
        assert r[k] == rest[k - |plain| - 1];
      } else if k == |plain| {
        assert r[k] == node;
      }
    }
  }

  lemma ParseInlineWellFormed<L>(line: string)
    ensures WellFormed(ParseInline<L>(line))
  {
    TokensWellFormed<L>(line, 0);
  }

  /** A line where none of the four alternatives matches anywhere is one text string, or no
      node at all when it is empty. */
  lemma ParseInlineNoMatch<L>(line: string)
    requires forall k :: 0 <= k < |line| ==> MatchAt(line, k).None?
    ensures ParseInline<L>(line) == if line == "" then [] else [Text(line)]
  {
    assert NextMatch(line, 0).None?;
  }

  /** A position that holds neither `*` nor `_` nor the start of `<em>` starts no match. */
  lemma NoMarkerNoMatch(s: string, i: nat)
    requires i < |s| ==> s[i] != '*' && s[i] != '_' && !JsText.OccursAt(s, "<em>", i)
    ensures MatchAt(s, i).None?
  {
    assert LazyAt(s, "**", "**", i) == -1 by {
      assert i + 2 <= |s| ==> s[i..i + 2][0] == s[i];
    }
  }

  /** A line without `*`, `_` and `<em>` becomes exactly one text string equal to the line;
      the empty line becomes no node. */
  lemma PlainLine<L>(line: string)
    requires '*' !in line && '_' !in line
    requires forall k :: !JsText.OccursAt(line, "<em>", k)
    ensures ParseInline<L>(line) == if line == "" then [] else [Text(line)]
  {
    forall k | 0 <= k < |line| ensures MatchAt(line, k).None? {
      assert line[k] in line;
      NoMarkerNoMatch(line, k);
    }
    ParseInlineNoMatch<L>(line);
  }

  /**
   * An opening `*` that is never closed stays literal: with a single `*` and no `_` or `<em>`
   * in the line, the line is one text string.
   */
  lemma UnclosedAsteriskIsLiteral<L>(line: string, star: nat)
    requires star < |line| && line[star] == '*'
    requires forall k :: 0 <= k < |line| && k != star ==> line[k] != '*'
    requires '_' !in line
    requires forall k :: !JsText.OccursAt(line, "<em>", k)
    ensures ParseInline<L>(line) == [Text(line)]
  {
    forall k | 0 <= k < |line| ensures MatchAt(line, k).None? {
      assert line[k] in line;
      if k != star {
        NoMarkerNoMatch(line, k);
      } else {
        assert LazyAt(line, "**", "**", k) == -1 by {
          if k + 1 < |line| { assert line[k + 1] != '*'; }
          assert k + 2 <= |line| ==> line[k..k + 2][1] == line[k + 1];
        }
        assert JsText.IndexOfFrom(line, ['*'], k + 1) == -1 by {
          forall j | k + 1 <= j ensures !JsText.OccursAt(line, ['*'], j) {
            assert j + 1 <= |line| ==> line[j..j + 1][0] == line[j];
          }
        }
        assert ExcludingAt(line, '*', k) == -1;
        assert LazyAt(line, "<em>", "</em>", k) == -1;
      }
    }
    ParseInlineNoMatch<L>(line);
  }

  /** At a position holding `**`, only the bold alternative can match: `**` takes priority over
      `*`, `_` and `<em>`. */
  lemma DoubleAsteriskIsBold(s: string, i: nat)
    requires JsText.OccursAt(s, "**", i)
    requires MatchAt(s, i).Some?
    ensures MatchAt(s, i).value.BoldMatch?
  {
    assert s[i] == '*' && s[i + 1] == '*' by {
      assert s[i..i + 2] == "**";
    }
  }

  /** `**a**` is one `<strong>a</strong>`, never an `<em>`. */
  lemma BoldExample<L>()
    ensures ParseInline<L>("**a**") == [Strong("a")]
  {
    var s := "**a**";
    assert LazyClose(s, "**", 2, 3) == 3 by {
      assert s[3..5] == "**";
    }
    assert LazyAt(s, "**", "**", 0) == 3 by {
      assert s[0..2] == "**";
    }
    assert s[2..3] == "a";
    assert MatchAt(s, 0) == Some(BoldMatch("a", 5));
    assert NextMatch(s, 0) == Some((0, BoldMatch("a", 5)));
    TokensStep<L>(s, 0, 0, BoldMatch("a", 5));
  }
}
