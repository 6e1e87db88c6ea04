/**
 * `String.prototype.split` with the three separators the application uses: the regular
 * expressions `/\r?\n\r?\n/` (a blank line) and `/\r?\n/` (a line end), and the literal `'\n\n'`.
 * Splitting scans left to right; at the first position where the separator matches, the text
 * before it becomes a piece and scanning resumes after the match. An empty string splits into
 * one empty piece, because none of these separators matches the empty string.
 */
module Splitting {
  import JsText

  datatype Separator = BlankLine | LineEnd | DoubleNewline

  /** The length of `/\r?\n/` matched at `q`, or 0 when it does not match there. */
  function NewlineAt(s: string, q: nat): (n: nat)
    ensures n <= 2 && (n > 0 ==> q + n <= |s|)
    ensures n == 1 ==> s[q] == '\n'
    ensures n == 2 ==> s[q] == '\r' && s[q + 1] == '\n'
    ensures n == 0 ==> q >= |s| || s[q] != '\n'
  {
    if q + 1 < |s| && s[q] == '\r' && s[q + 1] == '\n' then 2
    else if q < |s| && s[q] == '\n' then 1
    else 0
  }

  /**
   * The length of the separator matched at `q`, or 0 when it does not match there. The
   * optional `\r`s are greedy, and giving one up never lets a failed match succeed.
   */
  function MatchLength(s: string, q: nat, sep: Separator): (n: nat)
    ensures n > 0 ==> q + n <= |s|
  {
    match sep
    case LineEnd => NewlineAt(s, q)
    case BlankLine =>
      var a := NewlineAt(s, q);
      if a == 0 then 0
      else
        var b := NewlineAt(s, q + a);
        if b == 0 then 0 else a + b
    case DoubleNewline =>
      if q + 1 < |s| && s[q] == '\n' && s[q + 1] == '\n' then 2 else 0
  }

  /** The text a separator stands for when the input has no `\r`. */
  function SepText(sep: Separator): string {
    match sep
    case LineEnd => "\n"
    case BlankLine => "\n\n"
    case DoubleNewline => "\n\n"
  }

  /** The scan: the current piece starts at `p`, and `q` is the next position to try. */
  function SplitFrom(s: string, sep: Separator, p: nat, q: nat): (r: seq<string>)
    requires p <= q <= |s|
    decreases |s| - q
    ensures |r| >= 1
  {
    if q >= |s| then [s[p..]]
    else
      var n := MatchLength(s, q, sep);
      if n == 0 then SplitFrom(s, sep, p, q + 1)
      else [s[p..q]] + SplitFrom(s, sep, q + n, q + n)
  }

  /** `s.split(sep)`. */
  function Split(s: string, sep: Separator): (r: seq<string>)
    ensures |r| >= 1
    ensures s == "" ==> r == [""]
  {
    SplitFrom(s, sep, 0, 0)
  }

  /** `pieces.join(glue)`. */
  function Join(pieces: seq<string>, glue: string): string {
    if pieces == [] then ""
    else if |pieces| == 1 then pieces[0]
    else pieces[0] + glue + Join(pieces[1..], glue)
  }

  lemma JoinAppend(pieces: seq<string>, last: string, glue: string)
    requires pieces != []
    ensures Join(pieces + [last], glue) == Join(pieces, glue) + glue + last
  {
    if |pieces| == 1 {
    } else {
      assert (pieces + [last])[1..] == pieces[1..] + [last];
      JoinAppend(pieces[1..], last, glue);
    }
  }

  lemma JoinCons(first: string, rest: seq<string>, glue: string)
    requires rest != []
    ensures Join([first] + rest, glue) == first + glue + Join(rest, glue)
  {
    assert ([first] + rest)[1..] == rest;
  }

  /** Every separator match in `s` is exactly the separator's text. */
  ghost predicate CanonicalMatches(s: string, sep: Separator) {
    forall q :: 0 <= q < |s| && MatchLength(s, q, sep) > 0 ==>
      s[q..q + MatchLength(s, q, sep)] == SepText(sep)
  }

  /** Without `\r`, `\r?` never matches, so every match is the plain separator text. */
  lemma NoCarriageReturnCanonical(s: string, sep: Separator)
    requires '\r' !in s
    ensures CanonicalMatches(s, sep)
  {
    forall q | 0 <= q < |s| && MatchLength(s, q, sep) > 0
      ensures s[q..q + MatchLength(s, q, sep)] == SepText(sep)
    {
      if sep == BlankLine {
        assert s[q] != '\r';
        if q + 1 < |s| { assert s[q + 1] != '\r'; }
      } else if sep == LineEnd {
        assert s[q] != '\r';
      }
    }
  }

  /** The literal separator `'\n\n'` only ever matches its own text. */
  lemma DoubleNewlineCanonical(s: string)
    ensures CanonicalMatches(s, DoubleNewline)
  {
  }

  lemma {:induction false} SplitFromJoin(s: string, sep: Separator, p: nat, q: nat)
    requires p <= q <= |s|
    requires CanonicalMatches(s, sep)
    decreases |s| - q, 1
    ensures Join(SplitFrom(s, sep, p, q), SepText(sep)) == s[p..]
  {
    if q < |s| {
      if MatchLength(s, q, sep) == 0 {
        SplitFromJoin(s, sep, p, q + 1);
      } else {
        SplitFromJoinAtMatch(s, sep, p, q);
      }
    }
  }

  /** The step of `SplitFromJoin` where the separator matches at `q`. */
  lemma {:induction false} SplitFromJoinAtMatch(s: string, sep: Separator, p: nat, q: nat)
    requires p <= q < |s| && MatchLength(s, q, sep) > 0
    requires CanonicalMatches(s, sep)
    decreases |s| - q, 0
    ensures Join(SplitFrom(s, sep, p, q), SepText(sep)) == s[p..]
  {
    var n := MatchLength(s, q, sep);
    var rest := SplitFrom(s, sep, q + n, q + n);
    SplitFromJoin(s, sep, q + n, q + n);
    assert s[q..q + n] == SepText(sep);
    PieceThenRest(s, p, q, n, rest, SepText(sep));
    assert SplitFrom(s, sep, p, q) == [s[p..q]] + rest;
  }

  /** A piece, the separator text matched after it, and the rest joined back give the whole tail. */
  lemma PieceThenRest(s: string, p: nat, q: nat, n: nat, rest: seq<string>, glue: string)
    requires p <= q && q + n <= |s| && rest != []
    requires s[q..q + n] == glue && Join(rest, glue) == s[q + n..]
    ensures Join([s[p..q]] + rest, glue) == s[p..]
  {
    JoinCons(s[p..q], rest, glue);
    SliceConcat(s, p, q, q + n);
  }

  lemma SliceConcat(s: string, p: nat, q: nat, r: nat)
    requires p <= q <= r <= |s|
    ensures s[p..] == s[p..q] + s[q..r] + s[r..]
  {
  }

  /** Joining the pieces with the separator's text gives the input back. */
  lemma SplitJoin(s: string, sep: Separator)
    requires CanonicalMatches(s, sep)
    ensures Join(Split(s, sep), SepText(sep)) == s
  {
    SplitFromJoin(s, sep, 0, 0);
  }

  /** Splitting on `'\n\n'` and joining with `'\n\n'` gives any input back. */
  lemma DoubleNewlineSplitJoin(s: string)
    ensures Join(Split(s, DoubleNewline), "\n\n") == s
  {
    DoubleNewlineCanonical(s);
    SplitJoin(s, DoubleNewline);
  }

  /** A string in which the separator never matches is a single piece. */
  lemma {:induction false} SplitFromNoMatch(s: string, sep: Separator, p: nat, q: nat)
    requires p <= q <= |s|
    requires forall k :: q <= k < |s| ==> MatchLength(s, k, sep) == 0
    decreases |s| - q
    ensures SplitFrom(s, sep, p, q) == [s[p..]]
  {
    if q < |s| {
      SplitFromNoMatch(s, sep, p, q + 1);
    }
  }

  /** A line break `'\n'` is needed for any separator to match. */
  lemma NoNewlineSinglePiece(s: string, sep: Separator)
    requires '\n' !in s
    ensures Split(s, sep) == [s]
  {
    forall k | 0 <= k < |s| ensures MatchLength(s, k, sep) == 0 {
      if k + 1 < |s| { assert s[k + 1] != '\n'; }
      assert s[k] != '\n';
    }
    SplitFromNoMatch(s, sep, 0, 0);
  }

  /** No piece contains `c`. */
  predicate Avoids(pieces: seq<string>, c: char) {
    forall k :: 0 <= k < |pieces| ==> c !in pieces[k]
  }

  lemma AvoidsCons(first: string, rest: seq<string>, c: char)
    requires c !in first && Avoids(rest, c)
    ensures Avoids([first] + rest, c)
  {
    var r := [first] + rest;
    forall k | 0 <= k < |r| ensures c !in r[k] {
      if k > 0 {
        assert r[k] == rest[k - 1];
      }
    }
  }

  /** A character that does not occur in the input does not occur in any piece. */
  lemma {:induction false} SplitFromAvoids(s: string, sep: Separator, p: nat, q: nat, c: char)
    requires p <= q <= |s|
    requires forall j :: p <= j < |s| ==> s[j] != c
    decreases |s| - q
    ensures Avoids(SplitFrom(s, sep, p, q), c)
  {
    if q >= |s| {
      NotInSlice(s, p, |s|, c);
      assert s[p..] == s[p..|s|];
    } else {
      var n := MatchLength(s, q, sep);
      if n == 0 {
        assert SplitFrom(s, sep, p, q) == SplitFrom(s, sep, p, q + 1);
        SplitFromAvoids(s, sep, p, q + 1, c);
      } else {
        var rest := SplitFrom(s, sep, q + n, q + n);
        var r := [s[p..q]] + rest;
        assert SplitFrom(s, sep, p, q) == r;
        SplitFromAvoids(s, sep, q + n, q + n, c);
        NotInSlice(s, p, q, c);
        AvoidsCons(s[p..q], rest, c);
      }
    }
  }

  lemma NotInSlice(s: string, a: nat, b: nat, c: char)
    requires a <= b <= |s|
    requires forall j :: a <= j < b ==> s[j] != c
    ensures c !in s[a..b]
  {
    forall x | x in s[a..b] ensures x != c {
      var i :| 0 <= i < b - a && s[a..b][i] == x;
      assert s[a + i] == x;
    }
  }

  lemma SplitAvoids(s: string, sep: Separator, c: char)
    requires c !in s
    ensures Avoids(Split(s, sep), c)
  {
    forall j | 0 <= j < |s| ensures s[j] != c {
      assert s[j] in s;
    }
    SplitFromAvoids(s, sep, 0, 0, c);
  }

  // ----- Where the pieces are cut -----

  /** The separator matches nowhere in `s[a..b]`. */
  predicate NoMatchBetween(s: string, sep: Separator, a: nat, b: nat) {
    forall m :: a <= m < b ==> MatchLength(s, m, sep) == 0
  }

  /** Where the separator does not match at `q`, the scan moves on to `q + 1`. */
  lemma SkipNoMatch(s: string, sep: Separator, p: nat, q: nat)
    requires p <= q < |s| && MatchLength(s, q, sep) == 0
    ensures SplitFrom(s, sep, p, q) == SplitFrom(s, sep, p, q + 1)
  {
  }

  /** Where the separator matches at `q`, the scan cuts the piece `s[p..q]` and resumes after it. */
  lemma CutAtMatch(s: string, sep: Separator, p: nat, q: nat)
    requires p <= q < |s| && MatchLength(s, q, sep) > 0
    ensures SplitFrom(s, sep, p, q) ==
      [s[p..q]] + SplitFrom(s, sep, q + MatchLength(s, q, sep), q + MatchLength(s, q, sep))
  {
  }

  /**
   * The pieces `r` of the scan of `s` from `p` are cut at the leftmost match: the first piece
   * runs from `p` up to the first match at or after `p`, or to the end when there is none, and
   * the other pieces are the scan resumed right after that match.
   */
  predicate CutAtLeftmost(s: string, sep: Separator, p: nat, r: seq<string>)
    requires p <= |s| && |r| >= 1
  {
    var k := p + |r[0]|;
    && k <= |s| && r[0] == s[p..k]
    && NoMatchBetween(s, sep, p, k)
    && (|r| == 1 <==> k == |s|)
    && (k < |s| ==> (MatchLength(s, k, sep) > 0
          && r[1..] == SplitFrom(s, sep, k + MatchLength(s, k, sep), k + MatchLength(s, k, sep))))
  }

  lemma {:induction false} SplitFromFirst(s: string, sep: Separator, p: nat, q: nat)
    requires p <= q <= |s|
    requires NoMatchBetween(s, sep, p, q)
    decreases |s| - q
    ensures CutAtLeftmost(s, sep, p, SplitFrom(s, sep, p, q))
  {
    if q >= |s| {
      EndIsLeftmost(s, sep, p, SplitFrom(s, sep, p, q));
    } else if MatchLength(s, q, sep) == 0 {
      SkipNoMatch(s, sep, p, q);
      assert NoMatchBetween(s, sep, p, q + 1);
      SplitFromFirst(s, sep, p, q + 1);
    } else {
      CutAtMatch(s, sep, p, q);
      var n := MatchLength(s, q, sep);
      MatchIsLeftmost(s, sep, p, q, n, SplitFrom(s, sep, q + n, q + n), SplitFrom(s, sep, p, q));
    }
  }

  /** With no match from `p` on, the one piece is the rest of the input. */
  lemma EndIsLeftmost(s: string, sep: Separator, p: nat, r: seq<string>)
    requires p <= |s| && r == [s[p..]]
    requires NoMatchBetween(s, sep, p, |s|)
    ensures CutAtLeftmost(s, sep, p, r)
  {
  }

  /** With the first match from `p` at `q`, of length `n`, the first piece ends at `q`. */
  lemma MatchIsLeftmost(s: string, sep: Separator, p: nat, q: nat, n: nat, rest: seq<string>, r: seq<string>)
    requires p <= q < |s| && n == MatchLength(s, q, sep) && n > 0
    requires NoMatchBetween(s, sep, p, q)
    requires rest == SplitFrom(s, sep, q + n, q + n) && r == [s[p..q]] + rest
    ensures CutAtLeftmost(s, sep, p, r)
  {
    assert r[0] == s[p..q] && |r| > 1;
    assert p + |r[0]| == q;
    assert r[1..] == rest;
  }

  /**
   * `split` cuts at the leftmost matches: the first piece is the text before the first match
   * (the whole input when there is none), and the other pieces are the scan resumed right
   * after that match, which again cuts at the leftmost match from there.
   */
  lemma SplitLeftmost(s: string, sep: Separator)
    ensures CutAtLeftmost(s, sep, 0, Split(s, sep))
  {
    SplitFromFirst(s, sep, 0, 0);
  }

  /** A match inside a slice is a match in the input at the same place. */
  lemma MatchInSlice(s: string, a: nat, b: nat, j: nat, sep: Separator)
    requires a <= b <= |s| && MatchLength(s[a..b], j, sep) > 0
    ensures MatchLength(s, a + j, sep) > 0
  {
    var t := s[a..b];
    assert t[j] == s[a + j];
    if j + 1 < |t| {
      assert t[j + 1] == s[a + j + 1];
    }
    var x := NewlineAt(t, j);
    if sep == BlankLine && j + x + 1 < |t| {
      assert t[j + x] == s[a + j + x] && t[j + x + 1] == s[a + j + x + 1];
    } else if sep == BlankLine && j + x < |t| {
      assert t[j + x] == s[a + j + x];
    }
  }

  /** No piece contains a match of the separator. */
  predicate Clean(pieces: seq<string>, sep: Separator) {
    forall k, j :: 0 <= k < |pieces| && 0 <= j <= |pieces[k]| ==> MatchLength(pieces[k], j, sep) == 0
  }

  /** A list whose first piece holds no match and whose other pieces are clean is clean. */
  lemma CleanFromHead(r: seq<string>, sep: Separator)
    requires |r| >= 1 && Clean(r[1..], sep)
    requires forall j :: 0 <= j <= |r[0]| ==> MatchLength(r[0], j, sep) == 0
    ensures Clean(r, sep)
  {
    forall k, j | 0 <= k < |r| && 0 <= j <= |r[k]| ensures MatchLength(r[k], j, sep) == 0 {
      if k > 0 {
        assert r[k] == r[1..][k - 1];
      }
    }
  }

  /** The first piece of the scan holds no match. */
  lemma FirstPieceClean(s: string, sep: Separator, p: nat, r: seq<string>)
    requires p <= |s| && |r| >= 1 && CutAtLeftmost(s, sep, p, r)
    ensures forall j :: 0 <= j <= |r[0]| ==> MatchLength(r[0], j, sep) == 0
  {
    var k := p + |r[0]|;
    assert NoMatchBetween(s, sep, p, k);
    forall j | 0 <= j <= |r[0]| ensures MatchLength(r[0], j, sep) == 0 {
      if MatchLength(r[0], j, sep) > 0 {
        MatchInSlice(s, p, k, j, sep);
      }
    }
  }

  lemma {:induction false} SplitFromClean(s: string, sep: Separator, p: nat)
    requires p <= |s|
    decreases |s| - p
    ensures Clean(SplitFrom(s, sep, p, p), sep)
  {
    var r := SplitFrom(s, sep, p, p);
    SplitFromFirst(s, sep, p, p);
    FirstPieceClean(s, sep, p, r);
    var k := p + |r[0]|;
    if k < |s| {
      var n := MatchLength(s, k, sep);
      SplitFromClean(s, sep, k + n);
    } else {
      assert r[1..] == [];
    }
    CleanFromHead(r, sep);
  }

  /** No piece of `split` contains a match of the separator: every match was cut out. */
  lemma SplitPiecesClean(s: string, sep: Separator)
    ensures Clean(Split(s, sep), sep)
  {
    SplitFromClean(s, sep, 0);
  }

  /** No piece of a split on a line end holds a `'\n'`. */
  lemma LinesHaveNoNewline(s: string)
    ensures var r := Split(s, LineEnd); forall k :: 0 <= k < |r| ==> '\n' !in r[k]
  {
    var r := Split(s, LineEnd);
    SplitPiecesClean(s, LineEnd);
    forall k | 0 <= k < |r| ensures '\n' !in r[k] {
      forall j | 0 <= j < |r[k]| ensures r[k][j] != '\n' {
        assert MatchLength(r[k], j, LineEnd) == 0;
      }
    }
  }

  /** No piece of a split on a blank line or on `'\n\n'` holds two `'\n'` in a row. */
  lemma PiecesHaveNoDoubleNewline(s: string, sep: Separator)
    requires sep != LineEnd
    ensures var r := Split(s, sep);
      forall k, j :: 0 <= k < |r| && 0 <= j < |r[k]| - 1 ==> !(r[k][j] == '\n' && r[k][j + 1] == '\n')
  {
    var r := Split(s, sep);
    SplitPiecesClean(s, sep);
    forall k, j | 0 <= k < |r| && 0 <= j < |r[k]| - 1 ensures !(r[k][j] == '\n' && r[k][j + 1] == '\n') {
      assert MatchLength(r[k], j, sep) == 0;
    }
  }

  /** A review of two paragraphs: `"a\n\nb"` splits at its blank line into `"a"` and `"b"`. */
  lemma SplitBlankLineExample()
    ensures Split("a\n\nb", BlankLine) == ["a", "b"]
  {
    var s := "a\n\nb";
    assert s[0] == 'a' && s[1] == '\n' && s[2] == '\n' && s[3] == 'b';
    assert MatchLength(s, 0, BlankLine) == 0;
    SkipNoMatch(s, BlankLine, 0, 0);
    assert NewlineAt(s, 1) == 1 && NewlineAt(s, 2) == 1;
    assert MatchLength(s, 1, BlankLine) == 2;
    CutAtMatch(s, BlankLine, 0, 1);
    assert MatchLength(s, 3, BlankLine) == 0;
    SkipNoMatch(s, BlankLine, 3, 3);
    assert SplitFrom(s, BlankLine, 3, 4) == [s[3..]];
    assert s[0..1] == "a" && s[3..] == "b";
  }
}
