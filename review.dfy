/**
 * `parseReview`, `safeSliceMarkdown` and `createPreviewNodes`: a review's text becomes a list
 * of `<p>` paragraphs. Paragraphs are separated by a blank line (`/\r?\n\r?\n/`), lines inside
 * a paragraph by a line end (`/\r?\n/`) and become `<br/>` between them, and each line goes
 * through the inline scanner. A preview keeps whole paragraphs while a character budget lasts,
 * cuts the next one with the marker-aware slicer, and can append an ellipsis and a link to the
 * last paragraph.
 */
module Review {
  import opened Wrappers
  import JsText
  import Splitting
  import opened InlineFormat

  /** A `<p>` element and its children. */
  datatype Paragraph<L> = Paragraph(children: seq<Inline<L>>)

  /** The children of a paragraph: each line's nodes, with a `Br` after every line but the last. */
  function LineChildren<L>(lines: seq<string>): seq<Inline<L>> {
    if lines == [] then []
    else if |lines| == 1 then ParseInline(lines[0])
    else ParseInline(lines[0]) + [Br] + LineChildren(lines[1..])
  }

  function ParagraphOf<L>(paragraph: string): Paragraph<L> {
    Paragraph(LineChildren(Splitting.Split(paragraph, Splitting.LineEnd)))
  }

  /** `parseReview`: one paragraph per piece of the blank-line split, in order. */
  function ParseReview<L>(content: string): (r: seq<Paragraph<L>>)
    ensures |r| == |Splitting.Split(content, Splitting.BlankLine)| && |r| >= 1
  {
    var pieces := Splitting.Split(content, Splitting.BlankLine);
    seq(|pieces|, i requires 0 <= i < |pieces| => ParagraphOf<L>(pieces[i]))
  }

  // ---------------------------------------------------------------------------------------
  // Properties of parseReview

  /** The empty review is a single paragraph without children. */
  lemma EmptyReview<L>()
    ensures ParseReview<L>("") == [Paragraph([])]
  {
    ParseInlineNoMatch<L>("");
    assert Splitting.Split("", Splitting.LineEnd) == [""];
  }

  function CountBr<L>(nodes: seq<Inline<L>>): nat {
    if nodes == [] then 0 else (if nodes[0].Br? then 1 else 0) + CountBr(nodes[1..])
  }

  lemma {:induction false} CountBrAppend<L>(a: seq<Inline<L>>, b: seq<Inline<L>>)
    ensures CountBr(a + b) == CountBr(a) + CountBr(b)
  {
    if a == [] {
      assert a + b == b;
    } else {
      assert (a + b)[1..] == a[1..] + b;
      CountBrAppend(a[1..], b);
    }
  }

  lemma {:induction false} NoBrCount<L>(nodes: seq<Inline<L>>)
    requires forall k :: 0 <= k < |nodes| ==> !nodes[k].Br?
    ensures CountBr(nodes) == 0
  {
    if nodes != [] {
      assert !nodes[0].Br?;
      NoBrCount(nodes[1..]);
    }
  }

  /** A paragraph of `n` lines holds exactly `n - 1` line breaks. */
  lemma {:induction false} LineChildrenBr<L>(lines: seq<string>)
    requires |lines| >= 1
    ensures CountBr(LineChildren<L>(lines)) == |lines| - 1
  {
    ParseInlineWellFormed<L>(lines[0]);
    NoBrCount(ParseInline<L>(lines[0]));
    if |lines| > 1 {
      LineChildrenBr<L>(lines[1..]);
      CountBrAppend(ParseInline<L>(lines[0]), [Br]);
      CountBrAppend(ParseInline<L>(lines[0]) + [Br], LineChildren<L>(lines[1..]));
    }
  }

  /** Within each paragraph the breaks number one fewer than the lines. */
  lemma ParagraphBreaks<L>(content: string, i: nat)
    requires i < |ParseReview<L>(content)|
    ensures var lines := Splitting.Split(Splitting.Split(content, Splitting.BlankLine)[i], Splitting.LineEnd);
      CountBr(ParseReview<L>(content)[i].children) == |lines| - 1
  {
    var lines := Splitting.Split(Splitting.Split(content, Splitting.BlankLine)[i], Splitting.LineEnd);
    LineChildrenBr<L>(lines);
  }

  /** The text a paragraph came from, line breaks written back as `\n`. */
  function ReviewText<L>(paragraphs: seq<Paragraph<L>>): string {
    Splitting.Join(seq(|paragraphs|, i requires 0 <= i < |paragraphs| => Flatten(paragraphs[i].children)), "\n\n")
  }

  lemma {:induction false} LineChildrenFlatten<L>(lines: seq<string>)
    ensures Flatten(LineChildren<L>(lines)) == Splitting.Join(lines, "\n")
  {
    if lines != [] {
      ParseInlineReconstructs<L>(lines[0]);
      if |lines| > 1 {
        LineChildrenFlatten<L>(lines[1..]);
        FlattenAppend(ParseInline<L>(lines[0]), [Br]);
        FlattenAppend(ParseInline<L>(lines[0]) + [Br], LineChildren<L>(lines[1..]));
        assert Flatten<L>([Br]) == "\n";
      }
    }
  }

  lemma ParagraphRoundTrip<L>(paragraph: string)
    requires '\r' !in paragraph
    ensures Flatten(ParagraphOf<L>(paragraph).children) == paragraph
  {
    var lines := Splitting.Split(paragraph, Splitting.LineEnd);
    LineChildrenFlatten<L>(lines);
    Splitting.NoCarriageReturnCanonical(paragraph, Splitting.LineEnd);
    Splitting.SplitJoin(paragraph, Splitting.LineEnd);
  }

  /**
   * For a review without `\r`, writing every node back as its source text, breaks as `\n`,
   * and joining the paragraphs with a blank line gives the review back: nothing is lost,
   * duplicated or reordered.
   */
  lemma ParseReviewRoundTrip<L>(content: string)
    requires '\r' !in content
    ensures ReviewText(ParseReview<L>(content)) == content
  {
    var pieces := Splitting.Split(content, Splitting.BlankLine);
    var r := ParseReview<L>(content);
    Splitting.SplitAvoids(content, Splitting.BlankLine, '\r');
    var texts := seq(|r|, i requires 0 <= i < |r| => Flatten(r[i].children));
    forall i | 0 <= i < |r| ensures texts[i] == pieces[i] {
      ParagraphRoundTrip<L>(pieces[i]);
    }
    assert texts == pieces;
    Splitting.NoCarriageReturnCanonical(content, Splitting.BlankLine);
    Splitting.SplitJoin(content, Splitting.BlankLine);
  }

  // ---------------------------------------------------------------------------------------
  // safeSliceMarkdown

  /** The markers the slicer protects, in the order it handles them. */
  const Markers: seq<string> := ["**", "*", "_"]

  /**
   * One step of the reduction: find the last `mark`; if there is one, look for another `mark`
   * after it, and when none is found cut the text just before the last one.
   */
  function TrimMarker(current: string, mark: string): (r: string)
    ensures r <= current
  {
    var open := JsText.LastIndexOf(current, mark);
    if open == -1 then current
    else
      var close := JsText.IndexOfFrom(current, mark, open + |mark|);
      if close == -1 then current[..open] else current
  }

  function TrimAll(current: string, marks: seq<string>): (r: string)
    ensures r <= current
  {
    if marks == [] then current
    else
      var next := TrimMarker(current, marks[0]);
      assert TrimAll(next, marks[1..]) <= next;
      TrimAll(next, marks[1..])
  }

  /** `safeSliceMarkdown`: the first `limit` characters, then each marker trimmed in turn. */
  function SafeSliceMarkdown(text: string, limit: int): (r: string)
    ensures r <= JsText.Slice(text, 0, limit)
  {
    TrimAll(JsText.Slice(text, 0, limit), Markers)
  }

  /** The reduction written out: `**`, then `*`, then `_`. */
  lemma SafeSliceSteps(text: string, limit: int)
    ensures SafeSliceMarkdown(text, limit) ==
      TrimMarker(TrimMarker(TrimMarker(JsText.Slice(text, 0, limit), "**"), "*"), "_")
  {
    var sliced := JsText.Slice(text, 0, limit);
    var a := TrimMarker(sliced, "**");
    var b := TrimMarker(a, "*");
    var c := TrimMarker(b, "_");
    assert Markers[0] == "**" && Markers[1..] == ["*", "_"];
    assert ["*", "_"][1..] == ["_"] && ["_"][1..] == [];
    assert TrimAll(b, ["_"]) == TrimAll(c, []) == c;
    assert TrimAll(a, ["*", "_"]) == TrimAll(b, ["_"]);
    assert TrimAll(sliced, Markers) == TrimAll(a, ["*", "_"]);
  }

  /**
   * The search for a closing marker starts after the last occurrence, so it never finds one:
   * a marker that is absent leaves the text alone, and a marker that is present always cuts
   * the text just before its last occurrence, whether or not that occurrence was closed.
   */
  lemma TrimMarkerCutsAtLast(current: string, mark: string)
    requires mark != []
    ensures var last := JsText.LastIndexOf(current, mark);
      TrimMarker(current, mark) == if last == -1 then current else current[..last]
  {
    var open := JsText.LastIndexOf(current, mark);
    if open != -1 {
      assert JsText.IndexOfFrom(current, mark, open + |mark|) == -1;
    }
  }

  /** The preview never extends past the input, and never past `limit` characters. */
  lemma SafeSliceBounds(text: string, limit: int)
    ensures SafeSliceMarkdown(text, limit) <= text
    ensures limit >= 0 ==> |SafeSliceMarkdown(text, limit)| <= limit
  {
    var sliced := JsText.Slice(text, 0, limit);
    var b := JsText.SliceIndex(|text|, limit);
    assert sliced == text[..b];
    assert limit >= 0 ==> b <= limit;
  }

  /** Text without `*` and `_` is only sliced. */
  lemma SafeSliceWithoutMarkers(text: string, limit: int)
    requires '*' !in text && '_' !in text
    ensures SafeSliceMarkdown(text, limit) == JsText.Slice(text, 0, limit)
  {
    var sliced := JsText.Slice(text, 0, limit);
    SafeSliceBounds(text, limit);
    SafeSliceSteps(text, limit);
    assert sliced == text[..JsText.SliceIndex(|text|, limit)];
    forall j | 0 <= j < |sliced| ensures sliced[j] != '*' && sliced[j] != '_' {
      assert sliced[j] == text[j];
      assert text[j] in text;
    }
    NoOccurrenceKept(sliced, "**");
    NoOccurrenceKept(sliced, "*");
    NoOccurrenceKept(sliced, "_");
  }

  lemma NoOccurrenceKept(s: string, mark: string)
    requires mark != [] && forall j :: 0 <= j < |s| ==> s[j] != mark[0]
    ensures TrimMarker(s, mark) == s
  {
    forall j ensures !JsText.OccursAt(s, mark, j) {
      assert 0 <= j && j + |mark| <= |s| ==> s[j..j + |mark|][0] == s[j];
    }
    assert JsText.LastIndexOf(s, mark) == -1;
  }

  lemma LastOccurrence(s: string, mark: string, k: nat)
    requires JsText.OccursAt(s, mark, k)
    requires forall j :: k < j ==> !JsText.OccursAt(s, mark, j)
    ensures JsText.LastIndexOf(s, mark) == k
  {
  }

  /** `**a**` within a limit of 5 keeps only `*`: each marker cuts before its last occurrence. */
  lemma SafeSliceClosedBold()
    ensures SafeSliceMarkdown("**a**", 5) == "*"
  {
    var s := "**a**";
    SafeSliceSteps(s, 5);
    assert JsText.Slice(s, 0, 5) == s;
    ClosedBoldCut();
    OpenStarCut();
    NoOccurrenceKept("*", "_");
  }

  /** The last `**` of `**a**` is the closing one; it is cut off. */
  lemma ClosedBoldCut()
    ensures TrimMarker("**a**", "**") == "**a"
  {
    var s := "**a**";
    assert s[3..5] == "**";
    LastOccurrence(s, "**", 3);
    TrimMarkerCutsAtLast(s, "**");
    assert s[..3] == "**a";
  }

  /** The last `*` of `**a` is the second one; it and what follows are cut off. */
  lemma OpenStarCut()
    ensures TrimMarker("**a", "*") == "*"
  {
    var t := "**a";
    assert t[1..2] == "*" && t[2..3] == "a";
    LastOccurrence(t, "*", 1);
    TrimMarkerCutsAtLast(t, "*");
    assert t[..1] == "*";
  }

  // ---------------------------------------------------------------------------------------
  // createPreviewNodes

  /**
   * The paragraphs the preview keeps with `charsLeft` characters still to spend: stop once the
   * budget is used up; keep a paragraph that fits whole and charge it with the two characters
   * of the blank line after it; otherwise keep the paragraph cut by the slicer, and stop.
   */
  function PreviewTexts(paragraphs: seq<string>, charsLeft: int): (r: seq<string>)
    decreases |paragraphs|
    ensures |r| <= |paragraphs|
  {
    if paragraphs == [] || charsLeft <= 0 then []
    else if |paragraphs[0]| <= charsLeft then
      [paragraphs[0]] + PreviewTexts(paragraphs[1..], charsLeft - |paragraphs[0]| - 2)
    else [SafeSliceMarkdown(paragraphs[0], charsLeft)]
  }

  /**
   * The kept paragraphs are a prefix of the split: all but the last are unmodified, and the
   * last is a prefix of the paragraph it came from.
   */
  lemma {:induction false} PreviewPrefix(paragraphs: seq<string>, charsLeft: int)
    decreases |paragraphs|
    ensures var r := PreviewTexts(paragraphs, charsLeft);
      && (forall k :: 0 <= k < |r| - 1 ==> r[k] == paragraphs[k])
      && (|r| > 0 ==> r[|r| - 1] <= paragraphs[|r| - 1])
  {
    if paragraphs != [] && charsLeft > 0 {
      if |paragraphs[0]| <= charsLeft {
        var tail := paragraphs[1..];
        var c := charsLeft - |paragraphs[0]| - 2;
        var rest := PreviewTexts(tail, c);
        PreviewPrefix(tail, c);
        var r := [paragraphs[0]] + rest;
        assert PreviewTexts(paragraphs, charsLeft) == r;
        forall k | 0 <= k < |r| - 1 ensures r[k] == paragraphs[k] {
          if k > 0 {
            assert r[k] == rest[k - 1] && paragraphs[k] == tail[k - 1];
          }
        }
        if rest != [] {
          assert r[|r| - 1] == rest[|rest| - 1] && paragraphs[|r| - 1] == tail[|rest| - 1];
        }
      } else {
        SafeSliceBounds(paragraphs[0], charsLeft);
      }
    }
  }

  /** One turn of the budget loop, on the paragraphs from `i` on. */
  lemma PreviewStep(paragraphs: seq<string>, i: nat, charsLeft: int)
    requires i < |paragraphs|
    ensures PreviewTexts(paragraphs[i..], charsLeft) ==
      if charsLeft <= 0 then []
      else if |paragraphs[i]| <= charsLeft then
        [paragraphs[i]] + PreviewTexts(paragraphs[i + 1..], charsLeft - |paragraphs[i]| - 2)
      else [SafeSliceMarkdown(paragraphs[i], charsLeft)]
  {
    assert paragraphs[i..][0] == paragraphs[i];
    assert paragraphs[i..][1..] == paragraphs[i + 1..];
  }

  /** The ellipsis and the link appended to the children of the last paragraph, if a link is given. */
  function AppendLink<L>(nodes: seq<Paragraph<L>>, link: Option<L>): (r: seq<Paragraph<L>>)
    ensures |r| == |nodes|
    ensures link.None? || nodes == [] ==> r == nodes
    ensures forall k :: 0 <= k < |nodes| - 1 ==> r[k] == nodes[k]
    ensures link.Some? && nodes != [] ==>
      r[|r| - 1].children == nodes[|nodes| - 1].children + [Text("..."), Embedded(link.value)]
  {
    if link.Some? && |nodes| > 0 then
      nodes[|nodes| - 1 := Paragraph(nodes[|nodes| - 1].children + [Text("..."), Embedded(link.value)])]
    else nodes
  }

  /** What `createPreviewNodes` returns. */
  function Preview<L>(fullText: string, maxChars: int, link: Option<L>): seq<Paragraph<L>> {
    var kept := PreviewTexts(Splitting.Split(fullText, Splitting.BlankLine), maxChars);
    AppendLink(ParseReview<L>(Splitting.Join(kept, "\n\n")), link)
  }

  /** `createPreviewNodes`: the budget loop over the paragraphs, then parsing, then the link. */
  method CreatePreviewNodes<L>(fullText: string, maxChars: int, readMoreLink: Option<L>)
    returns (nodes: seq<Paragraph<L>>)
    ensures nodes == Preview(fullText, maxChars, readMoreLink)
  {
    var paragraphs := Splitting.Split(fullText, Splitting.BlankLine);
    var charsLeft := maxChars;
    var previewParagraphs: seq<string> := [];
    var i := 0;
    while i < |paragraphs|
      invariant 0 <= i <= |paragraphs|
      invariant previewParagraphs + PreviewTexts(paragraphs[i..], charsLeft) == PreviewTexts(paragraphs, maxChars)
    {
      var p := paragraphs[i];
      PreviewStep(paragraphs, i, charsLeft);
      if charsLeft <= 0 {
        break;
      }
      if |p| <= charsLeft {
        previewParagraphs := previewParagraphs + [p];
        charsLeft := charsLeft - (|p| + 2);
      } else {
        previewParagraphs := previewParagraphs + [SafeSliceMarkdown(p, charsLeft)];
        charsLeft := 0;
      }
      i := i + 1;
    }
    assert paragraphs[i..] == [] || charsLeft <= 0;
    assert PreviewTexts(paragraphs[i..], charsLeft) == [];
    assert previewParagraphs == PreviewTexts(paragraphs, maxChars);
    nodes := ParseReview<L>(Splitting.Join(previewParagraphs, "\n\n"));
    if readMoreLink.Some? && |nodes| > 0 {
      var last := nodes[|nodes| - 1];
      nodes := nodes[|nodes| - 1 := Paragraph(last.children + [Text("..."), Embedded(readMoreLink.value)])];
    }
  }

  // ---------------------------------------------------------------------------------------
  // Properties of the preview

  /** The kept paragraphs, joined by blank lines, never exceed a non-negative budget. */
  lemma {:induction false} PreviewLength(paragraphs: seq<string>, charsLeft: int)
    decreases |paragraphs|
    ensures |Splitting.Join(PreviewTexts(paragraphs, charsLeft), "\n\n")| <= if charsLeft < 0 then 0 else charsLeft
  {
    if paragraphs != [] && charsLeft > 0 {
      if |paragraphs[0]| <= charsLeft {
        var c := charsLeft - |paragraphs[0]| - 2;
        var rest := PreviewTexts(paragraphs[1..], c);
        PreviewLength(paragraphs[1..], c);
        if rest != [] {
          Splitting.JoinCons(paragraphs[0], rest, "\n\n");
        }
      } else {
        SafeSliceBounds(paragraphs[0], charsLeft);
      }
    }
  }

  /** When the text fits with room to spare, every paragraph is kept whole. */
  lemma {:induction false} PreviewKeepsAll(paragraphs: seq<string>, charsLeft: int)
    requires paragraphs != [] && |Splitting.Join(paragraphs, "\n\n")| < charsLeft
    decreases |paragraphs|
    ensures PreviewTexts(paragraphs, charsLeft) == paragraphs
  {
    if |paragraphs| > 1 {
      var rest := paragraphs[1..];
      Splitting.JoinCons(paragraphs[0], rest, "\n\n");
      assert [paragraphs[0]] + rest == paragraphs;
      var c := charsLeft - |paragraphs[0]| - 2;
      PreviewKeepsAll(rest, c);
      assert PreviewTexts(paragraphs, charsLeft) == [paragraphs[0]] + PreviewTexts(rest, c);
    }
  }

  /** A budget of zero or less keeps nothing, and the preview is one empty paragraph. */
  lemma PreviewNoBudget<L>(fullText: string, maxChars: int, link: Option<L>)
    requires maxChars <= 0
    ensures Preview<L>(fullText, maxChars, link) == AppendLink([Paragraph([])], link)
  {
    EmptyReview<L>();
  }

  /**
   * Three paragraphs of 100, 50 and 120 characters with a budget of 120: the first is kept
   * whole, leaving 18 after its blank line, and the second is cut to 18 by the slicer.
   */
  lemma PreviewBudgetExample(p1: string, p2: string, p3: string)
    requires |p1| == 100 && |p2| == 50 && |p3| == 120
    ensures PreviewTexts([p1, p2, p3], 120) == [p1, SafeSliceMarkdown(p2, 18)]
  {
    var s := [p1, p2, p3];
    var t := [p2, p3];
    assert s[0] == p1 && s[1..] == t && t[0] == p2;
    assert PreviewTexts(t, 18) == [SafeSliceMarkdown(p2, 18)];
  }
}
