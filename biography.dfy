/**
 * The biography block of the person page. A biography longer than `BioLimit` characters shows
 * only its first `BioLimit` characters, split into paragraphs at every `'\n\n'`, the last one
 * ending in "...", with a "Read more" button below; pressing it shows the whole biography for
 * good. An empty or missing biography renders nothing.
 */
module Biography {
  import opened Wrappers
  import JsText
  import Splitting

  /** `BIO_LIMIT`. */
  const BioLimit: nat := 850

  /** `text.split('\n\n')`. */
  function Paragraphs(text: string): (r: seq<string>)
    ensures |r| >= 1
  {
    Splitting.Split(text, Splitting.DoubleNewline)
  }

  /** The pieces with `'...'` appended to the last one. */
  function WithEllipsis(pieces: seq<string>): (r: seq<string>)
    requires |pieces| >= 1
  {
    pieces[..|pieces| - 1] + [pieces[|pieces| - 1] + "..."]
  }

  /** Appending to the last piece appends to the joined text. */
  lemma JoinWithEllipsis(pieces: seq<string>, glue: string)
    requires |pieces| >= 1
    ensures Splitting.Join(WithEllipsis(pieces), glue) == Splitting.Join(pieces, glue) + "..."
  {
    var n := |pieces|;
    if n > 1 {
      var init := pieces[..n - 1];
      assert pieces == init + [pieces[n - 1]];
      Splitting.JoinAppend(init, pieces[n - 1], glue);
      Splitting.JoinAppend(init, pieces[n - 1] + "...", glue);
    }
  }

  /**
   * The truncated branch: the first `BIO_LIMIT` characters split into paragraphs, and the last
   * paragraph overwritten in place with `'...'` appended. The paragraphs are the cut text's,
   * all but the last unchanged, and joined back they give the cut text followed by `'...'`.
   */
  method ShortParagraphs(bio: string) returns (paras: seq<string>)
    ensures var pieces := Paragraphs(JsText.Slice(bio, 0, BioLimit));
      && |paras| == |pieces|
      && (forall i :: 0 <= i < |paras| - 1 ==> paras[i] == pieces[i])
      && paras[|paras| - 1] == pieces[|pieces| - 1] + "..."
    ensures Splitting.Join(paras, "\n\n") == JsText.Take(bio, BioLimit) + "..."
  {
    var shortText := JsText.Slice(bio, 0, BioLimit);
    var pieces := Paragraphs(shortText);
    var a := new string[|pieces|](i requires 0 <= i < |pieces| => pieces[i]);
    var lastParaIndex := a.Length - 1;
    a[lastParaIndex] := a[lastParaIndex] + "...";
    paras := a[..];
    assert paras == WithEllipsis(pieces);
    JoinWithEllipsis(pieces, "\n\n");
    Splitting.DoubleNewlineSplitJoin(shortText);
  }

  /** The "Read more" button is shown while the biography is collapsed and too long. */
  predicate ReadMoreShown(bio: string, showFullBio: bool) {
    !showFullBio && |bio| > BioLimit
  }

  /** What the block shows: its paragraphs and whether the button is there. */
  datatype View = View(paragraphs: seq<string>, readMore: bool)

  /** The block for a biography and the state of the button; `None` when nothing is rendered. */
  function ViewOf(biography: Option<string>, showFullBio: bool): (v: Option<View>)
    ensures v.None? <==> !JsText.Truthy(biography)
    ensures v.Some? ==> v.value.readMore == ReadMoreShown(biography.value, showFullBio)
  {
    if !JsText.Truthy(biography) then None
    else
      var bio := biography.value;
      var paras := if showFullBio || |bio| <= BioLimit then Paragraphs(bio)
        else WithEllipsis(Paragraphs(JsText.Slice(bio, 0, BioLimit)));
      Some(View(paras, ReadMoreShown(bio, showFullBio)))
  }

  /**
   * Without the button, the paragraphs are the whole biography split at `'\n\n'`; with it, they
   * are its first `BioLimit` characters split the same way, with `'...'` after the last one only.
   */
  lemma ViewText(biography: Option<string>, showFullBio: bool)
    requires JsText.Truthy(biography)
    ensures var v := ViewOf(biography, showFullBio).value; var bio := biography.value;
      !v.readMore ==> v.paragraphs == Paragraphs(bio) && Splitting.Join(v.paragraphs, "\n\n") == bio
    ensures var v := ViewOf(biography, showFullBio).value; var bio := biography.value;
      v.readMore ==> Splitting.Join(v.paragraphs, "\n\n") == bio[..BioLimit] + "..."
  {
    var bio := biography.value;
    Splitting.DoubleNewlineSplitJoin(bio);
    var shortText := JsText.Slice(bio, 0, BioLimit);
    Splitting.DoubleNewlineSplitJoin(shortText);
    JoinWithEllipsis(Paragraphs(shortText), "\n\n");
  }

  /** The component: its biography prop and its `showFullBio` state. */
  class BiographyBlock {
    const biography: Option<string>
    var showFullBio: bool

    /** The block mounts collapsed. */
    constructor(biography: Option<string>)
      ensures this.biography == biography && !showFullBio
    {
      this.biography := biography;
      showFullBio := false;
    }

    /** What the block currently shows. */
    function Current(): Option<View>
      reads this
    {
      ViewOf(biography, showFullBio)
    }

    /** The render: the whole split, or the truncated branch with its in-place overwrite. */
    method Render() returns (v: Option<View>)
      ensures v == Current()
    {
      if !JsText.Truthy(biography) {
        return None;
      }
      var bio := biography.value;
      var paras;
      if showFullBio || |bio| <= BioLimit {
        paras := Paragraphs(bio);
      } else {
        paras := ShortParagraphs(bio);
        assert paras == WithEllipsis(Paragraphs(JsText.Slice(bio, 0, BioLimit)));
      }
      v := Some(View(paras, ReadMoreShown(bio, showFullBio)));
    }

    /**
     * A click on "Read more", which exists only while it is shown. The state only ever becomes
     * true, and from then on the whole biography shows, without the button.
     */
    method ReadMore()
      requires Current().Some? && Current().value.readMore
      modifies this
      ensures showFullBio
      ensures Current().Some? && !Current().value.readMore
      ensures Splitting.Join(Current().value.paragraphs, "\n\n") == biography.value
    {
      showFullBio := true;
      ViewText(biography, showFullBio);
    }
  }
}
