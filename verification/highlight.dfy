/** `highlightText` and the clearing loop of `searchCriteria`.

    An element's text is abstracted to its text runs: the text nodes the
    tree walker visits, in document order. Highlighting replaces each run
    with a segment of pieces (plain text nodes and `highlight` spans);
    clearing turns every span back into a text node and normalises, which
    merges the pieces of a segment into one text node again. */
module Highlight {
  import opened Wrappers
  import opened Text

  datatype Piece = Plain(text: string) | Mark(text: string)

  type Segment = seq<Piece>

  /** The three parts a matching text node is cut into. */
  datatype Split = Split(before: string, hit: string, after: string)

  /** The text a segment shows, highlight spans included (`textContent`). */
  function TextOf(ps: Segment): string
    decreases |ps|
  {
    if |ps| == 0 then [] else ps[0].text + TextOf(ps[1..])
  }

  predicate HasMark(ps: Segment) {
    exists i :: 0 <= i < |ps| && ps[i].Mark?
  }

  /** The text of a sequence of segments, one after the other. */
  function Join(segs: seq<Segment>): string
    decreases |segs|
  {
    if |segs| == 0 then [] else TextOf(segs[0]) + Join(segs[1..])
  }

  /** The same text runs before any highlighting: one text node each. */
  function Unmarked(runs: seq<string>): (r: seq<Segment>)
    ensures |r| == |runs|
  {
    seq(|runs|, i requires 0 <= i < |runs| => [Plain(runs[i])])
  }

  /** The concatenation of the runs. */
  function Concat(runs: seq<string>): string
    decreases |runs|
  {
    if |runs| == 0 then [] else runs[0] + Concat(runs[1..])
  }

  /** Cutting a text node at the first case-insensitive occurrence of the
      (already lower-cased) term: nothing when the term does not occur; else
      the parts put back together give the text, the middle part lower-cases
      to the term, and no occurrence starts inside the first part. */
  function SplitAtFirst(text: string, term: string): (r: Option<Split>)
    ensures r.None? <==> !Includes(Lower(text), term)
    ensures r.Some? ==> r.value.before + r.value.hit + r.value.after == text
    ensures r.Some? ==> Lower(r.value.hit) == term
    ensures r.Some? ==> OccursAt(Lower(text), term, |r.value.before|)
    ensures r.Some? ==> forall j :: 0 <= j < |r.value.before| ==> !OccursAt(Lower(text), term, j)
  {
    var index := IndexOf(Lower(text), term);
    if index == -1 then None
    else
      var sp := Split(text[..index], text[index..index + |term|], text[index + |term|..]);
      assert sp.before + sp.hit + sp.after == text;
      LowerSlice(text, index, index + |term|);
      Some(sp)
  }

  /** The fragment that replaces a matching text node: an optional text
      node before, the span, and an optional text node after. Empty text
      nodes are not created, so the span sits right after the text before
      the match and right before the text after it. */
  function Fragment(sp: Split): (r: Segment)
    ensures TextOf(r) == sp.before + sp.hit + sp.after
    ensures exists k :: 0 <= k < |r| && r[k] == Mark(sp.hit) && TextOf(r[..k]) == sp.before && TextOf(r[k + 1..]) == sp.after
    ensures forall i :: 0 <= i < |r| && r[i].Mark? ==> r[i] == Mark(sp.hit)
    ensures forall i, j :: 0 <= i < |r| && 0 <= j < |r| && r[i].Mark? && r[j].Mark? ==> i == j
    ensures forall i :: 0 <= i < |r| && r[i].Plain? ==> r[i].text != []
    ensures forall i :: 0 <= i < |r| - 1 ==> r[i].Mark? || r[i + 1].Mark?
  {
    var pre := if sp.before != [] then [Plain(sp.before)] else [];
    var post := if sp.after != [] then [Plain(sp.after)] else [];
    var r := pre + [Mark(sp.hit)] + post;
    assert TextOf(pre) == sp.before;
    assert TextOf(post) == sp.after;
    assert TextOf([Mark(sp.hit)] + post) == sp.hit + sp.after;
    assert r[..|pre|] == pre;
    assert r[|pre| + 1..] == post;
    assert r[|pre|] == Mark(sp.hit);
    if pre == [] then r
    else
      assert r[1..] == [Mark(sp.hit)] + post;
      r
  }

  /** One text node after `highlightText`: untouched when the term does not
      occur, else cut at its first occurrence with the span around the
      occurrence. */
  function HighlightRun(text: string, term: string): (r: Segment)
    ensures TextOf(r) == text
    ensures HasMark(r) <==> Includes(Lower(text), term)
    ensures !HasMark(r) ==> r == [Plain(text)]
    ensures forall i, j :: 0 <= i < |r| && 0 <= j < |r| && r[i].Mark? && r[j].Mark? ==> i == j
    ensures forall i :: 0 <= i < |r| && r[i].Mark? ==> Lower(r[i].text) == term
    ensures HasMark(r) ==> 0 <= IndexOf(Lower(text), term)
    ensures HasMark(r) ==> exists k :: 0 <= k < |r| && r[k].Mark? && TextOf(r[..k]) == text[..IndexOf(Lower(text), term)]
    ensures HasMark(r) ==> forall i :: 0 <= i < |r| && r[i].Plain? ==> r[i].text != []
    ensures HasMark(r) ==> forall i :: 0 <= i < |r| - 1 ==> r[i].Mark? || r[i + 1].Mark?
  {
    match SplitAtFirst(text, term)
    case None =>
      assert !HasMark([Plain(text)]);
      [Plain(text)]
    case Some(sp) =>
      var index := IndexOf(Lower(text), term);
      assert index == |sp.before|;
      assert text[..index] == sp.before;
      Fragment(sp)
  }

  /** `highlightText` on an element: every text run is handled on its own,
      and gets a span exactly when it contains the term. */
  function HighlightElement(runs: seq<string>, term: string): (r: seq<Segment>)
    ensures |r| == |runs|
    ensures forall i :: 0 <= i < |runs| ==> TextOf(r[i]) == runs[i]
    ensures forall i :: 0 <= i < |runs| ==> (HasMark(r[i]) <==> Includes(Lower(runs[i]), term))
    ensures forall i :: 0 <= i < |runs| ==> r[i] == HighlightRun(runs[i], term)
  {
    seq(|runs|, i requires 0 <= i < |runs| => HighlightRun(runs[i], term))
  }

  /** Replacing each span of a segment by a text node and normalising: the
      pieces merge into one text node, which disappears if it is empty. A
      segment without a span is not touched. */
  function ClearRun(ps: Segment): (r: Segment)
    ensures TextOf(r) == TextOf(ps)
    ensures !HasMark(r)
  {
    if HasMark(ps) then
      var t := TextOf(ps);
      if t == [] then [] else [Plain(t)]
    else ps
  }

  function ClearElement(segs: seq<Segment>): (r: seq<Segment>)
    ensures |r| == |segs|
    ensures forall i :: 0 <= i < |segs| ==> TextOf(r[i]) == TextOf(segs[i]) && !HasMark(r[i])
  {
    seq(|segs|, i requires 0 <= i < |segs| => ClearRun(segs[i]))
  }

  /** Clearing after highlighting gives back each run as the single text
      node it was. A run is only lost when both it and the term are empty
      (the empty span then normalises away); parsed pages have no empty text
      nodes, and the script never highlights with an empty term. */
  lemma HighlightThenClear(runs: seq<string>, term: string)
    requires term != [] || forall i :: 0 <= i < |runs| ==> runs[i] != []
    ensures ClearElement(HighlightElement(runs, term)) == Unmarked(runs)
  {
    var h := HighlightElement(runs, term);
    var c := ClearElement(h);
    forall i | 0 <= i < |runs|
      ensures c[i] == [Plain(runs[i])]
    {
      var seg := HighlightRun(runs[i], term);
      if HasMark(seg) {
        var k :| 0 <= k < |seg| && seg[k].Mark?;
        assert |seg[k].text| == |term|;
        TextContainsPiece(seg, k);
      }
    }
  }

  /** Every piece's text is part of the segment's text. */
  lemma {:induction false} TextContainsPiece(ps: Segment, k: nat)
    requires k < |ps|
    ensures |ps[k].text| <= |TextOf(ps)|
    decreases |ps|
  {
    if k > 0 {
      TextContainsPiece(ps[1..], k - 1);
    }
  }

  /** Clearing twice is clearing once. */
  lemma ClearIdempotent(segs: seq<Segment>)
    ensures ClearElement(ClearElement(segs)) == ClearElement(segs)
  {
  }

  /** Highlighting never changes an element's `textContent`: the heading and
      criterion texts that later searches read are the same with or without
      spans. */
  lemma {:induction false} HighlightKeepsText(runs: seq<string>, term: string)
    ensures Join(HighlightElement(runs, term)) == Concat(runs)
    decreases |runs|
  {
    if |runs| > 0 {
      HighlightKeepsText(runs[1..], term);
      assert HighlightElement(runs, term)[1..] == HighlightElement(runs[1..], term);
    }
  }
}
