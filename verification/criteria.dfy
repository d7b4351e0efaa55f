/** The checklist criteria and the decisions `applyFilters`,
    `searchCriteria`, `updateSearchMatches`, `checkAll` and `uncheckAll`
    take about them. A page's criteria are a sequence in document order. */
module Criteria {
  import opened Wrappers
  import opened Text
  import opened Filters
  import opened Sections

  /** One `.criterion` element, reduced to what the script reads or writes:
      its `data-level` attribute (read by the level summary), the text of its
      `.level-badge` if it has one (read by the filter), its `textContent`,
      the context chain used to find its section heading, the number of
      `label` elements inside it, its checkbox and its `hidden` class. */
  datatype Criterion = Criterion(
    dataLevel: Option<string>,
    badge: Option<string>,
    text: string,
    context: Context,
    labels: nat,
    checked: bool,
    hidden: bool)

  /** The level the filter looks up: the trimmed badge text, or the empty
      string when there is no badge. */
  function BadgeLevel(c: Criterion): (r: string)
    ensures c.badge.None? ==> r == []
    ensures c.badge.Some? ==> |r| <= |c.badge.value|
    ensures c.badge.Some? ==> LeadingSpaces(c.badge.value) + |r| <= |c.badge.value|
    ensures c.badge.Some? ==> r == c.badge.value[LeadingSpaces(c.badge.value)..LeadingSpaces(c.badge.value) + |r|]
    ensures c.badge.Some? ==> AllSpace(c.badge.value[LeadingSpaces(c.badge.value) + |r|..])
    ensures r == [] || (!IsJsSpace(r[0]) && !IsJsSpace(r[|r| - 1]))
  {
    match c.badge
    case None => ""
    case Some(t) =>
      Trim(t)
  }

  /** A badge that reads a level with white space around it (the markup's
      indentation, say) filters as exactly that level. */
  lemma PaddedBadgeLevel(c: Criterion, pre: string, level: string, post: string)
    requires level in Levels && AllSpace(pre) && AllSpace(post)
    requires c.badge == Some(pre + level + post)
    ensures BadgeLevel(c) == level
  {
    assert !IsJsSpace('A');
    assert level[0] == 'A' && level[|level| - 1] == 'A';
    TrimPadded(pre, level, post);
    assert BadgeLevel(c) == Trim(pre + level + post);
  }

  /** The criterion's section heading contains the (lower-cased) term: the
      nearest preceding h2 or h3 exists and its lower-cased text includes the
      term. */
  function HeaderMatches(c: Criterion, term: string): (b: bool)
    ensures b <==> exists h :: IsNearestHeading(c.context, Some(h)) && Includes(Lower(c.context[h.level][h.index].text), term)
  {
    match SectionHeader(c.context)
    case None => false
    case Some(h) => Includes(Lower(c.context[h.level][h.index].text), term)
  }

  /** The search part of the visibility decision: an empty term matches
      everything, otherwise the criterion's text or its heading must contain
      the term. */
  predicate MatchesSearch(c: Criterion, term: string) {
    term == [] || Includes(Lower(c.text), term) || HeaderMatches(c, term)
  }

  /** A criterion is shown when its badge level is enabled and it matches
      the search. */
  predicate Shown(c: Criterion, f: Filters, term: string) {
    Enabled(f, BadgeLevel(c)) && MatchesSearch(c, term)
  }

  /** The visibility loop of `applyFilters` (and the identical one of
      `searchCriteria`): each criterion is hidden exactly when it is not
      shown, and nothing but the `hidden` flag changes. */
  function ApplyFilters(cs: seq<Criterion>, f: Filters, term: string): (r: seq<Criterion>)
    ensures |r| == |cs|
    ensures forall i :: 0 <= i < |cs| ==> r[i].(hidden := cs[i].hidden) == cs[i]
    ensures forall i :: 0 <= i < |cs| ==> (!r[i].hidden <==> Enabled(f, BadgeLevel(cs[i])) && MatchesSearch(cs[i], term))
  {
    seq(|cs|, i requires 0 <= i < |cs| => cs[i].(hidden := !Shown(cs[i], f, term)))
  }

  /** With the filters the page can reach, a badge that names no level is
      hidden whatever the search term. */
  lemma UnknownBadgeHidden(cs: seq<Criterion>, f: Filters, term: string, i: int)
    requires f.Keys <= Levels && 0 <= i < |cs| && BadgeLevel(cs[i]) !in Levels
    ensures ApplyFilters(cs, f, term)[i].hidden
  {
    UnknownLevelDisabled(f, BadgeLevel(cs[i]));
  }

  /** With an empty term only the level filter decides. */
  lemma EmptyTermFiltersByLevel(cs: seq<Criterion>, f: Filters, i: int)
    requires 0 <= i < |cs|
    ensures ApplyFilters(cs, f, "")[i].hidden <==> !Enabled(f, BadgeLevel(cs[i]))
  {
  }

  /** The decision reads nothing it writes: applying the filters twice is
      applying them once. */
  lemma ApplyFiltersIdempotent(cs: seq<Criterion>, f: Filters, term: string)
    ensures ApplyFilters(ApplyFilters(cs, f, term), f, term) == ApplyFilters(cs, f, term)
  {
    var once := ApplyFilters(cs, f, term);
    forall i | 0 <= i < |cs|
      ensures ApplyFilters(once, f, term)[i] == once[i]
    {
      assert once[i].(hidden := cs[i].hidden) == cs[i];
      assert Shown(once[i], f, term) == Shown(cs[i], f, term);
    }
  }

  /** Toggling one level changes the visibility of the criteria whose badge
      names that level, and of no other. */
  lemma ToggleChangesOnlyThatLevel(cs: seq<Criterion>, f: Filters, term: string, level: string, i: int)
    requires 0 <= i < |cs|
    ensures BadgeLevel(cs[i]) != level ==>
              ApplyFilters(cs, Toggle(f, level), term)[i] == ApplyFilters(cs, f, term)[i]
    ensures BadgeLevel(cs[i]) == level && MatchesSearch(cs[i], term) ==>
              ApplyFilters(cs, Toggle(f, level), term)[i].hidden != ApplyFilters(cs, f, term)[i].hidden
  {
  }

  /** A reference to the `k`-th label of criterion `crit`. */
  datatype LabelRef = LabelRef(crit: nat, nth: nat)

  /** Document order on labels. */
  predicate Precedes(a: LabelRef, b: LabelRef) {
    a.crit < b.crit || (a.crit == b.crit && a.nth < b.nth)
  }

  predicate InDocumentOrder(ms: seq<LabelRef>) {
    forall i, j :: 0 <= i < j < |ms| ==> Precedes(ms[i], ms[j])
  }

  function LabelsOf(crit: nat, n: nat): (r: seq<LabelRef>)
    ensures |r| == n
    ensures forall k :: 0 <= k < n ==> r[k] == LabelRef(crit, k)
  {
    seq(n, k requires 0 <= k < n => LabelRef(crit, k))
  }

  /** `.criterion:not(.hidden) label`: every label of every criterion that is
      not hidden, each once, in document order. */
  function VisibleLabels(cs: seq<Criterion>): (r: seq<LabelRef>)
    ensures forall m :: m in r <==> m.crit < |cs| && !cs[m.crit].hidden && m.nth < cs[m.crit].labels
    ensures InDocumentOrder(r)
    decreases |cs|
  {
    if |cs| == 0 then []
    else
      var last := |cs| - 1;
      var front := VisibleLabels(cs[..last]);
      var tail := if cs[last].hidden then [] else LabelsOf(last, cs[last].labels);
      assert forall m :: m in front <==> m.crit < last && !cs[m.crit].hidden && m.nth < cs[m.crit].labels;
      assert forall m :: m in tail <==> m.crit == last && !cs[last].hidden && m.nth < cs[last].labels;
      AppendInOrder(front, tail, last);
      front + tail
  }

  /** Labels of earlier criteria followed by the labels of a later one, in
      label order, stay in document order. */
  lemma AppendInOrder(front: seq<LabelRef>, tail: seq<LabelRef>, last: nat)
    requires InDocumentOrder(front)
    requires forall m :: m in front ==> m.crit < last
    requires forall k :: 0 <= k < |tail| ==> tail[k] == LabelRef(last, k)
    ensures InDocumentOrder(front + tail)
  {
    var r := front + tail;
    forall i, j | 0 <= i < j < |r|
      ensures Precedes(r[i], r[j])
    {
      if j < |front| {
      } else if i < |front| {
        assert r[i] in front;
      } else {
        assert r[i] == LabelRef(last, i - |front|) && r[j] == LabelRef(last, j - |front|);
      }
    }
  }

  /** The positions of the criteria that are not hidden. */
  function ShownPositions(cs: seq<Criterion>): set<int> {
    set i | 0 <= i < |cs| && !cs[i].hidden
  }

  /** The number of criteria that are not hidden (`updateSearchInfo` counts
      these, not labels): the size of the set of their positions. */
  function VisibleCount(cs: seq<Criterion>): (r: nat)
    ensures r == |ShownPositions(cs)|
    ensures r <= |cs|
    ensures r == 0 <==> forall i :: 0 <= i < |cs| ==> cs[i].hidden
    decreases |cs|
  {
    if |cs| == 0 then
      assert ShownPositions(cs) == {};
      0
    else
      var n := |cs| - 1;
      var front := VisibleCount(cs[..n]);
      ShownPositionsSnoc(cs);
      front + (if cs[n].hidden then 0 else 1)
  }

  /** Splitting the last position off the shown positions. */
  lemma ShownPositionsSnoc(cs: seq<Criterion>)
    requires |cs| > 0
    ensures ShownPositions(cs) == ShownPositions(cs[..|cs| - 1]) + (if cs[|cs| - 1].hidden then {} else {|cs| - 1})
    ensures |cs| - 1 !in ShownPositions(cs[..|cs| - 1])
  {
    var n := |cs| - 1;
    assert forall i :: 0 <= i < n ==> cs[..n][i] == cs[i];
  }

  /** When every criterion has exactly one label, the match list and the
      result count agree. */
  lemma {:induction false} OneLabelEach(cs: seq<Criterion>)
    requires forall i :: 0 <= i < |cs| ==> cs[i].labels == 1
    ensures |VisibleLabels(cs)| == VisibleCount(cs)
    decreases |cs|
  {
    if |cs| > 0 {
      OneLabelEach(cs[..|cs| - 1]);
    }
  }

  /** `checkAll`: every criterion that is not hidden becomes checked; hidden
      ones keep their state; nothing else changes. */
  function CheckAll(cs: seq<Criterion>): (r: seq<Criterion>)
    ensures |r| == |cs|
    ensures forall i :: 0 <= i < |cs| ==> r[i].(checked := cs[i].checked) == cs[i]
    ensures forall i :: 0 <= i < |cs| ==> r[i].checked == (cs[i].checked || !cs[i].hidden)
  {
    seq(|cs|, i requires 0 <= i < |cs| => if cs[i].hidden then cs[i] else cs[i].(checked := true))
  }

  /** `uncheckAll` on the criteria: every checkbox is cleared, hidden or
      not, and nothing else changes. */
  function UncheckAll(cs: seq<Criterion>): (r: seq<Criterion>)
    ensures |r| == |cs|
    ensures forall i :: 0 <= i < |cs| ==> r[i] == cs[i].(checked := false)
  {
    seq(|cs|, i requires 0 <= i < |cs| => cs[i].(checked := false))
  }

  /** Checking all twice is checking all once. */
  lemma CheckAllIdempotent(cs: seq<Criterion>)
    ensures CheckAll(CheckAll(cs)) == CheckAll(cs)
  {
  }

  /** Neither bulk operation touches visibility, so the match list a search
      would build is the same before and after. */
  lemma BulkKeepsVisibleLabels(cs: seq<Criterion>)
    ensures VisibleLabels(CheckAll(cs)) == VisibleLabels(cs)
    ensures VisibleLabels(UncheckAll(cs)) == VisibleLabels(cs)
  {
    SameVisibilitySameLabels(cs, CheckAll(cs));
    SameVisibilitySameLabels(cs, UncheckAll(cs));
  }

  lemma {:induction false} SameVisibilitySameLabels(a: seq<Criterion>, b: seq<Criterion>)
    requires |a| == |b|
    requires forall i :: 0 <= i < |a| ==> a[i].hidden == b[i].hidden && a[i].labels == b[i].labels
    ensures VisibleLabels(a) == VisibleLabels(b)
    decreases |a|
  {
    if |a| > 0 {
      SameVisibilitySameLabels(a[..|a| - 1], b[..|b| - 1]);
    }
  }
}
