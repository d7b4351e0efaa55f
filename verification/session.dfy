/** The page as the event handlers see it, and the handlers themselves:
    `toggleFilter`, `searchCriteria` (run on every `input` event of the
    search box), `handleSearchKeyDown`, `checkAll` and `uncheckAll`.

    Highlight spans are not part of this state: highlighting never changes
    any element's text (Highlight.HighlightKeepsText), so no decision below
    depends on it. */
module Session {
  import opened Wrappers
  import opened Text
  import opened Filters
  import opened Criteria
  import Navigator

  /** The criteria, the checkboxes outside any criterion (the theme switch
      is one), the level filters, the search box's value, and
      `searchMatches` with `searchMatchIndex`. */
  datatype Page = Page(
    criteria: seq<Criterion>,
    others: seq<bool>,
    filters: Filters,
    box: string,
    matches: seq<LabelRef>,
    index: int)

  /** The state after page load: all levels enabled, no matches, index -1.
      Loading does not run the filters, so the criteria keep the visibility
      the markup gives them. */
  function Load(cs: seq<Criterion>, others: seq<bool>, box: string): (r: Page)
    ensures Valid(r) && MatchesVisible(r)
    ensures forall level :: Enabled(r.filters, level) <==> level in Levels
    ensures r.matches == [] && r.index == -1
    ensures r.criteria == cs && r.others == others && r.box == box
  {
    Page(cs, others, Initial, box, [], -1)
  }

  /** The search term every handler reads: the box's value, lower-cased. */
  function Term(p: Page): string {
    Lower(p.box)
  }

  /** The index is -1 or a position in the match list, and every match
      names an existing label. */
  predicate Valid(p: Page) {
    && -1 <= p.index < |p.matches|
    && forall m :: m in p.matches ==> m.crit < |p.criteria| && m.nth < p.criteria[m.crit].labels
  }

  /** Every match belongs to a criterion that is currently shown. */
  predicate MatchesVisible(p: Page) {
    forall m :: m in p.matches ==> m.crit < |p.criteria| && !p.criteria[m.crit].hidden
  }

  /** `toggleFilter(level)`: flip the level's flag and rerun the visibility
      decision with the current term. The match list and index are left as
      they were. */
  function OnToggleFilter(p: Page, level: string): (r: Page)
    ensures Enabled(r.filters, level) == !Enabled(p.filters, level)
    ensures forall l :: l != level ==> Enabled(r.filters, l) == Enabled(p.filters, l)
    ensures |r.criteria| == |p.criteria|
    ensures forall i :: 0 <= i < |r.criteria| ==> (!r.criteria[i].hidden <==> Shown(p.criteria[i], r.filters, Term(p)))
    ensures forall i :: 0 <= i < |p.criteria| ==> r.criteria[i].(hidden := p.criteria[i].hidden) == p.criteria[i]
    ensures r.matches == p.matches && r.index == p.index && r.others == p.others && r.box == p.box
  {
    var f := Toggle(p.filters, level);
    p.(filters := f, criteria := ApplyFilters(p.criteria, f, Term(p)))
  }

  /** `updateSearchMatches`: an empty term empties the match list; any
      other term makes it the labels of the criteria that are not hidden, in
      document order. Either way the index goes back to -1. */
  function UpdateSearchMatches(p: Page): (r: Page)
    ensures r.(matches := p.matches, index := p.index) == p
    ensures r.index == -1
    ensures Term(p) == [] ==> r.matches == []
    ensures Term(p) != [] ==> InDocumentOrder(r.matches)
    ensures Term(p) != [] ==> forall m :: m in r.matches <==>
              m.crit < |p.criteria| && !p.criteria[m.crit].hidden && m.nth < p.criteria[m.crit].labels
  {
    if Term(p) == [] then p.(matches := [], index := -1)
    else p.(matches := VisibleLabels(p.criteria), index := -1)
  }

  /** An `input` event: the box now holds `value` and `searchCriteria` runs.
      Visibility is decided as in `applyFilters`. An empty term stops there,
      before `updateSearchMatches` (whose empty-term branch is therefore never
      reached from here); any other term rebuilds the match list from the
      labels of the shown criteria and resets the index to -1. */
  function OnInput(p: Page, value: string): (r: Page)
    ensures r.box == value && r.filters == p.filters && r.others == p.others
    ensures |r.criteria| == |p.criteria|
    ensures forall i :: 0 <= i < |r.criteria| ==> (!r.criteria[i].hidden <==> Shown(p.criteria[i], p.filters, Lower(value)))
    ensures forall i :: 0 <= i < |p.criteria| ==> r.criteria[i].(hidden := p.criteria[i].hidden) == p.criteria[i]
    ensures value == [] ==> r.matches == p.matches && r.index == p.index
    ensures value != [] ==> r.index == -1
    ensures value != [] ==> forall m :: m in r.matches <==>
              m.crit < |p.criteria| && Shown(p.criteria[m.crit], p.filters, Lower(value)) && m.nth < p.criteria[m.crit].labels
  {
    var term := Lower(value);
    var q := p.(box := value, criteria := ApplyFilters(p.criteria, p.filters, term));
    if term == [] then q
    else UpdateSearchMatches(q)
  }

  /** A key press in the search box. */
  function OnKeyDown(p: Page, key: Navigator.Key): (r: Page)
    ensures r.(index := p.index) == p
    ensures Valid(p) && |p.matches| > 0 && key.name == "Enter" ==> 0 <= r.index < |p.matches|
  {
    p.(index := Navigator.KeyDown(|p.matches|, p.index, key))
  }

  /** `checkAll`: only criteria that are shown change, and they become
      checked. */
  function OnCheckAll(p: Page): (r: Page)
    ensures r.(criteria := p.criteria) == p
    ensures |r.criteria| == |p.criteria|
    ensures forall i :: 0 <= i < |p.criteria| && p.criteria[i].hidden ==> r.criteria[i] == p.criteria[i]
    ensures forall i :: 0 <= i < |p.criteria| && !p.criteria[i].hidden ==> r.criteria[i] == p.criteria[i].(checked := true)
  {
    p.(criteria := CheckAll(p.criteria))
  }

  /** `uncheckAll`: every checkbox on the page, inside a criterion or not,
      becomes unchecked. */
  function OnUncheckAll(p: Page): (r: Page)
    ensures r.(criteria := p.criteria, others := p.others) == p
    ensures |r.criteria| == |p.criteria| && |r.others| == |p.others|
    ensures forall i :: 0 <= i < |r.criteria| ==> !r.criteria[i].checked
    ensures forall i :: 0 <= i < |p.criteria| ==> r.criteria[i] == p.criteria[i].(checked := false)
    ensures forall i :: 0 <= i < |r.others| ==> !r.others[i]
  {
    p.(criteria := UncheckAll(p.criteria), others := seq(|p.others|, i => false))
  }

  /** The user ticks or clears the checkbox of criterion `crit`. The
      browser sets `checked`; the `change` listener only syncs a CSS class,
      saves and recounts progress. A position with no criterion changes
      nothing. */
  function OnCheckboxChange(p: Page, crit: nat, value: bool): (r: Page)
    ensures r.(criteria := p.criteria) == p
    ensures |r.criteria| == |p.criteria|
    ensures crit < |p.criteria| ==> r.criteria[crit] == p.criteria[crit].(checked := value)
    ensures forall i :: 0 <= i < |p.criteria| && i != crit ==> r.criteria[i] == p.criteria[i]
  {
    if crit < |p.criteria| then p.(criteria := p.criteria[crit := p.criteria[crit].(checked := value)])
    else p
  }

  datatype Event =
    | CheckboxChanged(crit: nat, ticked: bool)
    | ToggleFilter(level: string)
    | Input(value: string)
    | KeyDown(key: Navigator.Key)
    | CheckAllClicked
    | UncheckAllClicked

  /** The event wiring: the search box's `input` and `keydown` events run
      `searchCriteria` and `handleSearchKeyDown`, the bulk buttons run
      `checkAll` and `uncheckAll`. `toggleFilter` is not attached by the
      script itself; the model treats each call of it as an event.
      A checkbox change touches only that criterion's `checked` field.
      Only a filter toggle changes the filters, only typing changes the
      box, a key press changes nothing but the index, and the bulk buttons
      leave the match list and index alone. */
  function Step(p: Page, e: Event): (r: Page)
    ensures !e.ToggleFilter? ==> r.filters == p.filters
    ensures e.Input? ==> r.box == e.value
    ensures !e.Input? ==> r.box == p.box
    ensures e.KeyDown? ==> r.(index := p.index) == p
    ensures e.CheckAllClicked? || e.UncheckAllClicked? ==> r.matches == p.matches && r.index == p.index
    ensures e.ToggleFilter? ==> r.matches == p.matches && r.index == p.index
    ensures e.CheckboxChanged? ==> r.(criteria := p.criteria) == p
  {
    match e
    case CheckboxChanged(crit, ticked) => OnCheckboxChange(p, crit, ticked)
    case ToggleFilter(level) => OnToggleFilter(p, level)
    case Input(value) => OnInput(p, value)
    case KeyDown(key) => OnKeyDown(p, key)
    case CheckAllClicked => OnCheckAll(p)
    case UncheckAllClicked => OnUncheckAll(p)
  }

  function Run(p: Page, es: seq<Event>): Page
    decreases |es|
  {
    if |es| == 0 then p else Run(Step(p, es[0]), es[1..])
  }

  /** Every handler keeps the index in [-1, number of matches) and the
      matches pointing at existing labels. */
  lemma StepKeepsValid(p: Page, e: Event)
    requires Valid(p)
    ensures Valid(Step(p, e))
  {
    match e
    case Input(value) =>
      var r := OnInput(p, value);
      if value != [] {
        assert forall m :: m in r.matches ==> m.crit < |r.criteria| && m.nth < r.criteria[m.crit].labels;
      }
    case _ =>
  }

  lemma {:induction false} RunKeepsValid(p: Page, es: seq<Event>)
    requires Valid(p)
    ensures Valid(Run(p, es))
    decreases |es|
  {
    if |es| > 0 {
      StepKeepsValid(p, es[0]);
      RunKeepsValid(Step(p, es[0]), es[1..]);
    }
  }

  /** Right after a non-empty search every match belongs to a shown
      criterion, the list is in document order, and nothing is selected. */
  lemma SearchMatchesAreShown(p: Page, value: string)
    requires value != []
    ensures var r := OnInput(p, value);
            && MatchesVisible(r)
            && InDocumentOrder(r.matches)
            && r.index == -1
            && forall m :: m in r.matches ==> Enabled(p.filters, BadgeLevel(p.criteria[m.crit]))
                                               && MatchesSearch(p.criteria[m.crit], Lower(value))
  {
  }

  /** After a non-empty search, the first Enter selects the first match and
      the second Enter the second one. */
  lemma SearchThenEnterTwice(p: Page, value: string)
    requires value != []
    requires |OnInput(p, value).matches| >= 2
    ensures OnKeyDown(OnInput(p, value), Navigator.Enter).index == 0
    ensures OnKeyDown(OnKeyDown(OnInput(p, value), Navigator.Enter), Navigator.Enter).index == 1
  {
    var r := OnInput(p, value);
    Navigator.EnterStep(|r.matches|, -1);
    Navigator.EnterStep(|r.matches|, 0);
  }

  /** A one-criterion page: an AA criterion about contrast with one label. */
  function Sample(): seq<Criterion> {
    [Criterion(Some("AA"), Some("AA"), "contrast", [], 1, false, false)]
  }

  lemma SampleBadge()
    ensures BadgeLevel(Sample()[0]) == "AA"
  {
    TrimUnpadded("AA");
  }

  lemma SampleShown()
    ensures Lower("contrast") == "contrast"
    ensures Shown(Sample()[0], Initial, "contrast")
  {
    var c := Sample()[0];
    assert Lower("contrast") == "contrast" by {
    }
    assert Includes(Lower(c.text), "contrast") by {
      assert OccursAt("contrast", "contrast", 0);
    }
    SampleBadge();
    InitialEnablesLevels("AA");
  }

  lemma SampleLabels()
    ensures VisibleLabels(Sample()) == [LabelRef(0, 0)]
  {
    assert Sample()[..0] == [];
    assert LabelsOf(0, 1) == [LabelRef(0, 0)];
  }

  /** The page after searching the sample for "contrast". */
  function Searched(): Page {
    Page(Sample(), [], Initial, "contrast", [LabelRef(0, 0)], -1)
  }

  lemma SampleFiltered()
    ensures Lower("contrast") == "contrast"
    ensures ApplyFilters(Sample(), Initial, "contrast") == Sample()
  {
    SampleShown();
    var cs := ApplyFilters(Sample(), Initial, "contrast");
    assert cs[0] == Sample()[0].(hidden := false);
  }

  lemma SampleSearch()
    ensures OnInput(Load(Sample(), [], ""), "contrast") == Searched()
  {
    SampleFiltered();
    SampleLabels();
    var q := Load(Sample(), [], "").(box := "contrast", criteria := Sample());
    assert Term(q) == "contrast";
    assert OnInput(Load(Sample(), [], ""), "contrast") == UpdateSearchMatches(q);
  }

  lemma SampleToggle()
    ensures OnToggleFilter(Searched(), "AA").criteria == [Sample()[0].(hidden := true)]
  {
    var f := Toggle(Initial, "AA");
    InitialEnablesLevels("AA");
    SampleBadge();
    var cs := ApplyFilters(Sample(), f, "contrast");
    assert !Shown(Sample()[0], f, "contrast");
    assert cs[0].hidden;
    assert cs[0].(hidden := false) == Sample()[0];
    SampleShown();
  }

  /** `toggleFilter` does not rebuild the match list: after searching for
      "contrast" and switching level AA off, the only match belongs to a
      hidden criterion, and Enter still moves to it. */
  lemma ToggleLeavesStaleMatch()
    ensures var p := OnToggleFilter(OnInput(Load(Sample(), [], ""), "contrast"), "AA");
            && Valid(p)
            && !MatchesVisible(p)
            && OnKeyDown(p, Navigator.Enter).index == 0
  {
    SampleSearch();
    SampleToggle();
    var p := OnToggleFilter(Searched(), "AA");
    assert p.matches == [LabelRef(0, 0)] && p.index == -1;
    assert LabelRef(0, 0) in p.matches;
    Navigator.EnterStep(1, -1);
  }

  /** Emptying the search box does not clear the match list either: after
      searching for "contrast" and then deleting the term, Enter still
      selects the old match. */
  lemma ClearedBoxKeepsMatches()
    ensures var p := OnInput(OnInput(Load(Sample(), [], ""), "contrast"), "");
            && p.matches == [LabelRef(0, 0)]
            && OnKeyDown(p, Navigator.Enter).index == 0
  {
    SampleSearch();
    Navigator.EnterStep(1, -1);
  }

  /** Neither bulk button changes visibility, the match list or the index,
      so the navigation state survives them. */
  lemma BulkKeepsNavigation(p: Page)
    ensures OnCheckAll(p).matches == p.matches && OnCheckAll(p).index == p.index
    ensures OnUncheckAll(p).matches == p.matches && OnUncheckAll(p).index == p.index
    ensures MatchesVisible(p) ==> MatchesVisible(OnCheckAll(p)) && MatchesVisible(OnUncheckAll(p))
  {
  }

  /** The plural form of the Polish result count: one, two to four, five or
      more. */
  datatype Plural = One | Few | Many

  /** What `updateSearchInfo` reports: nothing for an empty term, "no
      results" when every criterion is hidden, otherwise the number of shown
      criteria with its plural form. */
  datatype Info = Blank | NoResults | Found(count: nat, form: Plural)

  function SearchInfo(p: Page): (r: Info)
    ensures r == Blank <==> Term(p) == []
    ensures r == NoResults <==> Term(p) != [] && forall i :: 0 <= i < |p.criteria| ==> p.criteria[i].hidden
    ensures r.Found? ==> 1 <= r.count == VisibleCount(p.criteria)
    ensures r.Found? ==> (r.form == One <==> r.count == 1)
    ensures r.Found? ==> (r.form == Few <==> 2 <= r.count <= 4)
    ensures r.Found? ==> (r.form == Many <==> 5 <= r.count)
  {
    var n := VisibleCount(p.criteria);
    if Term(p) == [] then Blank
    else if n == 0 then NoResults
    else Found(n, if n == 1 then One else if n < 5 then Few else Many)
  }

  /** After a non-empty search on a page whose criteria have one label each,
      the reported count is the length of the match list. */
  lemma InfoCountIsMatchCount(p: Page, value: string)
    requires value != []
    requires forall i :: 0 <= i < |p.criteria| ==> p.criteria[i].labels == 1
    ensures var r := OnInput(p, value);
            SearchInfo(r).Found? ==> SearchInfo(r).count == |r.matches|
  {
    var r := OnInput(p, value);
    OneLabelEach(r.criteria);
  }
}
