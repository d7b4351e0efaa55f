/** The counting parts of `updateProgress` and `updateLevelSummary`: how
    many criterion checkboxes there are and how many are checked, overall and
    per `data-level` value. Each criterion holds one checkbox. */
module Progress {
  import opened Wrappers
  import opened Filters
  import opened Criteria

  datatype Tally = Tally(checked: nat, total: nat)

  /** `.criterion[data-level="<level>"]` matches the criterion. */
  predicate HasLevel(c: Criterion, level: string) {
    c.dataLevel == Some(level)
  }

  /** The positions of the checked criteria. */
  function CheckedPositions(cs: seq<Criterion>): set<int> {
    set i | 0 <= i < |cs| && cs[i].checked
  }

  /** The positions of the criteria of one level. */
  function LevelPositions(cs: seq<Criterion>, level: string): set<int> {
    set i | 0 <= i < |cs| && HasLevel(cs[i], level)
  }

  /** The positions of the checked criteria of one level. */
  function CheckedLevelPositions(cs: seq<Criterion>, level: string): set<int> {
    set i | 0 <= i < |cs| && HasLevel(cs[i], level) && cs[i].checked
  }

  // Splitting the last position off the position sets.

  lemma CheckedPositionsSnoc(cs: seq<Criterion>)
    requires |cs| > 0
    ensures |CheckedPositions(cs)| == |CheckedPositions(cs[..|cs| - 1])| + (if cs[|cs| - 1].checked then 1 else 0)
  {
    var n := |cs| - 1;
    assert forall i :: 0 <= i < n ==> cs[..n][i] == cs[i];
    assert CheckedPositions(cs) == CheckedPositions(cs[..n]) + (if cs[n].checked then {n} else {});
  }

  lemma LevelPositionsSnoc(cs: seq<Criterion>, level: string)
    requires |cs| > 0
    ensures |LevelPositions(cs, level)| == |LevelPositions(cs[..|cs| - 1], level)| + (if HasLevel(cs[|cs| - 1], level) then 1 else 0)
  {
    var n := |cs| - 1;
    assert forall i :: 0 <= i < n ==> cs[..n][i] == cs[i];
    assert LevelPositions(cs, level) == LevelPositions(cs[..n], level) + (if HasLevel(cs[n], level) then {n} else {});
  }

  lemma CheckedLevelPositionsSnoc(cs: seq<Criterion>, level: string)
    requires |cs| > 0
    ensures |CheckedLevelPositions(cs, level)| == |CheckedLevelPositions(cs[..|cs| - 1], level)|
              + (if HasLevel(cs[|cs| - 1], level) && cs[|cs| - 1].checked then 1 else 0)
  {
    var n := |cs| - 1;
    assert forall i :: 0 <= i < n ==> cs[..n][i] == cs[i];
    assert CheckedLevelPositions(cs, level) == CheckedLevelPositions(cs[..n], level)
             + (if HasLevel(cs[n], level) && cs[n].checked then {n} else {});
  }

  /** The progress bar's count: checked criteria out of all criteria. */
  function Overall(cs: seq<Criterion>): (r: Tally)
    ensures r.checked == |CheckedPositions(cs)|
    ensures r.checked <= r.total == |cs|
    ensures r.checked == r.total <==> forall i :: 0 <= i < |cs| ==> cs[i].checked
    ensures r.checked == 0 <==> forall i :: 0 <= i < |cs| ==> !cs[i].checked
    decreases |cs|
  {
    if |cs| == 0 then
      assert CheckedPositions(cs) == {};
      Tally(0, 0)
    else
      var t := Overall(cs[..|cs| - 1]);
      CheckedPositionsSnoc(cs);
      Tally(t.checked + (if cs[|cs| - 1].checked then 1 else 0), t.total + 1)
  }

  /** One level summary's count: checked criteria of that level out of all
      criteria of that level. */
  function ForLevel(cs: seq<Criterion>, level: string): (r: Tally)
    ensures r.total == |LevelPositions(cs, level)|
    ensures r.checked == |CheckedLevelPositions(cs, level)|
    ensures r.checked <= r.total <= |cs|
    ensures r.checked == r.total <==> forall i :: 0 <= i < |cs| && HasLevel(cs[i], level) ==> cs[i].checked
    ensures r.checked == 0 <==> forall i :: 0 <= i < |cs| && HasLevel(cs[i], level) ==> !cs[i].checked
    decreases |cs|
  {
    if |cs| == 0 then
      assert LevelPositions(cs, level) == {} && CheckedLevelPositions(cs, level) == {};
      Tally(0, 0)
    else
      var t := ForLevel(cs[..|cs| - 1], level);
      var c := cs[|cs| - 1];
      LevelPositionsSnoc(cs, level);
      CheckedLevelPositionsSnoc(cs, level);
      if HasLevel(c, level) then Tally(t.checked + (if c.checked then 1 else 0), t.total + 1)
      else t
  }

  /** When every criterion carries one of the three levels, the level
      summaries split the overall count between them. */
  lemma {:induction false} LevelsPartitionOverall(cs: seq<Criterion>)
    requires forall i :: 0 <= i < |cs| ==> cs[i].dataLevel.Some? && cs[i].dataLevel.value in Levels
    ensures ForLevel(cs, "A").total + ForLevel(cs, "AA").total + ForLevel(cs, "AAA").total == Overall(cs).total
    ensures ForLevel(cs, "A").checked + ForLevel(cs, "AA").checked + ForLevel(cs, "AAA").checked == Overall(cs).checked
    decreases |cs|
  {
    if |cs| > 0 {
      var front, c := cs[..|cs| - 1], cs[|cs| - 1];
      assert forall i :: 0 <= i < |front| ==> front[i] == cs[i];
      LevelsPartitionOverall(front);
      assert Overall(cs).total == Overall(front).total + 1;
      assert Overall(cs).checked == Overall(front).checked + (if c.checked then 1 else 0);
      assert c.dataLevel == Some("A") || c.dataLevel == Some("AA") || c.dataLevel == Some("AAA");
      LastCountsOnce(cs, "A");
      LastCountsOnce(cs, "AA");
      LastCountsOnce(cs, "AAA");
    }
  }

  /** The last criterion adds one to the total of its own level only. */
  lemma LastCountsOnce(cs: seq<Criterion>, level: string)
    requires |cs| > 0
    ensures var t, c := ForLevel(cs[..|cs| - 1], level), cs[|cs| - 1];
            ForLevel(cs, level) == if HasLevel(c, level) then Tally(t.checked + (if c.checked then 1 else 0), t.total + 1) else t
  {
  }

  /** Counts only grow when checkboxes only go from unchecked to checked, and
      the totals depend on the levels alone. */
  lemma {:induction false} MoreCheckedCountsMore(a: seq<Criterion>, b: seq<Criterion>, level: string)
    requires |a| == |b|
    requires forall i :: 0 <= i < |a| ==> a[i].dataLevel == b[i].dataLevel && (a[i].checked ==> b[i].checked)
    ensures ForLevel(a, level).total == ForLevel(b, level).total
    ensures ForLevel(a, level).checked <= ForLevel(b, level).checked
    decreases |a|
  {
    if |a| > 0 {
      MoreCheckedCountsMore(a[..|a| - 1], b[..|b| - 1], level);
    }
  }

  /** After `checkAll` a level counts at least as many checked criteria as
      before, out of the same total, and all of them when none of that
      level is hidden. */
  lemma CheckAllCounts(cs: seq<Criterion>, level: string)
    ensures ForLevel(CheckAll(cs), level).total == ForLevel(cs, level).total
    ensures ForLevel(CheckAll(cs), level).checked >= ForLevel(cs, level).checked
    ensures (forall i :: 0 <= i < |cs| && HasLevel(cs[i], level) ==> !cs[i].hidden) ==>
              ForLevel(CheckAll(cs), level).checked == ForLevel(cs, level).total
  {
    MoreCheckedCountsMore(cs, CheckAll(cs), level);
  }

  /** After `uncheckAll` every level reads zero out of the same total. */
  lemma UncheckAllCounts(cs: seq<Criterion>, level: string)
    ensures ForLevel(UncheckAll(cs), level) == Tally(0, ForLevel(cs, level).total)
  {
    MoreCheckedCountsMore(UncheckAll(cs), cs, level);
  }
}
