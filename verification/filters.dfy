/** The level filters: `activeFilters`, a plain JavaScript object from level
    name to flag. A lookup of a missing key gives `undefined`, which is falsy,
    so a level counts as enabled only when it is present and true. */
module Filters {

  type Filters = map<string, bool>

  /** The conformance levels that have filter buttons. */
  const Levels: set<string> := {"A", "AA", "AAA"}

  /** The state at page load: every level enabled. */
  const Initial: Filters := map["A" := true, "AA" := true, "AAA" := true]

  predicate Enabled(f: Filters, level: string) {
    level in f && f[level]
  }

  /** `toggleFilter`: negates the flag of `level` (a missing key reads as
      false, so it is added as true) and leaves every other level alone. */
  function Toggle(f: Filters, level: string): (r: Filters)
    ensures Enabled(r, level) == !Enabled(f, level)
    ensures forall l :: l != level ==> Enabled(r, l) == Enabled(f, l)
    ensures r.Keys == f.Keys + {level}
  {
    f[level := !Enabled(f, level)]
  }

  /** At page load exactly the three levels are enabled. */
  lemma InitialEnablesLevels(level: string)
    ensures Enabled(Initial, level) <==> level in Levels
  {
  }

  /** Toggling the same level twice restores every level's flag. */
  lemma ToggleTwice(f: Filters, level: string, other: string)
    ensures Enabled(Toggle(Toggle(f, level), level), other) == Enabled(f, other)
  {
  }

  /** Filters reached from the initial ones through the filter buttons only
      ever hold the three levels, so a badge naming anything else is never
      enabled. */
  lemma ToggleKeepsLevels(f: Filters, level: string)
    requires f.Keys <= Levels && level in Levels
    ensures Toggle(f, level).Keys <= Levels
  {
  }

  lemma UnknownLevelDisabled(f: Filters, level: string)
    requires f.Keys <= Levels && level !in Levels
    ensures !Enabled(f, level)
  {
  }
}
