/** `findSectionHeader`: the nearest h2 or h3 that precedes an element, found
    by walking back over the element's preceding siblings and then over the
    preceding siblings of each ancestor in turn.

    The page is abstracted to a context chain: `chain[0]` lists the element
    siblings that precede the criterion, in document order, and `chain[k]`
    those that precede its k-th ancestor, up to the root. */
module Sections {
  import opened Wrappers

  datatype Elem = Elem(tag: string, text: string)

  type Context = seq<seq<Elem>>

  /** A heading reference: sibling list `level` of the chain, position `index`. */
  datatype HeadingRef = HeadingRef(level: nat, index: nat)

  predicate IsHeading(e: Elem) {
    e.tag == "H2" || e.tag == "H3"
  }

  predicate NoHeading(sibs: seq<Elem>) {
    forall j :: 0 <= j < |sibs| ==> !IsHeading(sibs[j])
  }

  /** `r` is the heading the backwards walk meets first: none in lower lists
      of the chain, none after it in its own list; or, for `None`, there is no
      heading anywhere in the chain. */
  predicate IsNearestHeading(chain: Context, r: Option<HeadingRef>) {
    match r
    case None => forall k :: 0 <= k < |chain| ==> NoHeading(chain[k])
    case Some(h) =>
      && h.level < |chain|
      && h.index < |chain[h.level]|
      && IsHeading(chain[h.level][h.index])
      && NoHeading(chain[h.level][h.index + 1..])
      && forall k :: 0 <= k < h.level ==> NoHeading(chain[k])
  }

  /** The last heading of one sibling list. */
  function LastHeading(sibs: seq<Elem>): (r: Option<nat>)
    ensures r.None? <==> NoHeading(sibs)
    ensures r.Some? ==> r.value < |sibs| && IsHeading(sibs[r.value])
                        && NoHeading(sibs[r.value + 1..])
    decreases |sibs|
  {
    if |sibs| == 0 then None
    else if IsHeading(sibs[|sibs| - 1]) then Some(|sibs| - 1)
    else
      var r := LastHeading(sibs[..|sibs| - 1]);
      assert r.None? ==> NoHeading(sibs);
      r
  }

  /** The governing section heading, defined level by level. */
  function SectionHeader(chain: Context): (r: Option<HeadingRef>)
    ensures IsNearestHeading(chain, r)
    decreases |chain|
  {
    if |chain| == 0 then None
    else match LastHeading(chain[0])
      case Some(i) => Some(HeadingRef(0, i))
      case None =>
        match SectionHeader(chain[1..])
        case None => None
        case Some(h) =>
          assert chain[1..][h.level] == chain[h.level + 1];
          Some(HeadingRef(h.level + 1, h.index))
  }

  /** At most one position satisfies the nearest-heading description. */
  lemma NearestHeadingUnique(chain: Context, a: Option<HeadingRef>, b: Option<HeadingRef>)
    requires IsNearestHeading(chain, a) && IsNearestHeading(chain, b)
    ensures a == b
  {
  }

  /** The walk as the script performs it: scan each sibling list from its end
      backwards, starting with the element's own siblings and then moving to
      each ancestor's. */
  method FindSectionHeader(chain: Context) returns (r: Option<HeadingRef>)
    ensures IsNearestHeading(chain, r)
    ensures r == SectionHeader(chain)
  {
    var level := 0;
    while level < |chain|
      invariant 0 <= level <= |chain|
      invariant forall k :: 0 <= k < level ==> NoHeading(chain[k])
    {
      var sibs := chain[level];
      var j := |sibs|;
      while j > 0
        invariant 0 <= j <= |sibs|
        invariant NoHeading(sibs[j..])
      {
        if IsHeading(sibs[j - 1]) {
          r := Some(HeadingRef(level, j - 1));
          NearestHeadingUnique(chain, r, SectionHeader(chain));
          return;
        }
        j := j - 1;
      }
      level := level + 1;
    }
    r := None;
    NearestHeadingUnique(chain, r, SectionHeader(chain));
  }
}
