/** The scores the free-form placers rank their attempts by: triples
    compared as Python compares tuples, smaller first, and the choice
    `main` makes over its seeds. */
module Scores {
  import opened Common

  type Score = (int, int, int)

  /** `a < b` on tuples: the first differing component decides. */
  predicate Less(a: Score, b: Score)
  {
    a.0 < b.0 || (a.0 == b.0 && (a.1 < b.1 || (a.1 == b.1 && a.2 < b.2)))
  }

  /** `abs(x)`. */
  function Abs(x: int): (r: nat)
    ensures r == x || r == -x
  {
    if x >= 0 then x else -x
  }

  /** Among the first n seeds, seed i has a score, no seed scores less,
      and every earlier seed with a score scores more: the one
      `if best is None or score < best[0]` keeps. */
  ghost predicate FirstLowest(scored: seq<Option<Score>>, n: int, i: int)
  {
    && 0 <= i < n <= |scored| && scored[i].Some?
    && (forall j :: 0 <= j < i && scored[j].Some? ==> Less(scored[i].value, scored[j].value))
    && (forall j :: 0 <= j < n && scored[j].Some? ==> !Less(scored[j].value, scored[i].value))
  }

  /** Seed m became the choice when it was reached: `best = out` ran for it. */
  ghost predicate NewBest(scored: seq<Option<Score>>, m: int)
  {
    FirstLowest(scored, m + 1, m)
  }

  /** A seed that does not score less leaves the choice as it is. */
  lemma FirstLowestKeep(scored: seq<Option<Score>>, n: int, i: int)
    requires FirstLowest(scored, n, i) && n < |scored|
    requires scored[n].None? || !Less(scored[n].value, scored[i].value)
    ensures FirstLowest(scored, n + 1, i)
  {
  }

  /** The first seed with a score, or one that scores less than the one
      kept, becomes the choice. */
  lemma FirstLowestNew(scored: seq<Option<Score>>, n: int, i: int)
    requires 0 <= n < |scored| && scored[n].Some?
    requires (FirstLowest(scored, n, i) && Less(scored[n].value, scored[i].value))
          || (forall j :: 0 <= j < n ==> scored[j].None?)
    ensures FirstLowest(scored, n + 1, n)
  {
  }
}
