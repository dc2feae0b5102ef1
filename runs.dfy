/** Maximal white runs on one line of a block pattern (a row or a column),
    where `true` marks a block. The left-to-right scan below is the one the
    slot extractor and the run-length check perform on every row and column. */
module Runs {

  /** A half-open run [start, end) of white cells. */
  datatype Run = Run(start: nat, end: nat)

  function Len(x: Run): int
  {
    x.end - x.start
  }

  /** [s, e) is all white, and cannot be extended on either side. */
  predicate IsMaximalRun(line: seq<bool>, s: int, e: int)
  {
    && 0 <= s < e <= |line|
    && (forall k :: s <= k < e ==> !line[k])
    && (s == 0 || line[s - 1])
    && (e == |line| || line[e])
  }

  /** The first position at or after s that is a block, or the line's end:
      where the inner `while c < SIZE and not b[r][c]` scan stops. */
  function RunEnd(line: seq<bool>, s: nat): (e: nat)
    requires s <= |line|
    ensures s <= e <= |line|
    ensures forall k :: s <= k < e ==> !line[k]
    ensures e == |line| || line[e]
    decreases |line| - s
  {
    if s == |line| || line[s] then s else RunEnd(line, s + 1)
  }

  /** The first position of the white run that contains the white cell k:
      where a leftward scan `while a0 - 1 >= 0 and not b[r][a0 - 1]` stops. */
  function RunStart(line: seq<bool>, k: nat): (s: nat)
    requires k < |line|
    ensures s <= k
    ensures forall j :: s <= j < k ==> !line[j]
    ensures s == 0 || line[s - 1]
  {
    if k == 0 || line[k - 1] then k else RunStart(line, k - 1)
  }

  /** The runs that the scan `c = 0; while c < SIZE: ...` meets from c on. */
  function RunsFrom(line: seq<bool>, c: nat): seq<Run>
    requires c <= |line|
    decreases |line| - c
  {
    if c == |line| then []
    else if line[c] then RunsFrom(line, c + 1)
    else
      var e := RunEnd(line, c);
      [Run(c, e)] + RunsFrom(line, e)
  }

  function LineRuns(line: seq<bool>): seq<Run>
  {
    RunsFrom(line, 0)
  }

  /** Everything the scan reports is a maximal white run at or after c,
      provided the scan starts at the line's start or just after a block. */
  lemma {:induction false} RunsFromSound(line: seq<bool>, c: nat)
    requires c <= |line|
    requires c == 0 || line[c - 1]
    ensures forall x :: x in RunsFrom(line, c) ==>
              c <= x.start && IsMaximalRun(line, x.start, x.end)
    decreases |line| - c
  {
    if c == |line| {
    } else if line[c] {
      RunsFromSound(line, c + 1);
    } else {
      var e := RunEnd(line, c);
      if e < |line| {
        // the scan resumes at the block e and moves past it
        RunsFromSound(line, e + 1);
      }
    }
  }

  /** Every maximal white run at or after c is reported by the scan. */
  lemma {:induction false} RunsFromComplete(line: seq<bool>, c: nat, s: nat, e: nat)
    requires c <= s
    requires IsMaximalRun(line, s, e)
    ensures Run(s, e) in RunsFrom(line, c)
    decreases |line| - c
  {
    if c == s {
      RunEndOfMaximal(line, s, e, s);
    } else if line[c] {
      RunsFromComplete(line, c + 1, s, e);
    } else {
      var e' := RunEnd(line, c);
      // the run through c ends at or before the block at s - 1
      assert e' <= s - 1 by {
        assert line[s - 1];
      }
      RunsFromComplete(line, e', s, e);
    }
  }

  /** From any white position inside a maximal run, RunEnd finds its end. */
  lemma {:induction false} RunEndOfMaximal(line: seq<bool>, s: int, e: int, k: nat)
    requires IsMaximalRun(line, s, e)
    requires s <= k <= e
    ensures RunEnd(line, k) == e
    decreases e - k
  {
    if k < e {
      RunEndOfMaximal(line, s, e, k + 1);
    }
  }

  /** From any position inside a maximal run, RunStart finds its start. */
  lemma {:induction false} RunStartOfMaximal(line: seq<bool>, s: int, e: int, k: nat)
    requires IsMaximalRun(line, s, e)
    requires s <= k < e
    ensures RunStart(line, k) == s
    decreases k - s
  {
    if k > s {
      RunStartOfMaximal(line, s, e, k - 1);
    }
  }

  /** The run found around a white cell by the two scans is maximal. */
  lemma RunAroundIsMaximal(line: seq<bool>, k: nat)
    requires k < |line| && !line[k]
    ensures IsMaximalRun(line, RunStart(line, k), RunEnd(line, k))
  {
  }

  /** The scan reports runs left to right, strictly after one another. */
  lemma {:induction false} RunsFromOrdered(line: seq<bool>, c: nat)
    requires c <= |line|
    ensures forall i, j :: 0 <= i < j < |RunsFrom(line, c)| ==>
              RunsFrom(line, c)[i].end < RunsFrom(line, c)[j].start
    ensures forall i :: 0 <= i < |RunsFrom(line, c)| ==>
              c <= RunsFrom(line, c)[i].start < RunsFrom(line, c)[i].end
    decreases |line| - c
  {
    if c == |line| {
    } else if line[c] {
      RunsFromOrdered(line, c + 1);
    } else {
      var e := RunEnd(line, c);
      RunsFromOrdered(line, e);
      var rest := RunsFrom(line, e);
      assert RunsFrom(line, c) == [Run(c, e)] + rest;
      // the run after [c, e) starts after the block at e
      forall j | 0 < j < |RunsFrom(line, c)|
        ensures e < RunsFrom(line, c)[j].start
      {
        assert RunsFrom(line, c)[j] == rest[j - 1];
        if rest[j - 1].start == e {
          assert rest == RunsFrom(line, e + 1) || e == |line|;
          RunsFromOrdered(line, e + 1);
        }
      }
    }
  }

  /** All runs reported from c are at least 3 long. */
  predicate AllLongFrom(line: seq<bool>, c: nat)
    requires c <= |line|
  {
    forall x :: x in RunsFrom(line, c) ==> Len(x) >= 3
  }

  /** The three views of "no short word on this line" agree: every reported
      run is long; every maximal run is long; the run around every white
      cell is long. */
  lemma LongRunsEquivalent(line: seq<bool>)
    ensures AllLongFrom(line, 0) <==>
              (forall s, e :: IsMaximalRun(line, s, e) ==> e - s >= 3)
    ensures AllLongFrom(line, 0) <==>
              (forall k :: 0 <= k < |line| && !line[k] ==>
                 RunEnd(line, k) - RunStart(line, k) >= 3)
  {
    RunsFromSound(line, 0);
    forall s, e | IsMaximalRun(line, s, e)
      ensures Run(s, e) in RunsFrom(line, 0)
    {
      RunsFromComplete(line, 0, s, e);
    }
    forall k | 0 <= k < |line| && !line[k]
      ensures IsMaximalRun(line, RunStart(line, k), RunEnd(line, k))
    {
      RunAroundIsMaximal(line, k);
    }
    forall s, e | IsMaximalRun(line, s, e)
      ensures RunEnd(line, s) - RunStart(line, s) == e - s
    {
      RunEndOfMaximal(line, s, e, s);
      RunStartOfMaximal(line, s, e, s);
    }
  }
}
