/** Slot extraction for the fixed-size builders (`extract_slots` in both):
    every maximal white run of length at least 3 becomes a slot; across
    slots are numbered row by row, then down slots column by column. */
module Slots {
  import opened Common
  import opened Runs
  import opened Pattern

  /** A slot: its id, its direction and its cells in reading order.
      The source's `length` field is `|cells|`. */
  datatype Slot = Slot(sid: nat, dir: Dir, cells: seq<Cell>)

  /** A slot before numbering. */
  datatype Seg = Seg(dir: Dir, cells: seq<Cell>)

  /** The cells [s, e) of row k (Across) or column k (Down). */
  function RunCells(dir: Dir, k: int, s: int, e: int): (cells: seq<Cell>)
    requires s <= e
    ensures |cells| == e - s
    ensures forall i :: 0 <= i < e - s ==> cells[i] == (if dir == Across then (k, s + i) else (s + i, k))
  {
    seq(e - s, i => if dir == Across then (k, s + i) else (s + i, k))
  }

  /** The slots that a scan of one line yields, from the runs it reports. */
  function SegsOfRuns(dir: Dir, k: int, runs: seq<Run>): seq<Seg>
  {
    if runs == [] then []
    else
      var x := runs[0];
      (if x.end - x.start >= 3 && x.start <= x.end
       then [Seg(dir, RunCells(dir, k, x.start, x.end))] else [])
      + SegsOfRuns(dir, k, runs[1..])
  }

  function LineSegs(dir: Dir, k: int, line: seq<bool>): seq<Seg>
  {
    SegsOfRuns(dir, k, LineRuns(line))
  }

  /** Slots of rows 0..r-1, in scan order. */
  function AcrossUpTo(g: Grid, r: nat): seq<Seg>
    requires Square(g) && r <= |g|
  {
    if r == 0 then [] else AcrossUpTo(g, r - 1) + LineSegs(Across, r - 1, g[r - 1])
  }

  /** Slots of columns 0..c-1, in scan order. */
  function DownUpTo(g: Grid, c: nat): seq<Seg>
    requires Square(g) && c <= |g|
  {
    if c == 0 then [] else DownUpTo(g, c - 1) + LineSegs(Down, c - 1, Column(g, c - 1))
  }

  /** All slots of a pattern before numbering: across rows, then down columns. */
  function SlotSegs(g: Grid): seq<Seg>
    requires Square(g)
  {
    AcrossUpTo(g, |g|) + DownUpTo(g, |g|)
  }

  /** Slot ids are positions in the extraction order. */
  predicate Numbered(slots: seq<Slot>, segs: seq<Seg>)
  {
    && |slots| == |segs|
    && forall i :: 0 <= i < |slots| ==>
         slots[i] == Slot(i, segs[i].dir, segs[i].cells)
  }

  lemma NumberedAppend(slots: seq<Slot>, segs: seq<Seg>, seg: Seg)
    requires Numbered(slots, segs)
    ensures Numbered(slots + [Slot(|slots|, seg.dir, seg.cells)], segs + [seg])
  {
  }

  /** The run scan of one line (the inner `while c < SIZE` loop of
      `extract_slots`), appending a slot for each run of length >= 3. */
  method ScanLine(dir: Dir, k: int, line: seq<bool>, slots: seq<Slot>, ghost segs: seq<Seg>)
    returns (slots': seq<Slot>)
    requires Numbered(slots, segs)
    ensures Numbered(slots', segs + LineSegs(dir, k, line))
  {
    slots' := slots;
    ghost var segs' := segs;
    var c := 0;
    while c < |line|
      invariant c <= |line|
      invariant Numbered(slots', segs')
      invariant segs' + SegsOfRuns(dir, k, RunsFrom(line, c)) == segs + LineSegs(dir, k, line)
    {
      if line[c] {
        c := c + 1;
        continue;
      }
      var start := c;
      while c < |line| && !line[c]
        invariant start <= c <= |line|
        invariant RunEnd(line, c) == RunEnd(line, start)
      {
        c := c + 1;
      }
      ghost var found := if c - start >= 3 then [Seg(dir, RunCells(dir, k, start, c))] else [];
      ghost var rest := SegsOfRuns(dir, k, RunsFrom(line, c));
      assert SegsOfRuns(dir, k, RunsFrom(line, start)) == found + rest by {
        assert RunsFrom(line, start) == [Run(start, c)] + RunsFrom(line, c);
      }
      ghost var done := segs';
      if c - start >= 3 {
        var seg := Seg(dir, RunCells(dir, k, start, c));
        NumberedAppend(slots', segs', seg);
        slots' := slots' + [Slot(|slots'|, dir, seg.cells)];
        segs' := segs' + [seg];
      }
      assert segs' == done + found;
      ConcatAssoc(done, found, rest);
    }
    assert RunsFrom(line, c) == [];
  }

  lemma ConcatAssoc<T>(a: seq<T>, b: seq<T>, c: seq<T>)
    ensures (a + b) + c == a + (b + c)
  {
  }

  /** `extract_slots(b)`: across slots row by row, then down slots column by
      column, numbered from 0 in that order. */
  method ExtractSlots(g: Grid) returns (slots: seq<Slot>)
    requires Square(g)
    ensures Numbered(slots, SlotSegs(g))
  {
    slots := [];
    ghost var segs: seq<Seg> := [];
    for r := 0 to |g|
      invariant Numbered(slots, segs)
      invariant segs == AcrossUpTo(g, r)
    {
      slots := ScanLine(Across, r, g[r], slots, segs);
      segs := segs + LineSegs(Across, r, g[r]);
    }
    for c := 0 to |g|
      invariant Numbered(slots, segs)
      invariant segs == AcrossUpTo(g, |g|) + DownUpTo(g, c)
    {
      slots := ScanLine(Down, c, Column(g, c), slots, segs);
      segs := segs + LineSegs(Down, c, Column(g, c));
    }
  }

  /** Row k (Across) or column k (Down) of the pattern. */
  function LineOf(g: Grid, dir: Dir, k: nat): (line: seq<bool>)
    requires Square(g) && k < |g|
    ensures |line| == |g|
  {
    if dir == Across then g[k] else Column(g, k)
  }

  /** seg covers a whole maximal white run, at least 3 long, of row or
      column k. */
  predicate IsRunSeg(g: Grid, seg: Seg, k: nat, s: nat, e: nat)
    requires Square(g)
  {
    && k < |g| && s + 3 <= e
    && IsMaximalRun(LineOf(g, seg.dir, k), s, e)
    && seg.cells == RunCells(seg.dir, k, s, e)
  }

  /** Where in its line a slot lies, read off its first cell. */
  function Place(seg: Seg): (int, int, int)
    requires |seg.cells| > 0
  {
    var (r0, c0) := seg.cells[0];
    if seg.dir == Across then (r0, c0, c0 + |seg.cells|) else (c0, r0, r0 + |seg.cells|)
  }

  /** A slot of the pattern: a maximal white run of length >= 3. */
  predicate WellFormed(g: Grid, seg: Seg)
    requires Square(g)
  {
    && |seg.cells| >= 3
    && var (k, s, e) := Place(seg);
       0 <= k && 0 <= s && 0 <= e && IsRunSeg(g, seg, k, s, e)
  }

  /** The slots made from a list of runs are exactly its long runs. */
  lemma {:induction false} SegsOfRunsMembers(dir: Dir, k: int, runs: seq<Run>)
    ensures forall seg :: seg in SegsOfRuns(dir, k, runs) <==>
              exists x :: x in runs && Len(x) >= 3 && seg == Seg(dir, RunCells(dir, k, x.start, x.end))
  {
    if runs != [] {
      SegsOfRunsMembers(dir, k, runs[1..]);
      assert runs == [runs[0]] + runs[1..];
    }
  }

  /** Every slot of line k is a well-formed slot. */
  lemma LineSegsSound(g: Grid, dir: Dir, k: nat)
    requires Square(g) && k < |g|
    ensures forall seg :: seg in LineSegs(dir, k, LineOf(g, dir, k)) ==>
              seg.dir == dir && WellFormed(g, seg) && Place(seg).0 == k
  {
    var line := LineOf(g, dir, k);
    SegsOfRunsMembers(dir, k, LineRuns(line));
    RunsFromSound(line, 0);
    forall seg | seg in LineSegs(dir, k, line)
      ensures seg.dir == dir && WellFormed(g, seg) && Place(seg).0 == k
    {
      var x :| x in LineRuns(line) && Len(x) >= 3 && seg == Seg(dir, RunCells(dir, k, x.start, x.end));
      assert Place(seg) == (k, x.start, x.end);
      assert IsRunSeg(g, seg, k, x.start, x.end);
    }
  }

  /** Every maximal run of length >= 3 of line k is one of its slots. */
  lemma LineSegsComplete(g: Grid, dir: Dir, k: nat, s: nat, e: nat)
    requires Square(g) && k < |g|
    requires IsMaximalRun(LineOf(g, dir, k), s, e) && e - s >= 3
    ensures Seg(dir, RunCells(dir, k, s, e)) in LineSegs(dir, k, LineOf(g, dir, k))
  {
    var line := LineOf(g, dir, k);
    RunsFromComplete(line, 0, s, e);
    SegsOfRunsMembers(dir, k, LineRuns(line));
    assert Run(s, e) in LineRuns(line) && Len(Run(s, e)) >= 3;
  }

  /** The across part holds slots of the rows before r, in row order. */
  lemma {:induction false} AcrossUpToSpec(g: Grid, r: nat)
    requires Square(g) && r <= |g|
    ensures forall seg :: seg in AcrossUpTo(g, r) ==> seg.dir == Across && WellFormed(g, seg) && Place(seg).0 < r
    ensures forall k: nat, s: nat, e: nat :: k < r && IsMaximalRun(g[k], s, e) && e - s >= 3 ==>
              Seg(Across, RunCells(Across, k, s, e)) in AcrossUpTo(g, r)
  {
    if r > 0 {
      AcrossUpToSpec(g, r - 1);
      LineSegsSound(g, Across, r - 1);
      forall k: nat, s: nat, e: nat | k < r && IsMaximalRun(g[k], s, e) && e - s >= 3
        ensures Seg(Across, RunCells(Across, k, s, e)) in AcrossUpTo(g, r)
      {
        if k == r - 1 {
          LineSegsComplete(g, Across, k, s, e);
        }
      }
    }
  }

  lemma {:induction false} DownUpToSpec(g: Grid, c: nat)
    requires Square(g) && c <= |g|
    ensures forall seg :: seg in DownUpTo(g, c) ==> seg.dir == Down && WellFormed(g, seg) && Place(seg).0 < c
    ensures forall k: nat, s: nat, e: nat :: k < c && IsMaximalRun(Column(g, k), s, e) && e - s >= 3 ==>
              Seg(Down, RunCells(Down, k, s, e)) in DownUpTo(g, c)
  {
    if c > 0 {
      DownUpToSpec(g, c - 1);
      LineSegsSound(g, Down, c - 1);
      forall k: nat, s: nat, e: nat | k < c && IsMaximalRun(Column(g, k), s, e) && e - s >= 3
        ensures Seg(Down, RunCells(Down, k, s, e)) in DownUpTo(g, c)
      {
        if k == c - 1 {
          LineSegsComplete(g, Down, k, s, e);
        }
      }
    }
  }

  /** The slots of a pattern are exactly its maximal white runs of length at
      least 3, in either direction; the across slots come first. */
  lemma SlotSegsSpec(g: Grid)
    requires Square(g)
    ensures forall seg :: seg in SlotSegs(g) ==> WellFormed(g, seg)
    ensures forall dir, k: nat, s: nat, e: nat ::
              k < |g| && IsMaximalRun(LineOf(g, dir, k), s, e) && e - s >= 3 ==>
              Seg(dir, RunCells(dir, k, s, e)) in SlotSegs(g)
    ensures forall i :: 0 <= i < |SlotSegs(g)| ==>
              (SlotSegs(g)[i].dir == Across <==> i < |AcrossUpTo(g, |g|)|)
  {
    AcrossUpToSpec(g, |g|);
    DownUpToSpec(g, |g|);
    var a, d := AcrossUpTo(g, |g|), DownUpTo(g, |g|);
    forall i | 0 <= i < |SlotSegs(g)|
      ensures SlotSegs(g)[i].dir == Across <==> i < |a|
    {
      if i < |a| {
        assert SlotSegs(g)[i] == a[i];
      } else {
        assert SlotSegs(g)[i] == d[i - |a|];
      }
    }
  }
}
