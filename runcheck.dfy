/** The run-length rule of the fixed-size builders: every maximal white run
    in every row and column must be at least three cells long. The 15x15
    builder checks it run by run (`runs_ok`), the 13x13 builder cell by cell
    (`min_run_ok`); both are proved to decide the same property. */
module RunCheck {
  import opened Pattern
  import opened Runs

  /** Every maximal white run of every row and column is at least 3 long. */
  predicate AllRunsLong(g: Grid)
    requires Square(g)
  {
    && (forall r :: 0 <= r < |g| ==> AllLongFrom(g[r], 0))
    && (forall c :: 0 <= c < |g| ==> AllLongFrom(Column(g, c), 0))
  }

  /** One line of `runs_ok`: skip blocks, measure each white run, reject a
      run shorter than 3. */
  method LineRunsOk(line: seq<bool>) returns (ok: bool)
    ensures ok <==> AllLongFrom(line, 0)
  {
    var c := 0;
    while c < |line|
      invariant c <= |line|
      invariant AllLongFrom(line, 0) <==> AllLongFrom(line, c)
    {
      if line[c] {
        c := c + 1;
        continue;
      }
      var s := c;
      while c < |line| && !line[c]
        invariant s <= c <= |line|
        invariant RunEnd(line, c) == RunEnd(line, s)
      {
        c := c + 1;
      }
      assert RunsFrom(line, s) == [Run(s, c)] + RunsFrom(line, c);
      if c - s < 3 {
        assert Run(s, c) in RunsFrom(line, s) && Len(Run(s, c)) < 3;
        return false;
      }
    }
    return true;
  }

  /** `runs_ok(b)` (15x15 builder): rows first, then columns. */
  method RunsOk(g: Grid) returns (ok: bool)
    requires Square(g)
    ensures ok <==> AllRunsLong(g)
  {
    for r := 0 to |g|
      invariant forall r' :: 0 <= r' < r ==> AllLongFrom(g[r'], 0)
    {
      var rowOk := LineRunsOk(g[r]);
      if !rowOk {
        return false;
      }
    }
    for c := 0 to |g|
      invariant forall c' :: 0 <= c' < c ==> AllLongFrom(Column(g, c'), 0)
    {
      var colOk := LineRunsOk(Column(g, c));
      if !colOk {
        return false;
      }
    }
    return true;
  }

  /** The leftward (upward) scan `while a0 - 1 >= 0 and not line[a0 - 1]`. */
  method ScanBack(line: seq<bool>, k: nat) returns (a0: nat)
    requires k < |line|
    ensures a0 == RunStart(line, k)
  {
    a0 := k;
    while a0 >= 1 && !line[a0 - 1]
      invariant a0 <= k
      invariant RunStart(line, a0) == RunStart(line, k)
    {
      a0 := a0 - 1;
    }
  }

  /** The rightward (downward) scan `while a1 + 1 < SIZE and not line[a1 + 1]`,
      started on a white cell; it stops on the run's last cell. */
  method ScanForward(line: seq<bool>, k: nat) returns (a1: nat)
    requires k < |line| && !line[k]
    ensures a1 + 1 == RunEnd(line, k)
  {
    a1 := k;
    while a1 + 1 < |line| && !line[a1 + 1]
      invariant k <= a1 < |line| && !line[a1]
      invariant RunEnd(line, a1) == RunEnd(line, k)
    {
      a1 := a1 + 1;
    }
  }

  /** The across and down runs through the white cell (r, c) both span at
      least 3 cells. */
  predicate CellRunsLong(g: Grid, r: nat, c: nat)
    requires Square(g) && r < |g| && c < |g|
  {
    && RunEnd(g[r], c) - RunStart(g[r], c) >= 3
    && RunEnd(Column(g, c), r) - RunStart(Column(g, c), r) >= 3
  }

  /** `min_run_ok(blocks)` (13x13 builder): measure the across and down run
      around every white cell. */
  method MinRunOk(g: Grid) returns (ok: bool)
    requires Square(g)
    ensures ok <==> forall r: nat, c: nat :: r < |g| && c < |g| && !g[r][c] ==> CellRunsLong(g, r, c)
  {
    for r := 0 to |g|
      invariant LongBefore(g, r, 0)
    {
      for c := 0 to |g|
        invariant LongBefore(g, r, c)
      {
        var cellOk := CellOk(g, r, c);
        if !cellOk {
          return false;
        }
        LongNextCell(g, r, c);
      }
      LongNextRow(g, r);
    }
    return true;
  }

  /** Every white cell before (r, c) in row-major order has long runs. */
  predicate LongBefore(g: Grid, r: nat, c: nat)
    requires Square(g)
  {
    forall r': nat, c': nat :: (r' < r || (r' == r && c' < c)) && r' < |g| && c' < |g| && !g[r'][c'] ==>
      CellRunsLong(g, r', c')
  }

  lemma LongNextCell(g: Grid, r: nat, c: nat)
    requires Square(g) && r < |g| && c < |g| && LongBefore(g, r, c) && (g[r][c] || CellRunsLong(g, r, c))
    ensures LongBefore(g, r, c + 1)
  {
  }

  lemma LongNextRow(g: Grid, r: nat)
    requires Square(g) && r < |g| && LongBefore(g, r, |g|)
    ensures LongBefore(g, r + 1, 0)
  {
  }

  /** The body of the scan of `min_run_ok` at cell (r, c): a block
      passes, a white cell when its across and down runs are long enough. */
  method CellOk(g: Grid, r: nat, c: nat) returns (ok: bool)
    requires Square(g) && r < |g| && c < |g|
    ensures ok <==> g[r][c] || CellRunsLong(g, r, c)
  {
    if g[r][c] {
      return true;
    }
    var col := Column(g, c);
    var a0 := ScanBack(g[r], c);
    var a1 := ScanForward(g[r], c);
    var d0 := ScanBack(col, r);
    var d1 := ScanForward(col, r);
    ok := !(a1 - a0 + 1 < 3 || d1 - d0 + 1 < 3);
  }

  /** The two builders' run checks accept exactly the same patterns. */
  lemma RunChecksAgree(g: Grid)
    requires Square(g)
    ensures AllRunsLong(g) <==>
              forall r: nat, c: nat :: r < |g| && c < |g| && !g[r][c] ==> CellRunsLong(g, r, c)
  {
    forall r | 0 <= r < |g|
      ensures AllLongFrom(g[r], 0) <==>
                forall k :: 0 <= k < |g| && !g[r][k] ==> RunEnd(g[r], k) - RunStart(g[r], k) >= 3
    {
      LongRunsEquivalent(g[r]);
    }
    forall c | 0 <= c < |g|
      ensures AllLongFrom(Column(g, c), 0) <==>
                forall k :: 0 <= k < |g| && !g[k][c] ==>
                  RunEnd(Column(g, c), k) - RunStart(Column(g, c), k) >= 3
    {
      LongRunsEquivalent(Column(g, c));
    }
  }
}
