/** Crossword numbering over a rectangular character grid whose blocks are
    '#': a white cell gets the next number, in row-major order, when it
    starts an across or a down run of at least two white cells; each such
    run is an entry (number, word, row, column). The same convention is
    used by `collect`/`collect_entries` of the fixed-size builders, by
    `enumerate_entries` of the three sparse-canvas placers and by
    `buildNumbering` of the solver page. */
module Numbering {
  import opened Common

  type Rows = seq<string>

  /** h rows of w characters each. */
  predicate Rect(g: Rows, h: nat, w: nat)
  {
    |g| == h && forall r :: 0 <= r < h ==> |g[r]| == w
  }

  predicate WhiteAt(g: Rows, x: Cell)
  {
    0 <= x.0 < |g| && 0 <= x.1 < |g[x.0]| && g[x.0][x.1] != '#'
  }

  /** `(c == 0 or rows[r][c-1] == '#') and c + 1 < w and rows[r][c+1] != '#'`
      at a white cell. */
  predicate StartsAcross(g: Rows, w: nat, x: Cell)
  {
    WhiteAt(g, x) && (x.1 == 0 || !WhiteAt(g, (x.0, x.1 - 1))) && x.1 + 1 < w && WhiteAt(g, (x.0, x.1 + 1))
  }

  predicate StartsDown(g: Rows, h: nat, x: Cell)
  {
    WhiteAt(g, x) && (x.0 == 0 || !WhiteAt(g, (x.0 - 1, x.1))) && x.0 + 1 < h && WhiteAt(g, (x.0 + 1, x.1))
  }

  /** The cell gets a number. */
  predicate Starts(g: Rows, h: nat, w: nat, x: Cell)
  {
    StartsAcross(g, w, x) || StartsDown(g, h, x)
  }

  /** The cells of an h x w grid in row-major order. */
  function RowMajor(h: nat, w: nat): (cs: seq<Cell>)
    ensures |cs| == h * w
    ensures InGrid(h, w, cs)
  {
    if h == 0 then [] else RowMajor(h - 1, w) + seq(w, c => (h - 1, c))
  }

  lemma {:induction false} RowMajorIndex(h: nat, w: nat, r: nat, c: nat)
    requires r < h && c < w
    ensures 0 <= r * w + c < h * w && RowMajor(h, w)[r * w + c] == (r, c)
  {
    assert (h - 1) * w + w == h * w;
    if r < h - 1 {
      RowMajorIndex(h - 1, w, r, c);
      assert r * w + c < (h - 1) * w;
    } else {
      assert r * w + c == (h - 1) * w + c;
    }
  }

  lemma {:induction false} RowMajorCells(h: nat, w: nat)
    ensures NoDup(RowMajor(h, w))
    ensures forall x :: x in RowMajor(h, w) <==> 0 <= x.0 < h && 0 <= x.1 < w
  {
    if h > 0 {
      RowMajorCells(h - 1, w);
      var a := RowMajor(h - 1, w);
      var b := seq(w, c => (h - 1, c));
      forall i, j | 0 <= i < j < |a + b| ensures (a + b)[i] != (a + b)[j] {
        if i < |a| && j >= |a| {
          assert (a + b)[i] in a;
        } else if i < |a| {
          assert (a + b)[i] == a[i] && (a + b)[j] == a[j];
        }
      }
      forall x: Cell | 0 <= x.0 < h && 0 <= x.1 < w ensures x in RowMajor(h, w) {
        if x.0 == h - 1 {
          assert b[x.1] == x;
        } else {
          assert x in a;
        }
      }
    }
  }

  /** The number of numbered cells in cs. */
  function StartsIn(g: Rows, h: nat, w: nat, cs: seq<Cell>): nat
  {
    if cs == [] then 0
    else StartsIn(g, h, w, cs[..|cs| - 1]) + (if Starts(g, h, w, cs[|cs| - 1]) then 1 else 0)
  }

  /** First index at or after c holding '#', or the row's end. */
  function RunEnd(line: string, c: nat): (e: nat)
    requires c <= |line|
    ensures c <= e <= |line|
    ensures forall i :: c <= i < e ==> line[i] != '#'
    ensures e == |line| || line[e] == '#'
    decreases |line| - c
  {
    if c < |line| && line[c] != '#' then RunEnd(line, c + 1) else c
  }

  function Column(g: Rows, h: nat, w: nat, c: nat): (col: string)
    requires Rect(g, h, w) && c < w
    ensures |col| == h && forall r :: 0 <= r < h ==> col[r] == g[r][c]
  {
    seq(h, r requires 0 <= r < h => g[r][c])
  }

  /** The run read rightwards from x: the letters up to the next block or
      the edge, at least two of them at an across start. */
  function AcrossWord(g: Rows, h: nat, w: nat, x: Cell): (word: string)
    requires Rect(g, h, w) && 0 <= x.0 < h && 0 <= x.1 < w
    ensures x.1 + |word| <= w && word == g[x.0][x.1..x.1 + |word|]
    ensures forall i :: 0 <= i < |word| ==> word[i] != '#'
    ensures x.1 + |word| == w || g[x.0][x.1 + |word|] == '#'
    ensures StartsAcross(g, w, x) ==> |word| >= 2
  {
    g[x.0][x.1..RunEnd(g[x.0], x.1)]
  }

  /** The run read downwards from x: the letters of column x.1 from row x.0
      up to the next block or the edge, at least two at a down start. */
  function DownWord(g: Rows, h: nat, w: nat, x: Cell): (word: string)
    requires Rect(g, h, w) && 0 <= x.0 < h && 0 <= x.1 < w
    ensures x.0 + |word| <= h && forall i :: 0 <= i < |word| ==> word[i] == g[x.0 + i][x.1] != '#'
    ensures x.0 + |word| == h || g[x.0 + |word|][x.1] == '#'
    ensures StartsDown(g, h, x) ==> |word| >= 2
  {
    var col := Column(g, h, w, x.1);
    col[x.0..RunEnd(col, x.0)]
  }

  /** A numbered entry: `(number, word, r, c)`. */
  datatype Entry = Entry(num: nat, word: string, row: int, col: int)

  predicate InGrid(h: nat, w: nat, cs: seq<Cell>)
  {
    forall k :: 0 <= k < |cs| ==> 0 <= cs[k].0 < h && 0 <= cs[k].1 < w
  }

  predicate StartsDir(g: Rows, h: nat, w: nat, d: Dir, x: Cell)
  {
    if d == Across then StartsAcross(g, w, x) else StartsDown(g, h, x)
  }

  function WordAt(g: Rows, h: nat, w: nat, d: Dir, x: Cell): string
    requires Rect(g, h, w) && 0 <= x.0 < h && 0 <= x.1 < w
  {
    if d == Across then AcrossWord(g, h, w, x) else DownWord(g, h, w, x)
  }

  /** The entries in direction d of the cells cs, each numbered after the
      starts before it. */
  function EntriesOf(g: Rows, h: nat, w: nat, d: Dir, cs: seq<Cell>): seq<Entry>
    requires Rect(g, h, w) && InGrid(h, w, cs)
  {
    if cs == [] then []
    else
      var pre := cs[..|cs| - 1];
      var x := cs[|cs| - 1];
      EntriesOf(g, h, w, d, pre)
      + (if StartsDir(g, h, w, d, x) then [Entry(1 + StartsIn(g, h, w, pre), WordAt(g, h, w, d, x), x.0, x.1)] else [])
  }

  /** The number map of the cells cs: each numbered cell to one more than
      the count of numbered cells before it. */
  function NumbersOf(g: Rows, h: nat, w: nat, cs: seq<Cell>): map<Cell, nat>
  {
    if cs == [] then map[]
    else
      var pre := cs[..|cs| - 1];
      var x := cs[|cs| - 1];
      var m := NumbersOf(g, h, w, pre);
      if Starts(g, h, w, x) then m[x := 1 + StartsIn(g, h, w, pre)] else m
  }

  /** One more cell of the row-major scan. */
  lemma RowMajorStep(h: nat, w: nat, r: nat, c: nat)
    requires r < h && c < w
    ensures r * w + c < h * w
    ensures RowMajor(h, w)[..r * w + c + 1] == RowMajor(h, w)[..r * w + c] + [(r, c)]
  {
    RowMajorIndex(h, w, r, c);
  }

  /** `while cc < w and rows[r][cc] != '#': word.append(rows[r][cc])`. */
  method ReadAcross(g: Rows, h: nat, w: nat, r: nat, c: nat) returns (word: string)
    requires Rect(g, h, w) && r < h && c < w
    ensures word == AcrossWord(g, h, w, (r, c))
  {
    var row := g[r];
    var cc := c;
    word := [];
    while cc < w && row[cc] != '#'
      invariant c <= cc <= RunEnd(row, c) && RunEnd(row, cc) == RunEnd(row, c)
      invariant word == row[c..cc]
      decreases w - cc
    {
      word := word + [row[cc]];
      cc := cc + 1;
    }
  }

  /** `while rr < h and rows[rr][c] != '#': word.append(rows[rr][c])`. */
  method ReadDown(g: Rows, h: nat, w: nat, r: nat, c: nat) returns (word: string)
    requires Rect(g, h, w) && r < h && c < w
    ensures word == DownWord(g, h, w, (r, c))
  {
    ghost var col := Column(g, h, w, c);
    var rr := r;
    word := [];
    while rr < h && g[rr][c] != '#'
      invariant r <= rr <= RunEnd(col, r) && RunEnd(col, rr) == RunEnd(col, r)
      invariant word == col[r..rr]
      decreases h - rr
    {
      word := word + [g[rr][c]];
      rr := rr + 1;
    }
  }

  /** What the row-major scan has produced after the first k cells. */
  ghost predicate ScannedUpTo(g: Rows, h: nat, w: nat, k: nat, n: nat, across: seq<Entry>, down: seq<Entry>)
    requires Rect(g, h, w) && k <= h * w
  {
    Scanned(g, h, w, RowMajor(h, w)[..k], n, across, down)
  }

  /** n, across and down are what the scan of the cells cs produces. */
  ghost predicate Scanned(g: Rows, h: nat, w: nat, cs: seq<Cell>, n: nat, across: seq<Entry>, down: seq<Entry>)
    requires Rect(g, h, w) && InGrid(h, w, cs)
  {
    && n == 1 + StartsIn(g, h, w, cs)
    && across == EntriesOf(g, h, w, Across, cs)
    && down == EntriesOf(g, h, w, Down, cs)
  }

  /** `enumerate_entries(rows)` (and `collect(grid)` of the fixed-size
      builders, whose grid is SIZE x SIZE): the across and down entries in
      row-major order of their start cells, numbered by the convention. */
  method EnumerateEntries(g: Rows) returns (across: seq<Entry>, down: seq<Entry>)
    requires |g| > 0 && Rect(g, |g|, |g[0]|)
    ensures across == EntriesOf(g, |g|, |g[0]|, Across, RowMajor(|g|, |g[0]|))
    ensures down == EntriesOf(g, |g|, |g[0]|, Down, RowMajor(|g|, |g[0]|))
  {
    var h, w := |g|, |g[0]|;
    var nums: map<Cell, nat> := map[];
    var n := 1;
    across, down := [], [];
    ghost var k: nat := 0;
    for r := 0 to h
      invariant k == r * w <= h * w && ScannedUpTo(g, h, w, k, n, across, down)
    {
      for c := 0 to w
        invariant k == r * w + c <= h * w && ScannedUpTo(g, h, w, k, n, across, down)
      {
        CellIndexBound(h, w, r, c);
        n, across, down, nums := ScanStep(g, h, w, r, c, k, n, across, down, nums);
        k := k + 1;
      }
      CellIndexBound(h, w, r, w);
    }
    assert RowMajor(h, w)[..h * w] == RowMajor(h, w);
  }

  /** The scan at cell (r, c) carries on the scan of the cells before it. */
  method ScanStep(g: Rows, h: nat, w: nat, r: nat, c: nat, ghost k: nat,
                  n: nat, across: seq<Entry>, down: seq<Entry>, nums: map<Cell, nat>)
    returns (n': nat, across': seq<Entry>, down': seq<Entry>, nums': map<Cell, nat>)
    requires Rect(g, h, w) && r < h && c < w && k == r * w + c < h * w
    requires ScannedUpTo(g, h, w, k, n, across, down)
    ensures ScannedUpTo(g, h, w, k + 1, n', across', down')
  {
    ScanAdvance(g, h, w, r, c, n, across, down);
    n', across', down', nums' := ScanCell(g, h, w, r, c, n, across, down, nums);
  }

  /** Scanning cell (r, c) after the cells before it in row-major order. */
  lemma ScanAdvance(g: Rows, h: nat, w: nat, r: nat, c: nat, n: nat, across: seq<Entry>, down: seq<Entry>)
    requires Rect(g, h, w) && r < h && c < w && r * w + c < h * w
    requires ScannedUpTo(g, h, w, r * w + c, n, across, down)
    ensures ScannedUpTo(g, h, w, r * w + c + 1, n + (if Starts(g, h, w, (r, c)) then 1 else 0),
      across + (if StartsAcross(g, w, (r, c)) then [Entry(n, AcrossWord(g, h, w, (r, c)), r, c)] else []),
      down + (if StartsDown(g, h, (r, c)) then [Entry(n, DownWord(g, h, w, (r, c)), r, c)] else []))
  {
    RowMajorStep(h, w, r, c);
    ScanSnoc(g, h, w, RowMajor(h, w)[..r * w + c], (r, c), n, across, down);
  }

  lemma ScanSnoc(g: Rows, h: nat, w: nat, cs: seq<Cell>, x: Cell, n: nat, across: seq<Entry>, down: seq<Entry>)
    requires Rect(g, h, w) && InGrid(h, w, cs) && 0 <= x.0 < h && 0 <= x.1 < w
    requires Scanned(g, h, w, cs, n, across, down)
    ensures InGrid(h, w, cs + [x])
    ensures Scanned(g, h, w, cs + [x], n + (if Starts(g, h, w, x) then 1 else 0),
      across + (if StartsAcross(g, w, x) then [Entry(n, AcrossWord(g, h, w, x), x.0, x.1)] else []),
      down + (if StartsDown(g, h, x) then [Entry(n, DownWord(g, h, w, x), x.0, x.1)] else []))
  {
    ExtendScan(g, h, w, cs, x);
  }

  /** Cell (r, c) of the scan, c <= w, comes at index r * w + c. */
  lemma CellIndexBound(h: nat, w: nat, r: nat, c: nat)
    requires r < h && c <= w
    ensures r * w + c <= h * w && (c < w ==> r * w + c < h * w)
    ensures r * w + w == (r + 1) * w
  {
    assert (r + 1) * w <= h * w;
  }

  /** Scanning one more cell x adds its number and entries. */
  lemma ExtendScan(g: Rows, h: nat, w: nat, cs: seq<Cell>, x: Cell)
    requires Rect(g, h, w) && InGrid(h, w, cs) && 0 <= x.0 < h && 0 <= x.1 < w
    ensures InGrid(h, w, cs + [x])
    ensures StartsIn(g, h, w, cs + [x]) == StartsIn(g, h, w, cs) + (if Starts(g, h, w, x) then 1 else 0)
    ensures EntriesOf(g, h, w, Across, cs + [x]) == EntriesOf(g, h, w, Across, cs)
      + (if StartsAcross(g, w, x) then [Entry(1 + StartsIn(g, h, w, cs), AcrossWord(g, h, w, x), x.0, x.1)] else [])
    ensures NumbersOf(g, h, w, cs + [x]) == if Starts(g, h, w, x) then NumbersOf(g, h, w, cs)[x := 1 + StartsIn(g, h, w, cs)] else NumbersOf(g, h, w, cs)
    ensures EntriesOf(g, h, w, Down, cs + [x]) == EntriesOf(g, h, w, Down, cs)
      + (if StartsDown(g, h, x) then [Entry(1 + StartsIn(g, h, w, cs), DownWord(g, h, w, x), x.0, x.1)] else [])
  {
    assert (cs + [x])[..|cs|] == cs;
  }

  /** The start tests of the scan at a white cell. */
  lemma StartTests(g: Rows, h: nat, w: nat, r: nat, c: nat)
    requires Rect(g, h, w) && r < h && c < w && g[r][c] != '#'
    ensures StartsAcross(g, w, (r, c)) == ((c == 0 || g[r][c - 1] == '#') && c + 1 < w && g[r][c + 1] != '#')
    ensures StartsDown(g, h, (r, c)) == ((r == 0 || g[r - 1][c] == '#') && r + 1 < h && g[r + 1][c] != '#')
  {
    if r > 0 {
      assert |g[r - 1]| == w;
    }
    if r + 1 < h {
      assert |g[r + 1]| == w;
    }
  }

  /** The body of the scan at cell (r, c). */
  method ScanCell(g: Rows, h: nat, w: nat, r: nat, c: nat,
                  n: nat, across: seq<Entry>, down: seq<Entry>, nums: map<Cell, nat>)
    returns (n': nat, across': seq<Entry>, down': seq<Entry>, nums': map<Cell, nat>)
    requires Rect(g, h, w) && r < h && c < w
    ensures n' == n + (if Starts(g, h, w, (r, c)) then 1 else 0)
    ensures across' == across + (if StartsAcross(g, w, (r, c)) then [Entry(n, AcrossWord(g, h, w, (r, c)), r, c)] else [])
    ensures down' == down + (if StartsDown(g, h, (r, c)) then [Entry(n, DownWord(g, h, w, (r, c)), r, c)] else [])
  {
    n', across', down', nums' := n, across, down, nums;
    if g[r][c] == '#' {
      return;
    }
    var sa := (c == 0 || g[r][c - 1] == '#') && c + 1 < w && g[r][c + 1] != '#';
    var sd := (r == 0 || g[r - 1][c] == '#') && r + 1 < h && g[r + 1][c] != '#';
    StartTests(g, h, w, r, c);
    if sa || sd {
      nums' := nums'[(r, c) := n'];
      n' := n' + 1;
    }
    if sa {
      var word := ReadAcross(g, h, w, r, c);
      across' := across' + [Entry(nums'[(r, c)], word, r, c)];
    }
    if sd {
      var word := ReadDown(g, h, w, r, c);
      down' := down' + [Entry(nums'[(r, c)], word, r, c)];
    }
  }

  /** Position k of cs is a start in direction d and e is the entry the
      scan makes there. */
  predicate EntryAt(g: Rows, h: nat, w: nat, d: Dir, cs: seq<Cell>, k: nat, e: Entry)
    requires Rect(g, h, w) && InGrid(h, w, cs) && k < |cs|
  {
    && StartsDir(g, h, w, d, cs[k])
    && e == Entry(1 + StartsIn(g, h, w, cs[..k]), WordAt(g, h, w, d, cs[k]), cs[k].0, cs[k].1)
  }

  /** Every entry of the scan over cs is made at one of its starts. */
  lemma {:induction false} EntriesFrom(g: Rows, h: nat, w: nat, d: Dir, cs: seq<Cell>, e: Entry)
    requires Rect(g, h, w) && InGrid(h, w, cs) && e in EntriesOf(g, h, w, d, cs)
    ensures exists k :: 0 <= k < |cs| && EntryAt(g, h, w, d, cs, k, e)
  {
    var pre := cs[..|cs| - 1];
    PrefixInGrid(h, w, cs);
    EntriesSnoc(g, h, w, d, cs, pre);
    if e in EntriesOf(g, h, w, d, pre) {
      EntriesFrom(g, h, w, d, pre, e);
      var k :| 0 <= k < |pre| && EntryAt(g, h, w, d, pre, k, e);
      EntryAtPrefix(g, h, w, d, cs, k, e);
    } else {
      assert cs[..|pre|] == pre;
      assert EntryAt(g, h, w, d, cs, |pre|, e);
    }
  }

  /** The scan over cs makes an entry at each of its starts. */
  lemma {:induction false} EntriesHave(g: Rows, h: nat, w: nat, d: Dir, cs: seq<Cell>, k: nat, e: Entry)
    requires Rect(g, h, w) && InGrid(h, w, cs) && k < |cs| && EntryAt(g, h, w, d, cs, k, e)
    ensures e in EntriesOf(g, h, w, d, cs)
  {
    var pre := cs[..|cs| - 1];
    PrefixInGrid(h, w, cs);
    EntriesSnoc(g, h, w, d, cs, pre);
    if k < |pre| {
      EntryAtPrefix(g, h, w, d, cs, k, e);
      EntriesHave(g, h, w, d, pre, k, e);
    } else {
      assert cs[..k] == pre;
    }
  }

  lemma PrefixInGrid(h: nat, w: nat, cs: seq<Cell>)
    requires InGrid(h, w, cs) && cs != []
    ensures InGrid(h, w, cs[..|cs| - 1])
  {
    assert forall k :: 0 <= k < |cs| - 1 ==> cs[..|cs| - 1][k] == cs[k];
  }

  /** The entries of cs are those of its prefix, then the one of its last
      cell if that starts an entry. */
  lemma EntriesSnoc(g: Rows, h: nat, w: nat, d: Dir, cs: seq<Cell>, pre: seq<Cell>)
    requires Rect(g, h, w) && InGrid(h, w, cs) && cs != [] && pre == cs[..|cs| - 1] && InGrid(h, w, pre)
    ensures var x := cs[|cs| - 1];
      EntriesOf(g, h, w, d, cs) == EntriesOf(g, h, w, d, pre) +
        (if StartsDir(g, h, w, d, x) then [Entry(1 + StartsIn(g, h, w, pre), WordAt(g, h, w, d, x), x.0, x.1)] else [])
  {
  }

  lemma EntryAtPrefix(g: Rows, h: nat, w: nat, d: Dir, cs: seq<Cell>, k: nat, e: Entry)
    requires Rect(g, h, w) && InGrid(h, w, cs) && k < |cs| - 1 && InGrid(h, w, cs[..|cs| - 1])
    ensures EntryAt(g, h, w, d, cs[..|cs| - 1], k, e) <==> EntryAt(g, h, w, d, cs, k, e)
  {
    assert cs[..|cs| - 1][k] == cs[k];
    assert cs[..|cs| - 1][..k] == cs[..k];
  }

  /** Along the scan the numbers of the entries strictly increase and stay
      within the count of numbered cells. */
  lemma {:induction false} NumbersIncrease(g: Rows, h: nat, w: nat, d: Dir, cs: seq<Cell>)
    requires Rect(g, h, w) && InGrid(h, w, cs)
    ensures forall e :: e in EntriesOf(g, h, w, d, cs) ==> 1 <= e.num <= StartsIn(g, h, w, cs)
    ensures forall i, j :: 0 <= i < j < |EntriesOf(g, h, w, d, cs)| ==>
      EntriesOf(g, h, w, d, cs)[i].num < EntriesOf(g, h, w, d, cs)[j].num
  {
    if cs != [] {
      var pre := cs[..|cs| - 1];
      assert InGrid(h, w, pre) by {
        assert forall k :: 0 <= k < |pre| ==> pre[k] == cs[k];
      }
      NumbersIncrease(g, h, w, d, pre);
    }
  }

  /** The number a cell gets: one more than the numbered cells before it in
      reading order. */
  function NumberOf(g: Rows, h: nat, w: nat, x: Cell): nat
    requires 0 <= x.0 < h && 0 <= x.1 < w
  {
    RowMajorIndex(h, w, x.0, x.1);
    1 + StartsIn(g, h, w, RowMajor(h, w)[..x.0 * w + x.1])
  }

  /** An entry is in the scan of the whole grid iff it sits at a start
      cell of direction d and carries that cell's number and maximal run. */
  predicate GridEntry(g: Rows, h: nat, w: nat, d: Dir, e: Entry)
    requires Rect(g, h, w)
  {
    && 0 <= e.row < h && 0 <= e.col < w
    && StartsDir(g, h, w, d, (e.row, e.col))
    && e.word == WordAt(g, h, w, d, (e.row, e.col))
    && e.num == NumberOf(g, h, w, (e.row, e.col))
  }

  /** The entries in direction d of the whole grid: one per start cell of
      that direction, carrying the cell's number and its maximal run. */
  lemma GridEntries(g: Rows, h: nat, w: nat, d: Dir)
    requires Rect(g, h, w)
    ensures forall e :: e in EntriesOf(g, h, w, d, RowMajor(h, w)) <==> GridEntry(g, h, w, d, e)
  {
    forall e | e in EntriesOf(g, h, w, d, RowMajor(h, w)) ensures GridEntry(g, h, w, d, e) {
      ScannedEntry(g, h, w, d, e);
    }
    forall e | GridEntry(g, h, w, d, e) ensures e in EntriesOf(g, h, w, d, RowMajor(h, w)) {
      EntryScanned(g, h, w, d, e);
    }
  }

  lemma ScannedEntry(g: Rows, h: nat, w: nat, d: Dir, e: Entry)
    requires Rect(g, h, w) && e in EntriesOf(g, h, w, d, RowMajor(h, w))
    ensures GridEntry(g, h, w, d, e)
  {
    var cs := RowMajor(h, w);
    EntriesFrom(g, h, w, d, cs, e);
    var k :| 0 <= k < |cs| && EntryAt(g, h, w, d, cs, k, e);
    ScanPosition(h, w, k);
    var x := cs[k];
    assert x == (e.row, e.col);
    assert NumberOf(g, h, w, x) == 1 + StartsIn(g, h, w, cs[..k]);
  }

  lemma EntryScanned(g: Rows, h: nat, w: nat, d: Dir, e: Entry)
    requires Rect(g, h, w) && GridEntry(g, h, w, d, e)
    ensures e in EntriesOf(g, h, w, d, RowMajor(h, w))
  {
    var cs := RowMajor(h, w);
    RowMajorIndex(h, w, e.row, e.col);
    var k: nat := e.row * w + e.col;
    assert EntryAt(g, h, w, d, cs, k, e);
    EntriesHave(g, h, w, d, cs, k, e);
  }

  /** Position k of the row-major scan is cell (k / w, k % w), spelled
      without division: the cell x with x.0 * w + x.1 == k. */
  lemma ScanPosition(h: nat, w: nat, k: nat)
    requires k < h * w
    ensures 0 <= RowMajor(h, w)[k].0 < h && 0 <= RowMajor(h, w)[k].1 < w
    ensures RowMajor(h, w)[k].0 * w + RowMajor(h, w)[k].1 == k
  {
    var x := RowMajor(h, w)[k];
    RowMajorIndex(h, w, x.0, x.1);
    RowMajorCells(h, w);
    assert RowMajor(h, w)[x.0 * w + x.1] == RowMajor(h, w)[k];
  }

  /** The number map of the scan holds exactly the numbered cells of cs. */
  lemma {:induction false} NumbersKeys(g: Rows, h: nat, w: nat, cs: seq<Cell>, x: Cell)
    ensures x in NumbersOf(g, h, w, cs) <==> x in cs && Starts(g, h, w, x)
  {
    if cs != [] {
      var pre := cs[..|cs| - 1];
      NumbersKeys(g, h, w, pre, x);
      assert cs == pre + [cs[|cs| - 1]];
    }
  }

  /** In a scan over distinct cells, the numbered cell at position k maps
      to one more than the numbered cells before it. */
  lemma {:induction false} NumbersAt(g: Rows, h: nat, w: nat, cs: seq<Cell>, k: nat)
    requires NoDup(cs) && k < |cs| && Starts(g, h, w, cs[k])
    ensures cs[k] in NumbersOf(g, h, w, cs) && NumbersOf(g, h, w, cs)[cs[k]] == 1 + StartsIn(g, h, w, cs[..k])
  {
    var pre := cs[..|cs| - 1];
    if k < |pre| {
      assert pre[k] == cs[k] && pre[..k] == cs[..k];
      assert NoDup(pre);
      NumbersAt(g, h, w, pre, k);
    }
  }

  /** The numbers handed out by a scan over distinct cells are exactly
      1, 2, ..., up to the count of numbered cells. */
  lemma {:induction false} NumbersRange(g: Rows, h: nat, w: nat, cs: seq<Cell>)
    requires NoDup(cs)
    ensures forall v :: v in NumbersOf(g, h, w, cs).Values <==> 1 <= v <= StartsIn(g, h, w, cs)
  {
    if cs != [] {
      var pre := cs[..|cs| - 1];
      var x := cs[|cs| - 1];
      assert NoDup(pre);
      NumbersRange(g, h, w, pre);
      var m := NumbersOf(g, h, w, pre);
      if Starts(g, h, w, x) {
        NumbersKeys(g, h, w, pre, x);
        assert x !in pre;
        var v := 1 + StartsIn(g, h, w, pre);
        assert m[x := v].Values == m.Values + {v} by {
          forall u | u in m.Values ensures u in m[x := v].Values {
            var y :| y in m && m[y] == u;
            assert y != x && m[x := v][y] == u;
          }
          assert m[x := v][x] == v;
        }
      }
    }
  }

  /** The number map of the whole grid: every numbered cell, and only those,
      maps to its number, and the numbers are 1 up to the count of
      numbered cells. */
  lemma GridNumbers(g: Rows, h: nat, w: nat)
    requires Rect(g, h, w)
    ensures forall x :: x in NumbersOf(g, h, w, RowMajor(h, w)) <==> 0 <= x.0 < h && 0 <= x.1 < w && Starts(g, h, w, x)
    ensures forall x :: x in NumbersOf(g, h, w, RowMajor(h, w)) ==> NumbersOf(g, h, w, RowMajor(h, w))[x] == NumberOf(g, h, w, x)
    ensures forall v :: v in NumbersOf(g, h, w, RowMajor(h, w)).Values <==> 1 <= v <= StartsIn(g, h, w, RowMajor(h, w))
  {
    forall x ensures x in NumbersOf(g, h, w, RowMajor(h, w)) <==> 0 <= x.0 < h && 0 <= x.1 < w && Starts(g, h, w, x) {
      GridNumberKey(g, h, w, x);
    }
    forall x | x in NumbersOf(g, h, w, RowMajor(h, w)) ensures NumbersOf(g, h, w, RowMajor(h, w))[x] == NumberOf(g, h, w, x) {
      GridNumberKey(g, h, w, x);
      GridNumberValue(g, h, w, x);
    }
    RowMajorCells(h, w);
    NumbersRange(g, h, w, RowMajor(h, w));
  }

  lemma GridNumberKey(g: Rows, h: nat, w: nat, x: Cell)
    ensures x in NumbersOf(g, h, w, RowMajor(h, w)) <==> 0 <= x.0 < h && 0 <= x.1 < w && Starts(g, h, w, x)
  {
    RowMajorCells(h, w);
    NumbersKeys(g, h, w, RowMajor(h, w), x);
  }

  lemma GridNumberValue(g: Rows, h: nat, w: nat, x: Cell)
    requires 0 <= x.0 < h && 0 <= x.1 < w && Starts(g, h, w, x)
    ensures x in NumbersOf(g, h, w, RowMajor(h, w)) && NumbersOf(g, h, w, RowMajor(h, w))[x] == NumberOf(g, h, w, x)
  {
    var cs := RowMajor(h, w);
    var k := x.0 * w + x.1;
    assert 0 <= k < |cs| && cs[k] == x by {
      RowMajorIndex(h, w, x.0, x.1);
    }
    assert NoDup(cs) by {
      RowMajorCells(h, w);
    }
    NumbersAt(g, h, w, cs, k);
    assert NumberOf(g, h, w, x) == 1 + StartsIn(g, h, w, cs[..k]);
  }

  /** What `buildNumbering` has produced after the first k cells. */
  ghost predicate NumberedUpTo(g: Rows, h: nat, w: nat, k: nat, count: nat, nums: map<Cell, nat>)
    requires Rect(g, h, w) && k <= h * w
  {
    count == 1 + StartsIn(g, h, w, RowMajor(h, w)[..k]) && nums == NumbersOf(g, h, w, RowMajor(h, w)[..k])
  }

  lemma NumberAdvance(g: Rows, h: nat, w: nat, r: nat, c: nat, count: nat, nums: map<Cell, nat>)
    requires Rect(g, h, w) && r < h && c < w && r * w + c < h * w
    requires NumberedUpTo(g, h, w, r * w + c, count, nums)
    ensures NumberedUpTo(g, h, w, r * w + c + 1, if Starts(g, h, w, (r, c)) then count + 1 else count,
      if Starts(g, h, w, (r, c)) then nums[(r, c) := count] else nums)
  {
    RowMajorStep(h, w, r, c);
    ExtendScan(g, h, w, RowMajor(h, w)[..r * w + c], (r, c));
  }

  /** `buildNumbering(grid)` of the solver page: the map from each numbered
      cell to its number, the same numbering as the entry scan. */
  method BuildNumbering(g: Rows, h: nat, w: nat) returns (nums: map<Cell, nat>)
    requires Rect(g, h, w)
    ensures nums == NumbersOf(g, h, w, RowMajor(h, w))
  {
    nums := map[];
    var count := 1;
    ghost var k: nat := 0;
    for r := 0 to h
      invariant k == r * w <= h * w && NumberedUpTo(g, h, w, k, count, nums)
    {
      for c := 0 to w
        invariant k == r * w + c <= h * w && NumberedUpTo(g, h, w, k, count, nums)
      {
        CellIndexBound(h, w, r, c);
        count, nums := NumberCell(g, h, w, r, c, k, count, nums);
        k := k + 1;
      }
      CellIndexBound(h, w, r, w);
    }
    assert RowMajor(h, w)[..h * w] == RowMajor(h, w);
  }

  /** The body of `buildNumbering` at cell (r, c). */
  method NumberCell(g: Rows, h: nat, w: nat, r: nat, c: nat, ghost k: nat, count: nat, nums: map<Cell, nat>)
    returns (count': nat, nums': map<Cell, nat>)
    requires Rect(g, h, w) && r < h && c < w && k == r * w + c < h * w
    requires NumberedUpTo(g, h, w, k, count, nums)
    ensures NumberedUpTo(g, h, w, k + 1, count', nums')
  {
    NumberAdvance(g, h, w, r, c, count, nums);
    count', nums' := count, nums;
    if g[r][c] != '#' {
      var startsAcross := (c == 0 || g[r][c - 1] == '#') && c + 1 < w && g[r][c + 1] != '#';
      var startsDown := (r == 0 || g[r - 1][c] == '#') && r + 1 < h && g[r + 1][c] != '#';
      StartTests(g, h, w, r, c);
      if startsAcross || startsDown {
        nums' := nums[(r, c) := count];
        count' := count + 1;
      }
    }
  }

  /** A clue text for number n exists and is not empty. */
  predicate HasClue(clues: map<nat, string>, n: nat)
  {
    n in clues && clues[n] != ""
  }

  /** The start cell of every entry whose number has a clue, later entries
      of the same number overriding earlier ones. */
  function ClueStartsOf(es: seq<Entry>, clues: map<nat, string>): map<nat, Cell>
  {
    if es == [] then map[]
    else
      var e := es[|es| - 1];
      var m := ClueStartsOf(es[..|es| - 1], clues);
      if HasClue(clues, e.num) then m[e.num := (e.row, e.col)] else m
  }

  /** Over entries with strictly increasing numbers, the clue starts map
      each clued number of an entry, and nothing else, to that entry's
      start cell. */
  lemma {:induction false} ClueStarts(es: seq<Entry>, clues: map<nat, string>)
    requires forall i, j :: 0 <= i < j < |es| ==> es[i].num < es[j].num
    ensures forall e :: e in es && HasClue(clues, e.num) ==>
      e.num in ClueStartsOf(es, clues) && ClueStartsOf(es, clues)[e.num] == (e.row, e.col)
    ensures forall n :: n in ClueStartsOf(es, clues) ==> HasClue(clues, n) && exists e :: e in es && e.num == n
  {
    if es != [] {
      var pre := es[..|es| - 1];
      var last := es[|es| - 1];
      IncreasingPrefix(es);
      ClueStarts(pre, clues);
      ClueStartsLast(pre, last, clues);
      assert es == pre + [last];
    }
  }

  /** Dropping the last of entries with strictly increasing numbers leaves
      entries with increasing numbers, all below the last one's. */
  lemma IncreasingPrefix(es: seq<Entry>)
    requires es != [] && forall i, j :: 0 <= i < j < |es| ==> es[i].num < es[j].num
    ensures var pre := es[..|es| - 1];
      && (forall i, j :: 0 <= i < j < |pre| ==> pre[i].num < pre[j].num)
      && (forall e :: e in pre ==> e.num < es[|es| - 1].num)
  {
    var pre := es[..|es| - 1];
    forall e | e in pre ensures e.num < es[|es| - 1].num {
      var i :| 0 <= i < |pre| && pre[i] == e;
      assert es[i] == e;
    }
  }

  /** The inductive step of ClueStarts: one more entry, numbered above all
      earlier ones. */
  lemma ClueStartsLast(pre: seq<Entry>, last: Entry, clues: map<nat, string>)
    requires forall e :: e in pre ==> e.num < last.num
    requires forall e :: e in pre && HasClue(clues, e.num) ==>
      e.num in ClueStartsOf(pre, clues) && ClueStartsOf(pre, clues)[e.num] == (e.row, e.col)
    requires forall n :: n in ClueStartsOf(pre, clues) ==> HasClue(clues, n) && exists e :: e in pre && e.num == n
    ensures forall e :: e in pre + [last] && HasClue(clues, e.num) ==>
      e.num in ClueStartsOf(pre + [last], clues) && ClueStartsOf(pre + [last], clues)[e.num] == (e.row, e.col)
    ensures forall n :: n in ClueStartsOf(pre + [last], clues) ==>
      HasClue(clues, n) && exists e :: e in pre + [last] && e.num == n
  {
    ClueSnoc(pre, last, clues);
    var m := ClueStartsOf(pre, clues);
    var m' := ClueStartsOf(pre + [last], clues);
    forall e | e in pre + [last] && HasClue(clues, e.num)
      ensures e.num in m' && m'[e.num] == (e.row, e.col)
    {
      if e != last {
        assert e in pre;
      }
    }
    forall n | n in m' ensures HasClue(clues, n) && exists e :: e in pre + [last] && e.num == n {
      if n in m && n != last.num {
        var e :| e in pre && e.num == n;
        assert e in pre + [last];
      } else {
        assert last in pre + [last];
      }
    }
  }

  /** What `buildClueStarts` has produced after the first k cells. */
  ghost predicate CluedUpTo(g: Rows, h: nat, w: nat, k: nat, across: map<nat, Cell>, down: map<nat, Cell>,
                            acrossClues: map<nat, string>, downClues: map<nat, string>)
    requires Rect(g, h, w) && k <= h * w
  {
    && across == ClueStartsOf(EntriesOf(g, h, w, Across, RowMajor(h, w)[..k]), acrossClues)
    && down == ClueStartsOf(EntriesOf(g, h, w, Down, RowMajor(h, w)[..k]), downClues)
  }

  lemma ClueAdvance(g: Rows, h: nat, w: nat, r: nat, c: nat, across: map<nat, Cell>, down: map<nat, Cell>,
                    acrossClues: map<nat, string>, downClues: map<nat, string>)
    requires Rect(g, h, w) && r < h && c < w && r * w + c < h * w
    requires CluedUpTo(g, h, w, r * w + c, across, down, acrossClues, downClues)
    ensures var n := NumberOf(g, h, w, (r, c));
      CluedUpTo(g, h, w, r * w + c + 1,
        if StartsAcross(g, w, (r, c)) && HasClue(acrossClues, n) then across[n := (r, c)] else across,
        if StartsDown(g, h, (r, c)) && HasClue(downClues, n) then down[n := (r, c)] else down,
        acrossClues, downClues)
  {
    var cs := RowMajor(h, w)[..r * w + c];
    RowMajorStep(h, w, r, c);
    assert NumberOf(g, h, w, (r, c)) == 1 + StartsIn(g, h, w, cs);
    ClueStep(g, h, w, Across, cs, (r, c), across, acrossClues);
    ClueStep(g, h, w, Down, cs, (r, c), down, downClues);
  }

  /** Scanning one more cell x updates the clue starts of direction d by
      x's entry, if it has one and its number has a clue. */
  lemma ClueStep(g: Rows, h: nat, w: nat, d: Dir, cs: seq<Cell>, x: Cell, m: map<nat, Cell>, clues: map<nat, string>)
    requires Rect(g, h, w) && InGrid(h, w, cs) && 0 <= x.0 < h && 0 <= x.1 < w
    requires m == ClueStartsOf(EntriesOf(g, h, w, d, cs), clues)
    ensures InGrid(h, w, cs + [x])
    ensures var n := 1 + StartsIn(g, h, w, cs);
      ClueStartsOf(EntriesOf(g, h, w, d, cs + [x]), clues)
      == if StartsDir(g, h, w, d, x) && HasClue(clues, n) then m[n := x] else m
  {
    var cs' := cs + [x];
    assert cs'[..|cs'| - 1] == cs;
    assert forall k :: 0 <= k < |cs| ==> cs'[k] == cs[k];
    EntriesSnoc(g, h, w, d, cs', cs);
    var es := EntriesOf(g, h, w, d, cs);
    if StartsDir(g, h, w, d, x) {
      var e := Entry(1 + StartsIn(g, h, w, cs), WordAt(g, h, w, d, x), x.0, x.1);
      assert EntriesOf(g, h, w, d, cs') == es + [e];
      ClueSnoc(es, e, clues);
    } else {
      assert EntriesOf(g, h, w, d, cs') == es;
    }
  }

  lemma ClueSnoc(es: seq<Entry>, e: Entry, clues: map<nat, string>)
    ensures ClueStartsOf(es + [e], clues) ==
      if HasClue(clues, e.num) then ClueStartsOf(es, clues)[e.num := (e.row, e.col)] else ClueStartsOf(es, clues)
  {
    assert (es + [e])[..|es|] == es;
  }

  /** `buildClueStarts(grid, numbers)`: for each direction, the start cell
      of every entry whose number has a non-empty clue. `numbers` is the
      map `buildNumbering` returns. */
  method BuildClueStarts(g: Rows, h: nat, w: nat, numbers: map<Cell, nat>,
                         acrossClues: map<nat, string>, downClues: map<nat, string>)
    returns (across: map<nat, Cell>, down: map<nat, Cell>)
    requires Rect(g, h, w) && numbers == NumbersOf(g, h, w, RowMajor(h, w))
    ensures across == ClueStartsOf(EntriesOf(g, h, w, Across, RowMajor(h, w)), acrossClues)
    ensures down == ClueStartsOf(EntriesOf(g, h, w, Down, RowMajor(h, w)), downClues)
  {
    across, down := map[], map[];
    ghost var k: nat := 0;
    for r := 0 to h
      invariant k == r * w <= h * w && CluedUpTo(g, h, w, k, across, down, acrossClues, downClues)
    {
      CellIndexBound(h, w, r, w);
      across, down := ClueRow(g, h, w, r, k, numbers, acrossClues, downClues, across, down);
      k := k + w;
    }
    assert RowMajor(h, w)[..h * w] == RowMajor(h, w);
  }

  /** The inner loop of `buildClueStarts` over row r, whose first cell
      comes at index k of the scan. */
  method ClueRow(g: Rows, h: nat, w: nat, r: nat, ghost k: nat, numbers: map<Cell, nat>,
                 acrossClues: map<nat, string>, downClues: map<nat, string>,
                 across: map<nat, Cell>, down: map<nat, Cell>)
    returns (across': map<nat, Cell>, down': map<nat, Cell>)
    requires Rect(g, h, w) && r < h && k == r * w && k + w <= h * w && numbers == NumbersOf(g, h, w, RowMajor(h, w))
    requires CluedUpTo(g, h, w, k, across, down, acrossClues, downClues)
    ensures CluedUpTo(g, h, w, k + w, across', down', acrossClues, downClues)
  {
    across', down' := across, down;
    ghost var j := k;
    for c := 0 to w
      invariant j == k + c && CluedUpTo(g, h, w, j, across', down', acrossClues, downClues)
    {
      across', down' := ClueCell(g, h, w, r, c, j, numbers, acrossClues, downClues, across', down');
      j := j + 1;
    }
  }

  /** The body of `buildClueStarts` at cell (r, c). */
  method ClueCell(g: Rows, h: nat, w: nat, r: nat, c: nat, ghost k: nat, numbers: map<Cell, nat>,
                  acrossClues: map<nat, string>, downClues: map<nat, string>,
                  across: map<nat, Cell>, down: map<nat, Cell>)
    returns (across': map<nat, Cell>, down': map<nat, Cell>)
    requires Rect(g, h, w) && r < h && c < w && k == r * w + c < h * w && numbers == NumbersOf(g, h, w, RowMajor(h, w))
    requires CluedUpTo(g, h, w, k, across, down, acrossClues, downClues)
    ensures CluedUpTo(g, h, w, k + 1, across', down', acrossClues, downClues)
  {
    ClueAdvance(g, h, w, r, c, across, down, acrossClues, downClues);
    across', down' := across, down;
    if g[r][c] == '#' {
      return;
    }
    GridNumberKey(g, h, w, (r, c));
    if (r, c) !in numbers {
      return;
    }
    GridNumberValue(g, h, w, (r, c));
    var number := numbers[(r, c)];
    assert number == NumberOf(g, h, w, (r, c)) >= 1;
    var startsAcross := (c == 0 || g[r][c - 1] == '#') && c + 1 < w && g[r][c + 1] != '#';
    var startsDown := (r == 0 || g[r - 1][c] == '#') && r + 1 < h && g[r + 1][c] != '#';
    StartTests(g, h, w, r, c);
    if startsAcross && number in acrossClues && acrossClues[number] != "" {
      across' := across'[number := (r, c)];
    }
    if startsDown && number in downClues && downClues[number] != "" {
      down' := down'[number := (r, c)];
    }
  }
}
