/** The grid logic of the solver page (src/app.js): the solution rows are
    fixed; the player's letters and the check marks are 2-D arrays the
    handlers overwrite in place; the cursor `active` and the `direction`
    are the state `move`, `moveToNextUnfilledCell` and the clue jumps
    reassign. Blocks are '#'. */
module Solver {
  import opened Common
  import opened Numbering

  /** `marks[r][c]`: "", "incorrect" or "revealed". */
  datatype Mark = Unmarked | Incorrect | Revealed

  /** x is the first white cell of the h x w grid in reading order, or
      None when the grid has no white cell. */
  predicate FirstOpen(g: Rows, h: nat, w: nat, x: Option<Cell>)
  {
    && (x.None? ==> forall r, c :: 0 <= r < h && 0 <= c < w ==> !WhiteAt(g, (r, c)))
    && (x.Some? ==> WhiteAt(g, x.value))
    && (x.Some? ==> forall r, c :: 0 <= r < h && 0 <= c < w && (r < x.value.0 || (r == x.value.0 && c < x.value.1)) ==>
          !WhiteAt(g, (r, c)))
  }

  /** `findFirstOpenCell`: the first white cell in reading order, if any. */
  method FindFirstOpenCell(g: Rows, h: nat, w: nat) returns (x: Option<Cell>)
    requires Rect(g, h, w)
    ensures x.None? ==> forall r, c :: 0 <= r < h && 0 <= c < w ==> !WhiteAt(g, (r, c))
    ensures x.Some? ==> WhiteAt(g, x.value)
    ensures x.Some? ==> forall r, c :: 0 <= r < h && 0 <= c < w && (r < x.value.0 || (r == x.value.0 && c < x.value.1)) ==>
      !WhiteAt(g, (r, c))
  {
    for r := 0 to h
      invariant forall r', c :: 0 <= r' < r && 0 <= c < w ==> !WhiteAt(g, (r', c))
    {
      for c := 0 to w
        invariant forall c' :: 0 <= c' < c ==> !WhiteAt(g, (r, c'))
      {
        if g[r][c] != '#' {
          return Some((r, c));
        }
      }
    }
    return None;
  }

  /** The n cells from s in direction d. */
  function RunCells(s: Cell, d: Dir, n: nat): (cs: seq<Cell>)
    ensures |cs| == n && forall i :: 0 <= i < n ==> cs[i] == CellAt(s.0, s.1, d, i)
  {
    seq(n, i => CellAt(s.0, s.1, d, i))
  }

  /** The n cells from s in direction d are white, and the cells just
      before and just after them are blocks or off the grid. */
  ghost predicate MaximalRun(g: Rows, d: Dir, s: Cell, n: nat)
  {
    && n >= 1
    && (forall i :: 0 <= i < n ==> WhiteAt(g, CellAt(s.0, s.1, d, i)))
    && !WhiteAt(g, CellAt(s.0, s.1, d, -1)) && !WhiteAt(g, CellAt(s.0, s.1, d, n))
  }

  /** Two maximal runs of one direction that share a cell are the same
      run: the run through a cell is well defined. */
  lemma RunUnique(g: Rows, d: Dir, s1: Cell, n1: nat, s2: Cell, n2: nat, i1: int, i2: int)
    requires MaximalRun(g, d, s1, n1) && MaximalRun(g, d, s2, n2)
    requires 0 <= i1 < n1 && 0 <= i2 < n2 && CellAt(s1.0, s1.1, d, i1) == CellAt(s2.0, s2.1, d, i2)
    ensures s1 == s2 && n1 == n2
  {
    var off := i1 - i2;
    assert CellAt(s1.0, s1.1, d, off) == s2;
    assert CellAt(s2.0, s2.1, d, -1) == CellAt(s1.0, s1.1, d, off - 1);
    assert CellAt(s1.0, s1.1, d, -1) == CellAt(s2.0, s2.1, d, -off - 1);
    assert s1 == s2;
    assert CellAt(s1.0, s1.1, d, n1) == CellAt(s2.0, s2.1, d, n1);
    assert CellAt(s2.0, s2.1, d, n2) == CellAt(s1.0, s1.1, d, n2);
  }

  /** `getActiveCells(cell, dir)`: nothing for no cell or a block;
      otherwise the maximal white run of direction d through the cell, in
      order. */
  method ActiveCells(g: Rows, h: nat, w: nat, x: Option<Cell>, d: Dir) returns (cells: seq<Cell>)
    requires Rect(g, h, w)
    requires x.Some? ==> 0 <= x.value.0 < h && 0 <= x.value.1 < w
    ensures x.None? || !WhiteAt(g, x.value) ==> cells == []
    ensures x.Some? && WhiteAt(g, x.value) ==>
      && |cells| > 0 && MaximalRun(g, d, cells[0], |cells|)
      && cells == RunCells(cells[0], d, |cells|) && x.value in cells
  {
    if x.None? || g[x.value.0][x.value.1] == '#' {
      return [];
    }
    var s, back := RunStart(g, h, w, x.value, d);
    cells := RunFrom(g, h, w, s, d);
    assert |cells| > back;
    assert cells[back] == x.value;
  }

  /** The walk back from a white cell while the previous cell is white:
      the start of the run, `back` cells before x. */
  method RunStart(g: Rows, h: nat, w: nat, x: Cell, d: Dir) returns (s: Cell, ghost back: nat)
    requires Rect(g, h, w) && WhiteAt(g, x)
    ensures 0 <= s.0 < h && 0 <= s.1 < w
    ensures x == CellAt(s.0, s.1, d, back) && !WhiteAt(g, CellAt(s.0, s.1, d, -1))
    ensures forall i :: 0 <= i <= back ==> WhiteAt(g, CellAt(s.0, s.1, d, i))
  {
    var dr, dc := if d == Across then 0 else 1, if d == Across then 1 else 0;
    var r, c := x.0, x.1;
    back := 0;
    while r - dr >= 0 && c - dc >= 0 && g[r - dr][c - dc] != '#'
      invariant 0 <= r < h && 0 <= c < w
      invariant x == CellAt(r, c, d, back)
      invariant forall i :: 0 <= i <= back ==> WhiteAt(g, CellAt(r, c, d, i))
      decreases r + c
    {
      var r', c' := r - dr, c - dc;
      forall i | 0 <= i <= back + 1 ensures WhiteAt(g, CellAt(r', c', d, i)) {
        if i > 0 {
          assert CellAt(r', c', d, i) == CellAt(r, c, d, i - 1);
        }
      }
      r, c := r', c';
      back := back + 1;
    }
    s := (r, c);
  }

  /** The walk forwards from s while the cell is white, collecting the
      cells. */
  method RunFrom(g: Rows, h: nat, w: nat, s: Cell, d: Dir) returns (cells: seq<Cell>)
    requires Rect(g, h, w) && 0 <= s.0 && 0 <= s.1
    ensures cells == RunCells(s, d, |cells|) && !WhiteAt(g, CellAt(s.0, s.1, d, |cells|))
    ensures forall i :: 0 <= i < |cells| ==> WhiteAt(g, CellAt(s.0, s.1, d, i))
  {
    var dr, dc := if d == Across then 0 else 1, if d == Across then 1 else 0;
    var r, c := s.0, s.1;
    cells := [];
    while r < h && c < w && g[r][c] != '#'
      invariant r >= 0 && c >= 0 && (r, c) == CellAt(s.0, s.1, d, |cells|)
      invariant cells == RunCells(s, d, |cells|)
      invariant forall i :: 0 <= i < |cells| ==> WhiteAt(g, CellAt(s.0, s.1, d, i))
      decreases h + w - r - c
    {
      cells := cells + [(r, c)];
      r, c := r + dr, c + dc;
    }
  }

  /** The cell k steps from x along d: forwards for a positive step,
      backwards otherwise. */
  function Ahead(x: Cell, d: Dir, step: int, k: int): Cell
  {
    CellAt(x.0, x.1, d, if step > 0 then k else -k)
  }

  /** Once a walk from a cell of the grid has left the grid it stays out. */
  lemma OffGridBeyond(g: Rows, h: nat, w: nat, x: Cell, d: Dir, step: int, k: int)
    requires Rect(g, h, w) && 0 <= x.0 < h && 0 <= x.1 < w && k >= 1
    requires var y := Ahead(x, d, step, k); !(0 <= y.0 < h && 0 <= y.1 < w)
    ensures forall j :: j >= k ==> !WhiteAt(g, Ahead(x, d, step, j))
  {
  }

  predicate Increasing(ns: seq<nat>)
  {
    forall i, j :: 0 <= i < j < |ns| ==> ns[i] < ns[j]
  }

  /** In an increasing list every element before the last is below it. */
  lemma PrefixBelow(pre: seq<nat>, last: nat)
    ensures Increasing(pre + [last]) ==> forall m :: m in pre ==> m < last
  {
    if Increasing(pre + [last]) {
      forall m | m in pre ensures m < last {
        var i :| 0 <= i < |pre| && pre[i] == m;
        assert (pre + [last])[i] == m && (pre + [last])[|pre|] == last;
      }
    }
  }

  lemma SnocIncreasing(pre: seq<nat>, last: nat)
    ensures Increasing(pre) && (forall m :: m in pre ==> m < last) ==> Increasing(pre + [last])
  {
    if Increasing(pre) && (forall m :: m in pre ==> m < last) {
      forall i, j | 0 <= i < j < |pre| + 1 ensures (pre + [last])[i] < (pre + [last])[j] {
        assert (pre + [last])[i] == pre[i] && pre[i] in pre;
        if j < |pre| {
          assert (pre + [last])[j] == pre[j];
        }
      }
    }
  }

  /** `Object.keys(clues).map(Number).sort((a, b) => a - b)`: the clue
      numbers in increasing order. */
  function SortedNumbers(s: set<nat>): (ns: seq<nat>)
    ensures forall n :: n in ns <==> n in s
    ensures Increasing(ns)
    decreases s
  {
    if s == {} then []
    else
      MaxExists(s);
      var m :| m in s && forall k :: k in s ==> k <= m;
      SortedNumbers(s - {m}) + [m]
  }

  lemma {:induction false} MaxExists(s: set<nat>)
    requires s != {}
    ensures exists m :: m in s && forall k :: k in s ==> k <= m
    decreases s
  {
    var x :| x in s;
    if s != {x} {
      MaxExists(s - {x});
      var m :| m in s - {x} && forall k :: k in s - {x} ==> k <= m;
      var top := if m < x then x else m;
      forall k | k in s ensures k <= top {
        if k != x {
          assert k in s - {x};
        }
      }
    }
  }

  /** `numbers.indexOf(value)`: the first position holding the value, or
      -1 when there is none (always so for `null`). */
  function IndexOf(ns: seq<nat>, v: Option<nat>): (i: int)
    ensures -1 <= i < |ns|
    ensures i >= 0 ==> v == Some(ns[i]) && forall j :: 0 <= j < i ==> ns[j] != ns[i]
    ensures i == -1 <==> v.None? || v.value !in ns
  {
    if ns == [] || v.None? then -1
    else if ns[0] == v.value then 0
    else
      var i := IndexOf(ns[1..], v);
      if i == -1 then -1 else i + 1
  }

  /** JavaScript's `a % n`: the remainder takes the sign of a. */
  function JsRem(a: int, n: int): int
    requires n > 0
  {
    if a >= 0 then a % n else -((-a) % n)
  }

  /** The clue `cycleClue` lands on among the increasing clue numbers ns
      from the current number cur; none when there are no clues. */
  function Cycled(ns: seq<nat>, cur: Option<nat>, step: int): (n: Option<nat>)
    requires step == 1 || step == -1
    ensures n.None? <==> ns == []
    ensures n.Some? ==> n.value in ns
  {
    if ns == [] then None else Some(ns[NextClueIndex(|ns|, IndexOf(ns, cur), step)])
  }

  /** `(index + 1) % numbers.length` of `jumpToNextUnfilledClue`, from
      index 0 when the current number is not in the list. */
  method ForwardIndex(ns: seq<nat>, cur: Option<nat>) returns (next: nat)
    requires ns != []
    ensures next == NextClueIndex(|ns|, IndexOf(ns, cur), 1) < |ns|
  {
    var index := IndexOf(ns, cur);
    next := 0;
    if index != -1 {
      WrapOnce(index + 1, |ns|);
      next := (index + 1) % |ns|;
      assert next == if index + 1 == |ns| then 0 else index + 1;
    }
  }

  /** Stepping forward through a list of distinct numbers from one of
      them leads to another, unless the list has only that one. */
  lemma CycledMoves(ns: seq<nat>, cur: Option<nat>)
    requires Increasing(ns) && ns != []
    ensures cur.Some? && cur.value in ns && |ns| != 1 ==> Cycled(ns, cur, 1).value != cur.value
  {
    if cur.Some? && cur.value in ns && |ns| != 1 {
      var i := IndexOf(ns, cur);
      var next := NextClueIndex(|ns|, i, 1);
      assert next != i;
    }
  }

  /** The index arithmetic of `cycleClue`: from no current clue, the
      first clue forwards and the last backwards; otherwise the next or
      previous clue, wrapping round. Always an index of the list. */
  function NextClueIndex(n: nat, index: int, step: int): (next: int)
    requires n > 0 && -1 <= index < n && (step == 1 || step == -1)
    ensures 0 <= next < n
    ensures index >= 0 ==> next == if index + step == n then 0 else if index + step == -1 then n - 1 else index + step
    ensures index == -1 ==> next == if step > 0 then 0 else n - 1
  {
    var i := if index == -1 then (if step > 0 then -1 else 0) else index;
    WrapOnce(i + step + n, n);
    JsRem(i + step + n, n)
  }

  /** A remainder of a number between n - 1 and 2n. */
  lemma WrapOnce(a: int, n: int)
    requires n > 0 && 0 <= a <= 2 * n
    ensures a % n == if a < n then a else if a < 2 * n then a - n else 0
  {
    if a < n {
      assert a == n * 0 + a;
    } else if a < 2 * n {
      assert a == n * 1 + (a - n);
    } else {
      assert a == n * 2 + 0;
    }
  }

  /** Going to the next clue and back returns to the same clue. */
  lemma CycleBackForth(n: nat, index: int)
    requires 0 <= index < n
    ensures NextClueIndex(n, NextClueIndex(n, index, 1), -1) == index
    ensures NextClueIndex(n, NextClueIndex(n, index, -1), 1) == index
  {
  }

  /** The start cells `buildClueStarts` gives are start cells of their
      direction, so white. */
  lemma ClueStartsWhite(g: Rows, h: nat, w: nat, d: Dir, clues: map<nat, string>)
    requires Rect(g, h, w)
    ensures var m := ClueStartsOf(EntriesOf(g, h, w, d, RowMajor(h, w)), clues);
      forall n :: n in m ==> StartsDir(g, h, w, d, m[n])
  {
    var es := EntriesOf(g, h, w, d, RowMajor(h, w));
    var m := ClueStartsOf(es, clues);
    NumbersIncrease(g, h, w, d, RowMajor(h, w));
    ClueStarts(es, clues);
    forall n | n in m ensures StartsDir(g, h, w, d, m[n]) {
      var e :| e in es && e.num == n;
      ScannedEntry(g, h, w, d, e);
    }
  }

  /** The letters at start-up: "#" on blocks, empty on white cells. */
  method NewEntries(g: Rows, h: nat, w: nat) returns (e: array2<string>)
    requires Rect(g, h, w)
    ensures fresh(e) && e.Length0 == h && e.Length1 == w
    ensures forall r, c :: 0 <= r < h && 0 <= c < w ==> e[r, c] == if g[r][c] == '#' then "#" else ""
  {
    e := new string[h, w]((r, c) requires 0 <= r < h && 0 <= c < w => if g[r][c] == '#' then "#" else "");
  }

  /** `buildNumbering` and `buildClueStarts`; every clue start is a white
      cell. */
  method Index(g: Rows, h: nat, w: nat, acrossClues: map<nat, string>, downClues: map<nat, string>)
    returns (nums: map<Cell, nat>, across: map<nat, Cell>, down: map<nat, Cell>)
    requires Rect(g, h, w)
    ensures nums == NumbersOf(g, h, w, RowMajor(h, w))
    ensures across == ClueStartsOf(EntriesOf(g, h, w, Across, RowMajor(h, w)), acrossClues)
    ensures down == ClueStartsOf(EntriesOf(g, h, w, Down, RowMajor(h, w)), downClues)
    ensures forall n :: n in across ==> WhiteAt(g, across[n])
    ensures forall n :: n in down ==> WhiteAt(g, down[n])
  {
    nums := BuildNumbering(g, h, w);
    across, down := BuildClueStarts(g, h, w, nums, acrossClues, downClues);
    ClueStartsWhite(g, h, w, Across, acrossClues);
    ClueStartsWhite(g, h, w, Down, downClues);
  }

  /** The cursor at start-up: the first white cell, then
      `setInitialSelection`: the start of 1 Across if it has one, else of
      1 Down if that has one. Always a white cell if any. */
  method InitialSelection(g: Rows, h: nat, w: nat, across: map<nat, Cell>, down: map<nat, Cell>)
    returns (dir: Dir, at: Option<Cell>)
    requires Rect(g, h, w)
    requires forall n :: n in across ==> WhiteAt(g, across[n])
    requires forall n :: n in down ==> WhiteAt(g, down[n])
    ensures at.Some? ==> WhiteAt(g, at.value)
    ensures 1 in across ==> dir == Across && at == Some(across[1])
    ensures 1 !in across && 1 in down ==> dir == Down && at == Some(down[1])
    ensures 1 !in across && 1 !in down ==> dir == Across && at.None? == forall r, c :: 0 <= r < h && 0 <= c < w ==> !WhiteAt(g, (r, c))
    ensures 1 !in across && 1 !in down ==> FirstOpen(g, h, w, at)
  {
    var first := FindFirstOpenCell(g, h, w);
    dir, at := Across, first;
    if 1 in across {
      dir, at := Across, Some(across[1]);
    } else if 1 in down {
      dir, at := Down, Some(down[1]);
    }
  }

  /** The page's state: the puzzle (solution rows and clue texts), what
      the player has typed, the marks, the cursor and the direction. */
  class Game {
    const solution: Rows
    const h: nat
    const w: nat
    const acrossClues: map<nat, string>
    const downClues: map<nat, string>
    const numbering: map<Cell, nat>
    const acrossStarts: map<nat, Cell>
    const downStarts: map<nat, Cell>
    const entries: array2<string>
    const marks: array2<Mark>
    var active: Option<Cell>
    var direction: Dir

    /** The arrays are the grid's size, blocks hold "#", the cursor is on a
        white cell and every clue start is a white cell. */
    ghost predicate Valid()
      reads this, entries
    {
      && Shaped()
      && (forall r, c :: 0 <= r < h && 0 <= c < w && solution[r][c] == '#' ==> entries[r, c] == "#")
      && (active.Some? ==> WhiteAt(solution, active.value))
      && (forall n :: n in acrossStarts ==> WhiteAt(solution, acrossStarts[n]))
      && (forall n :: n in downStarts ==> WhiteAt(solution, downStarts[n]))
    }

    /** The grid is rectangular and the arrays are its size. */
    predicate Shaped()
    {
      Rect(solution, h, w) && entries.Length0 == h && entries.Length1 == w && marks.Length0 == h && marks.Length1 == w
    }

    function Starts(d: Dir): map<nat, Cell>
    {
      if d == Across then acrossStarts else downStarts
    }

    function Clues(d: Dir): map<nat, string>
    {
      if d == Across then acrossClues else downClues
    }

    /** The page's start-up: the solution from the puzzle rows, blocks
        entered as "#" and white cells empty, no marks, the numbering and
        clue starts built, the cursor on the first white cell and then, by
        `setInitialSelection`, on 1 Across or else 1 Down if that has a
        start. */
    constructor (g: Rows, acrossClues: map<nat, string>, downClues: map<nat, string>)
      requires |g| > 0 && Rect(g, |g|, |g[0]|)
      ensures Valid() && fresh(entries) && fresh(marks)
      ensures solution == g && h == |g| && w == |g[0]|
      ensures this.acrossClues == acrossClues && this.downClues == downClues
      ensures numbering == NumbersOf(g, h, w, RowMajor(h, w))
      ensures acrossStarts == ClueStartsOf(EntriesOf(g, h, w, Across, RowMajor(h, w)), acrossClues)
      ensures downStarts == ClueStartsOf(EntriesOf(g, h, w, Down, RowMajor(h, w)), downClues)
      ensures forall r, c :: 0 <= r < h && 0 <= c < w ==>
        entries[r, c] == (if g[r][c] == '#' then "#" else "") && marks[r, c] == Unmarked
      ensures 1 in acrossStarts ==> direction == Across && active == Some(acrossStarts[1])
      ensures 1 !in acrossStarts && 1 in downStarts ==> direction == Down && active == Some(downStarts[1])
      ensures 1 !in acrossStarts && 1 !in downStarts ==> direction == Across && FirstOpen(g, h, w, active)
    {
      var rows, cols := |g|, |g[0]|;
      var e := NewEntries(g, rows, cols);
      var m := new Mark[rows, cols]((r, c) => Unmarked);
      var nums, across, down := Index(g, rows, cols, acrossClues, downClues);
      var dir, at := InitialSelection(g, rows, cols, across, down);
      solution, h, w := g, rows, cols;
      this.acrossClues, this.downClues := acrossClues, downClues;
      entries, marks, numbering := e, m, nums;
      acrossStarts, downStarts := across, down;
      direction, active := dir, at;
    }

    /** y is a cell the cursor may stop on: white and, when `unfilled`,
        still empty. */
    ghost predicate Stop(y: Cell, unfilled: bool)
      reads entries
    {
      WhiteAt(solution, y) && (unfilled ==> 0 <= y.0 < entries.Length0 && 0 <= y.1 < entries.Length1 && entries[y.0, y.1] == "")
    }

    /** The k-th cell from x along the walk is its first stop. */
    ghost predicate NearestStop(x: Cell, d: Dir, step: int, k: int, unfilled: bool)
      reads entries
    {
      k >= 1 && Stop(Ahead(x, d, step, k), unfilled) && forall j :: 1 <= j < k ==> !Stop(Ahead(x, d, step, j), unfilled)
    }

    /** No cell along the walk from x is a stop. */
    ghost predicate NoStop(x: Cell, d: Dir, step: int, unfilled: bool)
      reads entries
    {
      forall j :: j >= 1 ==> !Stop(Ahead(x, d, step, j), unfilled)
    }

    /** The search of `move(step, dir)` (`unfilled` false) and
        `moveToNextUnfilledCell(step, dir)` (`unfilled` true) from x: how
        many steps along the direction the nearest stop lies, if there is
        one before the edge of the grid. */
    method NextStop(x: Cell, d: Dir, step: int, unfilled: bool) returns (k: Option<nat>)
      requires Valid() && WhiteAt(solution, x) && (step == 1 || step == -1)
      ensures k.None? ==> NoStop(x, d, step, unfilled)
      ensures k.Some? ==> NearestStop(x, d, step, k.value, unfilled)
    {
      var dr, dc := if d == Across then 0 else step, if d == Across then step else 0;
      var r, c := x.0 + dr, x.1 + dc;
      var n := 1;
      while 0 <= r < h && 0 <= c < w
        invariant n >= 1 && (r, c) == Ahead(x, d, step, n)
        invariant forall j :: 1 <= j < n ==> !Stop(Ahead(x, d, step, j), unfilled)
        decreases if step > 0 then h + w - r - c else r + c + 2
      {
        if solution[r][c] != '#' && (!unfilled || entries[r, c] == "") {
          return Some(n);
        }
        r, c := r + dr, c + dc;
        n := n + 1;
      }
      OffGridBeyond(solution, h, w, x, d, step, n);
      return None;
    }

    /** `move` and `moveToNextUnfilledCell`: the cursor goes to the nearest
        stop strictly beyond it along the direction, and stays where it is
        when there is none. Callers step by one. */
    method Walk(step: int, d: Dir, unfilled: bool)
      requires Valid() && (step == 1 || step == -1)
      modifies this
      ensures Valid() && direction == old(direction)
      ensures old(active).None? ==> active == old(active)
      ensures old(active).Some? ==>
        || (active == old(active) && NoStop(old(active).value, d, step, unfilled))
        || (exists k :: NearestStop(old(active).value, d, step, k, unfilled) && active == Some(Ahead(old(active).value, d, step, k)))
    {
      if active.None? {
        return;
      }
      var x := active.value;
      var k := NextStop(x, d, step, unfilled);
      if k.Some? {
        active := Some(Ahead(x, d, step, k.value));
      }
    }

    /** `move(step, dir)`. */
    method Move(step: int, d: Dir)
      requires Valid() && (step == 1 || step == -1)
      modifies this
      ensures Valid() && direction == old(direction)
      ensures old(active).None? ==> active == old(active)
      ensures old(active).Some? ==>
        || (active == old(active) && NoStop(old(active).value, d, step, false))
        || (exists k :: NearestStop(old(active).value, d, step, k, false) && active == Some(Ahead(old(active).value, d, step, k)))
    {
      Walk(step, d, false);
    }

    /** `moveToNextUnfilledCell(step, dir)`. */
    method MoveToNextUnfilledCell(step: int, d: Dir)
      requires Valid() && (step == 1 || step == -1)
      modifies this
      ensures Valid() && direction == old(direction)
      ensures old(active).None? ==> active == old(active)
      ensures old(active).Some? ==>
        || (active == old(active) && NoStop(old(active).value, d, step, true))
        || (exists k :: NearestStop(old(active).value, d, step, k, true) && active == Some(Ahead(old(active).value, d, step, k)))
    {
      Walk(step, d, true);
    }

    /** The k-th cell from s along d lies within the white run from s. */
    ghost predicate InRunFrom(s: Cell, d: Dir, k: int)
    {
      k >= 0 && forall j :: 0 <= j <= k ==> WhiteAt(solution, CellAt(s.0, s.1, d, j))
    }

    /** The clue has a start and every cell of the white run from it
        holds a letter. */
    ghost predicate ClueFilled(number: nat, d: Dir)
      requires Shaped() && forall n :: n in Starts(d) ==> WhiteAt(solution, Starts(d)[n])
      reads entries
    {
      number in Starts(d) && forall k :: InRunFrom(Starts(d)[number], d, k) ==>
        var y := CellAt(Starts(d)[number].0, Starts(d)[number].1, d, k); entries[y.0, y.1] != ""
    }

    /** `isClueFilled(number, dir)`: false when the clue has no start;
        otherwise whether every cell of the white run from the start holds
        a letter. */
    method IsClueFilled(number: nat, d: Dir) returns (ok: bool)
      requires Valid()
      ensures ok <==> ClueFilled(number, d)
    {
      var starts := Starts(d);
      if number !in starts {
        return false;
      }
      var s := starts[number];
      var dr, dc := if d == Across then 0 else 1, if d == Across then 1 else 0;
      var r, c := s.0, s.1;
      ghost var k: nat := 0;
      while 0 <= r < h && 0 <= c < w && solution[r][c] != '#'
        invariant (r, c) == CellAt(s.0, s.1, d, k)
        invariant forall j :: 0 <= j < k ==> WhiteAt(solution, CellAt(s.0, s.1, d, j))
        invariant forall j :: 0 <= j < k ==> var y := CellAt(s.0, s.1, d, j); entries[y.0, y.1] != ""
        decreases h + w - r - c
      {
        if entries[r, c] == "" {
          assert InRunFrom(s, d, k);
          return false;
        }
        r, c := r + dr, c + dc;
        k := k + 1;
      }
      assert !WhiteAt(solution, CellAt(s.0, s.1, d, k));
      return true;
    }

    /** Every white cell holds its solution letter. */
    ghost predicate Solved()
      reads entries
    {
      forall r, c :: 0 <= r < entries.Length0 && 0 <= c < entries.Length1 && WhiteAt(solution, (r, c)) ==>
        entries[r, c] == [solution[r][c]]
    }

    /** `isSolved()`. */
    method IsSolved() returns (ok: bool)
      requires Valid()
      ensures ok <==> Solved()
    {
      for r := 0 to h
        invariant forall r', c :: 0 <= r' < r && 0 <= c < w && WhiteAt(solution, (r', c)) ==> entries[r', c] == [solution[r'][c]]
      {
        for c := 0 to w
          invariant forall c' :: 0 <= c' < c && WhiteAt(solution, (r, c')) ==> entries[r, c'] == [solution[r][c']]
        {
          if solution[r][c] == '#' {
            continue;
          }
          if entries[r, c] != [solution[r][c]] {
            return false;
          }
        }
      }
      return true;
    }

    /** The mark the check handler gives a cell: filled white cells are
        marked incorrect exactly when their letter is wrong; every other
        cell keeps its mark. */
    function Checked(r: int, c: int, old_mark: Mark): Mark
      requires 0 <= r < entries.Length0 && 0 <= c < entries.Length1
      reads entries
    {
      if WhiteAt(solution, (r, c)) && entries[r, c] != "" then
        (if entries[r, c] == [solution[r][c]] then Unmarked else Incorrect)
      else old_mark
    }

    /** The check handler. */
    method Check()
      requires Valid()
      modifies marks
      ensures Valid()
      ensures forall r, c :: 0 <= r < h && 0 <= c < w ==> marks[r, c] == Checked(r, c, old(marks[r, c]))
    {
      for r := 0 to h
        invariant forall r', c :: 0 <= r' < h && 0 <= c < w ==>
          marks[r', c] == if r' < r then Checked(r', c, old(marks[r', c])) else old(marks[r', c])
      {
        for c := 0 to w
          invariant forall r', c' :: 0 <= r' < h && 0 <= c' < w ==>
            marks[r', c'] == if r' < r || (r' == r && c' < c) then Checked(r', c', old(marks[r', c'])) else old(marks[r', c'])
        {
          if solution[r][c] == '#' {
            continue;
          }
          if entries[r, c] == "" {
            continue;
          }
          marks[r, c] := if entries[r, c] == solution[r][c .. c + 1] then Unmarked else Incorrect;
        }
      }
    }

    /** The reveal handler once the player has confirmed: every white cell
        gets its solution letter and the "revealed" mark; afterwards the
        puzzle is solved. */
    method Reveal()
      requires Valid()
      modifies entries, marks
      ensures Valid() && Solved()
      ensures forall r, c :: 0 <= r < h && 0 <= c < w ==>
        && entries[r, c] == (if solution[r][c] != '#' then [solution[r][c]] else old(entries[r, c]))
        && marks[r, c] == (if solution[r][c] != '#' then Revealed else old(marks[r, c]))
    {
      for r := 0 to h
        invariant forall r', c :: 0 <= r' < h && 0 <= c < w ==>
          && entries[r', c] == (if r' < r && solution[r'][c] != '#' then [solution[r'][c]] else old(entries[r', c]))
          && marks[r', c] == (if r' < r && solution[r'][c] != '#' then Revealed else old(marks[r', c]))
      {
        for c := 0 to w
          invariant forall r', c' :: 0 <= r' < h && 0 <= c' < w ==>
            var done := r' < r || (r' == r && c' < c);
            && entries[r', c'] == (if done && solution[r'][c'] != '#' then [solution[r'][c']] else old(entries[r', c']))
            && marks[r', c'] == (if done && solution[r'][c'] != '#' then Revealed else old(marks[r', c']))
        {
          if solution[r][c] != '#' {
            entries[r, c] := [solution[r][c]];
            marks[r, c] := Revealed;
          }
        }
      }
    }

    /** The clear handler: every white cell is emptied and unmarked, blocks
        are left alone; a grid with a white cell is then not solved. */
    method Clear()
      requires Valid()
      modifies entries, marks
      ensures Valid()
      ensures forall r, c :: 0 <= r < h && 0 <= c < w ==>
        && entries[r, c] == (if solution[r][c] != '#' then "" else old(entries[r, c]))
        && marks[r, c] == (if solution[r][c] != '#' then Unmarked else old(marks[r, c]))
      ensures (exists r, c :: 0 <= r < h && 0 <= c < w && WhiteAt(solution, (r, c))) ==> !Solved()
    {
      for r := 0 to h
        invariant forall r', c :: 0 <= r' < h && 0 <= c < w ==>
          && entries[r', c] == (if r' < r && solution[r'][c] != '#' then "" else old(entries[r', c]))
          && marks[r', c] == (if r' < r && solution[r'][c] != '#' then Unmarked else old(marks[r', c]))
      {
        for c := 0 to w
          invariant forall r', c' :: 0 <= r' < h && 0 <= c' < w ==>
            var done := r' < r || (r' == r && c' < c);
            && entries[r', c'] == (if done && solution[r'][c'] != '#' then "" else old(entries[r', c']))
            && marks[r', c'] == (if done && solution[r'][c'] != '#' then Unmarked else old(marks[r', c']))
        {
          if solution[r][c] != '#' {
            entries[r, c] := "";
            marks[r, c] := Unmarked;
          }
        }
      }
    }

    /** `jumpToClue(number, dir)`: move to the clue's start cell and take
        its direction, when it has a start. */
    method JumpToClue(number: nat, d: Dir) returns (moved: bool)
      requires Valid()
      modifies this
      ensures Valid()
      ensures moved <==> number in Starts(d)
      ensures moved ==> direction == d && active == Some(Starts(d)[number])
      ensures !moved ==> direction == old(direction) && active == old(active)
    {
      var starts := Starts(d);
      if number !in starts {
        return false;
      }
      direction, active := d, Some(starts[number]);
      return true;
    }

    /** The numbers of ns whose clue is not filled, in order. */
    ghost function Unfilled(ns: seq<nat>, d: Dir): (us: seq<nat>)
      requires Shaped() && forall n :: n in Starts(d) ==> WhiteAt(solution, Starts(d)[n])
      reads entries
      ensures forall n :: n in us <==> n in ns && !ClueFilled(n, d)
      ensures Increasing(ns) ==> Increasing(us)
    {
      if ns == [] then []
      else
        var pre := Unfilled(ns[..|ns| - 1], d);
        var n := ns[|ns| - 1];
        assert ns == ns[..|ns| - 1] + [n];
        PrefixBelow(ns[..|ns| - 1], n);
        assert Increasing(ns) ==> Increasing(ns[..|ns| - 1]);
        SnocIncreasing(pre, n);
        if ClueFilled(n, d) then pre else pre + [n]
    }

    /** `getUnfilledClueNumbers(dir)`: the clue numbers of the direction,
        in increasing order, whose answers are not all filled in. */
    method UnfilledClueNumbers(d: Dir) returns (us: seq<nat>)
      requires Valid()
      ensures us == Unfilled(SortedNumbers(Clues(d).Keys), d)
    {
      var ns := SortedNumbers(Clues(d).Keys);
      us := [];
      for i := 0 to |ns|
        invariant us == Unfilled(ns[..i], d)
      {
        var filled := IsClueFilled(ns[i], d);
        UnfilledSnoc(ns, i, d);
        if !filled {
          us := us + [ns[i]];
        }
      }
      assert ns[..|ns|] == ns;
    }

    lemma UnfilledSnoc(ns: seq<nat>, i: nat, d: Dir)
      requires Shaped() && forall n :: n in Starts(d) ==> WhiteAt(solution, Starts(d)[n])
      requires i < |ns|
      ensures ClueFilled(ns[i], d) ==> Unfilled(ns[..i + 1], d) == Unfilled(ns[..i], d)
      ensures !ClueFilled(ns[i], d) ==> Unfilled(ns[..i + 1], d) == Unfilled(ns[..i], d) + [ns[i]]
    {
      var ms := ns[..i + 1];
      assert ms[..|ms| - 1] == ns[..i] && ms[|ms| - 1] == ns[i];
    }

    /** The choice `jumpToNextUnfilledClue(dir, currentNumber)` makes:
        among the unfilled clues, in increasing order, the one after the
        current number, wrapping round, or the first when the current
        number is not among them; none when every clue is filled. */
    method NextUnfilledClue(d: Dir, current: Option<nat>) returns (n: Option<nat>)
      requires Valid()
      ensures n.None? <==> Unfilled(SortedNumbers(Clues(d).Keys), d) == []
      ensures n == Cycled(Unfilled(SortedNumbers(Clues(d).Keys), d), current, 1)
      ensures n.Some? ==> n.value in Clues(d) && !ClueFilled(n.value, d)
      ensures n.Some? && current.Some? && current.value in Clues(d) && !ClueFilled(current.value, d)
        ==> n.value != current.value || |Unfilled(SortedNumbers(Clues(d).Keys), d)| == 1
    {
      var numbers := UnfilledClueNumbers(d);
      if |numbers| == 0 {
        return None;
      }
      var next := ForwardIndex(numbers, current);
      n := Some(numbers[next]);
      CycledMoves(numbers, current);
    }

    /** `jumpToNextUnfilledClue(dir, currentNumber)`: go to the clue
        `NextUnfilledClue` picks; false when every clue is filled or that
        clue has no start. */
    method JumpToNextUnfilledClue(d: Dir, current: Option<nat>) returns (moved: bool)
      requires Valid()
      modifies this
      ensures Valid()
      ensures old(Unfilled(SortedNumbers(Clues(d).Keys), d)) == [] ==> !moved
      ensures var n := old(Cycled(Unfilled(SortedNumbers(Clues(d).Keys), d), current, 1));
        (moved <==> n.Some? && n.value in Starts(d)) && (moved ==> direction == d && active == Some(Starts(d)[n.value]))
      ensures !moved ==> direction == old(direction) && active == old(active)
    {
      var n := NextUnfilledClue(d, current);
      if n.None? {
        return false;
      }
      moved := JumpToClue(n.value, d);
    }

    /** `jumpToFirstUnfilledClue(dir)`: go to the lowest-numbered unfilled
        clue of the direction. */
    method JumpToFirstUnfilledClue(d: Dir) returns (moved: bool)
      requires Valid()
      modifies this
      ensures Valid()
      ensures var us := Unfilled(SortedNumbers(Clues(d).Keys), d);
        && (us == [] ==> !moved)
        && (us != [] ==> && (moved <==> us[0] in Starts(d))
                         && (moved ==> direction == d && active == Some(Starts(d)[us[0]]))
                         && forall n :: n in Clues(d) && !ClueFilled(n, d) ==> us[0] <= n)
      ensures !moved ==> direction == old(direction) && active == old(active)
    {
      var numbers := UnfilledClueNumbers(d);
      if |numbers| == 0 {
        return false;
      }
      moved := JumpToClue(numbers[0], d);
    }

    /** n is the number of the start of the run of direction d through
        the cell x: none for no cell or an unnumbered start. */
    ghost predicate RunNumber(x: Option<Cell>, d: Dir, n: Option<nat>)
    {
      && (n.Some? <==> x.Some? && exists s, len: nat :: (MaximalRun(solution, d, s, len) && x.value in RunCells(s, d, len) && s in numbering))
      && (n.Some? ==> exists s, len: nat :: (MaximalRun(solution, d, s, len) && x.value in RunCells(s, d, len)
            && s in numbering && n.value == numbering[s]))
    }

    /** A cell's run number is well defined. */
    lemma RunNumberUnique(x: Option<Cell>, d: Dir, n1: Option<nat>, n2: Option<nat>)
      requires RunNumber(x, d, n1) && RunNumber(x, d, n2)
      ensures n1 == n2
    {
      if n1.Some? && n2.Some? {
        var s1, len1: nat :| MaximalRun(solution, d, s1, len1) && x.value in RunCells(s1, d, len1) && s1 in numbering && n1.value == numbering[s1];
        var s2, len2: nat :| MaximalRun(solution, d, s2, len2) && x.value in RunCells(s2, d, len2) && s2 in numbering && n2.value == numbering[s2];
        var i1 :| 0 <= i1 < len1 && RunCells(s1, d, len1)[i1] == x.value;
        var i2 :| 0 <= i2 < len2 && RunCells(s2, d, len2)[i2] == x.value;
        RunUnique(solution, d, s1, len1, s2, len2, i1, i2);
      }
    }

    /** `getClueNumberForCell(cell, dir)`: the number of the start of the
        run through the cell, if the start is numbered. */
    method ClueNumberForCell(x: Option<Cell>, d: Dir) returns (n: Option<nat>)
      requires Valid() && (x.Some? ==> WhiteAt(solution, x.value))
      ensures RunNumber(x, d, n)
    {
      var cells := ActiveCells(solution, h, w, x, d);
      if |cells| == 0 {
        return None;
      }
      var s := cells[0];
      forall s', len: nat | MaximalRun(solution, d, s', len) && x.value in RunCells(s', d, len) ensures s' == s {
        var i1 :| 0 <= i1 < |cells| && cells[i1] == x.value;
        var i2 :| 0 <= i2 < len && RunCells(s', d, len)[i2] == x.value;
        RunUnique(solution, d, s, |cells|, s', len, i1, i2);
      }
      if s !in numbering {
        return None;
      }
      return Some(numbering[s]);
    }

    /** The choice `cycleClue(step)` makes, from the clue of the
        cursor's run in the current direction. None without clues. */
    method NextClue(step: int) returns (n: Option<nat>)
      requires Valid() && (step == 1 || step == -1)
      ensures n.None? <==> Clues(direction) == map[]
      ensures n.Some? ==> n.value in Clues(direction)
      ensures exists cur :: RunNumber(active, direction, cur) && n == Cycled(SortedNumbers(Clues(direction).Keys), cur, step)
    {
      var numbers := SortedNumbers(Clues(direction).Keys);
      if |numbers| == 0 {
        assert Clues(direction).Keys == {};
      } else {
        assert numbers[0] in Clues(direction);
      }
      var current := ClueNumberForCell(active, direction);
      n := Cycled(numbers, current, step);
    }

    /** `cycleClue(step)`: go to the clue `NextClue` picks, in the current
        direction; nothing happens without clues or when that clue has no
        start. */
    method CycleClue(step: int)
      requires Valid() && (step == 1 || step == -1)
      modifies this
      ensures Valid() && direction == old(direction)
      ensures exists cur :: (RunNumber(old(active), direction, cur) &&
        var m := Cycled(SortedNumbers(Clues(direction).Keys), cur, step);
        if m.Some? && m.value in Starts(direction) then active == Some(Starts(direction)[m.value]) else active == old(active))
    {
      var n := NextClue(step);
      ghost var cur :| RunNumber(active, direction, cur) && n == Cycled(SortedNumbers(Clues(direction).Keys), cur, step);
      if n.Some? {
        var _ := JumpToClue(n.value, direction);
      }
    }
  }
}
