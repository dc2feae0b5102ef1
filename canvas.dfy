/** The sparse canvas of the three free-form placers: a board mapping
    occupied cells to letters, a per-cell usage count, the placement
    legality test `can_place`, and the reference-counted updates
    `add_word`/`remove_word` (build_final_layout.py) and `place`/`unplace`
    (build_puzzle_final.py, rebuild_custom_puzzle.py). */
module Canvas {
  import opened Common

  type Board = map<Cell, char>
  type Usage = map<Cell, nat>

  /** A placed word: `Placement(clue, word, r, c, d)` of the first placer,
      the `(clue, word, r, c, d)` tuples of the other two. */
  datatype Placement = Placement(clue: string, word: string, r: int, c: int, d: Dir)

  /** `in_bounds(r, c)` for a canvas of `size` x `size` (GRID). */
  predicate InBounds(size: int, x: Cell)
  {
    0 <= x.0 < size && 0 <= x.1 < size
  }

  /** x lies on the line of a word starting at (r, c) in direction d. */
  predicate OnLine(r: int, c: int, d: Dir, x: Cell)
  {
    if d == Across then x.0 == r else x.1 == c
  }

  /** How far along that line x lies. */
  function Offset(r: int, c: int, d: Dir, x: Cell): int
  {
    if d == Across then x.1 - c else x.0 - r
  }

  /** x is one of the first n cells of the word at (r, c, d). */
  predicate Covers(r: int, c: int, d: Dir, n: int, x: Cell)
  {
    OnLine(r, c, d, x) && 0 <= Offset(r, c, d, x) < n
  }

  lemma CellAtCovers(r: int, c: int, d: Dir, i: int)
    ensures OnLine(r, c, d, CellAt(r, c, d, i)) && Offset(r, c, d, CellAt(r, c, d, i)) == i
  {
  }

  lemma CoversCellAt(r: int, c: int, d: Dir, x: Cell)
    requires OnLine(r, c, d, x)
    ensures CellAt(r, c, d, Offset(r, c, d, x)) == x
  {
  }

  /** The cells of the first n letters. */
  function CoverSet(r: int, c: int, d: Dir, n: nat): (s: set<Cell>)
    ensures forall x :: x in s <==> Covers(r, c, d, n, x)
  {
    var s := set i | 0 <= i < n :: CellAt(r, c, d, i);
    assert forall x :: Covers(r, c, d, n, x) ==> x in s by {
      forall x | Covers(r, c, d, n, x) ensures x in s {
        CoversCellAt(r, c, d, x);
      }
    }
    s
  }

  /** `Placement.cells()`: each letter of the word with its cell. */
  method PlacementCells(p: Placement) returns (out: seq<(int, int, char)>)
    ensures |out| == |p.word|
    ensures forall i :: 0 <= i < |out| ==>
      out[i] == (p.r + (if p.d == Down then i else 0), p.c + (if p.d == Across then i else 0), p.word[i])
  {
    out := [];
    for i := 0 to |p.word|
      invariant |out| == i
      invariant forall j :: 0 <= j < i ==>
        out[j] == (p.r + (if p.d == Down then j else 0), p.c + (if p.d == Across then j else 0), p.word[j])
    {
      var rr := p.r + (if p.d == Down then i else 0);
      var cc := p.c + (if p.d == Across then i else 0);
      out := out + [(rr, cc, p.word[i])];
    }
  }

  /** The neighbour of x on side s (-1 or +1) across the direction of travel:
      above/below for an across word, left/right for a down word. */
  function Side(x: Cell, d: Dir, s: int): Cell
  {
    if d == Across then (x.0 + s, x.1) else (x.0, x.1 + s)
  }

  /** Inside the canvas and occupied. */
  predicate Occupied(board: Board, size: int, x: Cell)
  {
    InBounds(size, x) && x in board
  }

  /** Letter i of the word lands on the same letter already on the board. */
  predicate CrossAt(board: Board, word: string, r: int, c: int, d: Dir, i: int)
    requires 0 <= i < |word|
  {
    var x := CellAt(r, c, d, i);
    x in board && board[x] == word[i]
  }

  /** Letter i fits: inside the canvas, no clash with a different letter,
      and, unless it is a crossing, no occupied side neighbour. */
  predicate FitsAt(board: Board, size: int, word: string, r: int, c: int, d: Dir, i: int)
    requires 0 <= i < |word|
  {
    var x := CellAt(r, c, d, i);
    && InBounds(size, x)
    && (x in board ==> board[x] == word[i])
    && (!CrossAt(board, word, r, c, d, i) ==>
          !Occupied(board, size, Side(x, d, -1)) && !Occupied(board, size, Side(x, d, 1)))
  }

  /** The legality test of `can_place`: free cells just before and just
      after the word, and every letter fits. */
  predicate Legal(board: Board, size: int, word: string, r: int, c: int, d: Dir)
  {
    && !Occupied(board, size, CellAt(r, c, d, -1))
    && !Occupied(board, size, CellAt(r, c, d, |word|))
    && forall i :: 0 <= i < |word| ==> FitsAt(board, size, word, r, c, d, i)
  }

  /** The number of crossings among the first n letters. */
  function Crossings(board: Board, word: string, r: int, c: int, d: Dir, n: nat): (k: nat)
    requires n <= |word|
    ensures k <= n
  {
    if n == 0 then 0
    else Crossings(board, word, r, c, d, n - 1) + (if CrossAt(board, word, r, c, d, n - 1) then 1 else 0)
  }

  /** A positive crossing count has a crossing letter. */
  lemma {:induction false} CrossingWitness(board: Board, word: string, r: int, c: int, d: Dir, n: nat)
    requires n <= |word|
    ensures Crossings(board, word, r, c, d, n) > 0 <==> exists i :: 0 <= i < n && CrossAt(board, word, r, c, d, i)
  {
    if n > 0 {
      CrossingWitness(board, word, r, c, d, n - 1);
    }
  }

  /** `can_place(board, word, r, c, d)`: the crossing count of a legal
      placement, 0 (or False) otherwise. */
  method CanPlace(board: Board, size: int, word: string, r: int, c: int, d: Dir) returns (inter: nat)
    ensures inter == if Legal(board, size, word, r, c, d) then Crossings(board, word, r, c, d, |word|) else 0
  {
    var before := CellAt(r, c, d, -1);
    var after := CellAt(r, c, d, |word|);
    if InBounds(size, before) && before in board {
      return 0;
    }
    if InBounds(size, after) && after in board {
      return 0;
    }
    inter := 0;
    for i := 0 to |word|
      invariant inter == Crossings(board, word, r, c, d, i)
      invariant forall j :: 0 <= j < i ==> FitsAt(board, size, word, r, c, d, j)
    {
      var x := CellAt(r, c, d, i);
      if !InBounds(size, x) {
        assert !FitsAt(board, size, word, r, c, d, i);
        return 0;
      }
      var cur: Option<char> := if x in board then Some(board[x]) else None;
      if cur.Some? && cur.value != word[i] {
        assert !FitsAt(board, size, word, r, c, d, i);
        return 0;
      }
      if cur == Some(word[i]) {
        inter := inter + 1;
      }
      var s1, s2 := Side(x, d, -1), Side(x, d, 1);
      if InBounds(size, s1) && s1 in board && cur != Some(word[i]) {
        assert !FitsAt(board, size, word, r, c, d, i);
        return 0;
      }
      if InBounds(size, s2) && s2 in board && cur != Some(word[i]) {
        assert !FitsAt(board, size, word, r, c, d, i);
        return 0;
      }
    }
  }

  /** The reference-count invariant kept between the updates: every
      occupied cell has a positive usage count and nothing else has one. */
  ghost predicate Counted(board: Board, usage: Usage)
  {
    board.Keys == usage.Keys && forall x :: x in usage ==> usage[x] >= 1
  }

  /** The board after writing the first n letters, overwriting what is there
      (`place_word`, and the board half of `add_word`). */
  function AddedBoard(b: Board, word: string, r: int, c: int, d: Dir, n: nat): Board
    requires n <= |word|
  {
    if n == 0 then b
    else AddedBoard(b, word, r, c, d, n - 1)[CellAt(r, c, d, n - 1) := word[n - 1]]
  }

  /** The usage counts after one more use of each of the first n cells
      (`usage.get(cell, 0) + 1`). */
  function AddedUsage(u: Usage, r: int, c: int, d: Dir, n: nat): Usage
  {
    if n == 0 then u
    else
      var m := AddedUsage(u, r, c, d, n - 1);
      var x := CellAt(r, c, d, n - 1);
      m[x := (if x in m then m[x] else 0) + 1]
  }

  /** Every count is positive: a count that reaches 0 is deleted. */
  ghost predicate Positive(u: Usage)
  {
    forall x :: x in u ==> u[x] >= 1
  }

  /** The usage counts after one less use of each of the first n cells; a
      count that reaches 0 is dropped. A cell without a count (a KeyError in
      the source, excluded by the callers' preconditions) is left alone. */
  function RemovedUsage(u: Usage, r: int, c: int, d: Dir, n: nat): Usage
  {
    if n == 0 then u
    else
      var m := RemovedUsage(u, r, c, d, n - 1);
      var x := CellAt(r, c, d, n - 1);
      if x !in m then m
      else if m[x] <= 1 then m - {x}
      else m[x := m[x] - 1]
  }

  /** The board after `remove_word` over the first n cells: a cell is
      cleared together with its last use. */
  function RemovedBoard(b: Board, u: Usage, r: int, c: int, d: Dir, n: nat): Board
  {
    if n == 0 then b
    else
      var m := RemovedBoard(b, u, r, c, d, n - 1);
      var k := RemovedUsage(u, r, c, d, n - 1);
      var x := CellAt(r, c, d, n - 1);
      if x in k && k[x] <= 1 then m - {x} else m
  }

  /** The board after `place` over the first n letters: only empty cells
      are written. */
  function PlacedBoard(b: Board, word: string, r: int, c: int, d: Dir, n: nat): Board
    requires n <= |word|
  {
    if n == 0 then b
    else
      var m := PlacedBoard(b, word, r, c, d, n - 1);
      var x := CellAt(r, c, d, n - 1);
      if x in m then m else m[x := word[n - 1]]
  }

  /** The `changed` list of `place` over the first n letters: the cells
      found empty, in word order. */
  function NewCells(b: Board, word: string, r: int, c: int, d: Dir, n: nat): seq<Cell>
    requires n <= |word|
  {
    if n == 0 then []
    else
      var x := CellAt(r, c, d, n - 1);
      NewCells(b, word, r, c, d, n - 1) + (if x in PlacedBoard(b, word, r, c, d, n - 1) then [] else [x])
  }

  /** Writing n letters: the covered cells hold the word's letters, every
      other cell keeps its letter. */
  lemma {:induction false} AddedBoardAt(b: Board, word: string, r: int, c: int, d: Dir, n: nat, x: Cell)
    requires n <= |word|
    ensures x in AddedBoard(b, word, r, c, d, n) <==> x in b || Covers(r, c, d, n, x)
    ensures x in AddedBoard(b, word, r, c, d, n) ==>
      AddedBoard(b, word, r, c, d, n)[x] == if Covers(r, c, d, n, x) then word[Offset(r, c, d, x)] else b[x]
  {
    if n > 0 {
      AddedBoardAt(b, word, r, c, d, n - 1, x);
      CellAtCovers(r, c, d, n - 1);
    }
  }

  /** One more use: each covered cell's count goes up by one, starting
      from 0 for a cell without a count. */
  lemma {:induction false} AddedUsageAt(u: Usage, r: int, c: int, d: Dir, n: nat, x: Cell)
    ensures x in AddedUsage(u, r, c, d, n) <==> x in u || Covers(r, c, d, n, x)
    ensures x in AddedUsage(u, r, c, d, n) ==>
      AddedUsage(u, r, c, d, n)[x] == (if x in u then u[x] else 0) + (if Covers(r, c, d, n, x) then 1 else 0)
  {
    if n > 0 {
      AddedUsageAt(u, r, c, d, n - 1, x);
      CellAtCovers(r, c, d, n - 1);
    }
  }

  /** One less use: each covered cell's count goes down by one and a count
      of 1 disappears; other counts stay. */
  lemma {:induction false} RemovedUsageAt(u: Usage, r: int, c: int, d: Dir, n: nat, x: Cell)
    requires Positive(u)
    requires forall i :: 0 <= i < n ==> CellAt(r, c, d, i) in u
    ensures x in RemovedUsage(u, r, c, d, n) <==> x in u && !(Covers(r, c, d, n, x) && u[x] == 1)
    ensures x in RemovedUsage(u, r, c, d, n) ==>
      RemovedUsage(u, r, c, d, n)[x] == if Covers(r, c, d, n, x) then u[x] - 1 else u[x]
  {
    if n > 0 {
      var y := CellAt(r, c, d, n - 1);
      CellAtCovers(r, c, d, n - 1);
      RemovedUsageAt(u, r, c, d, n - 1, x);
      RemovedUsageAt(u, r, c, d, n - 1, y);
    }
  }

  /** Removing clears exactly the covered cells whose count was 1. */
  lemma {:induction false} RemovedBoardAt(b: Board, u: Usage, r: int, c: int, d: Dir, n: nat, x: Cell)
    requires Positive(u)
    requires forall i :: 0 <= i < n ==> CellAt(r, c, d, i) in u
    ensures x in RemovedBoard(b, u, r, c, d, n) <==> x in b && !(Covers(r, c, d, n, x) && x in u && u[x] == 1)
    ensures x in RemovedBoard(b, u, r, c, d, n) ==> RemovedBoard(b, u, r, c, d, n)[x] == b[x]
  {
    if n > 0 {
      var y := CellAt(r, c, d, n - 1);
      CellAtCovers(r, c, d, n - 1);
      RemovedBoardAt(b, u, r, c, d, n - 1, x);
      RemovedUsageAt(u, r, c, d, n - 1, y);
    }
  }

  /** Placing fills the empty covered cells and keeps every letter already
      on the board. */
  lemma {:induction false} PlacedBoardAt(b: Board, word: string, r: int, c: int, d: Dir, n: nat, x: Cell)
    requires n <= |word|
    ensures x in PlacedBoard(b, word, r, c, d, n) <==> x in b || Covers(r, c, d, n, x)
    ensures x in PlacedBoard(b, word, r, c, d, n) ==>
      PlacedBoard(b, word, r, c, d, n)[x] == if x in b then b[x] else word[Offset(r, c, d, x)]
  {
    if n > 0 {
      var y := CellAt(r, c, d, n - 1);
      CellAtCovers(r, c, d, n - 1);
      PlacedBoardAt(b, word, r, c, d, n - 1, x);
      PlacedBoardAt(b, word, r, c, d, n - 1, y);
    }
  }

  /** `changed` lists each covered cell that was empty, once. */
  lemma {:induction false} NewCellsAt(b: Board, word: string, r: int, c: int, d: Dir, n: nat)
    requires n <= |word|
    ensures forall x :: x in NewCells(b, word, r, c, d, n) <==> Covers(r, c, d, n, x) && x !in b
    ensures NoDup(NewCells(b, word, r, c, d, n))
  {
    if n > 0 {
      var y := CellAt(r, c, d, n - 1);
      CellAtCovers(r, c, d, n - 1);
      NewCellsAt(b, word, r, c, d, n - 1);
      PlacedBoardAt(b, word, r, c, d, n - 1, y);
    }
  }

  /** The word agrees with every letter already on the board. */
  predicate Agrees(b: Board, word: string, r: int, c: int, d: Dir)
  {
    forall i :: 0 <= i < |word| && CellAt(r, c, d, i) in b ==> b[CellAt(r, c, d, i)] == word[i]
  }

  /** A legal placement agrees with the board. */
  lemma LegalAgrees(b: Board, size: int, word: string, r: int, c: int, d: Dir)
    requires Legal(b, size, word, r, c, d)
    ensures Agrees(b, word, r, c, d)
  {
    forall i | 0 <= i < |word| && CellAt(r, c, d, i) in b
      ensures b[CellAt(r, c, d, i)] == word[i]
    {
      assert FitsAt(b, size, word, r, c, d, i);
    }
  }

  /** `add_word` keeps the reference-count invariant. */
  lemma AddKeepsCounted(b: Board, u: Usage, word: string, r: int, c: int, d: Dir)
    requires Counted(b, u)
    ensures Counted(AddedBoard(b, word, r, c, d, |word|), AddedUsage(u, r, c, d, |word|))
  {
    var b1, u1 := AddedBoard(b, word, r, c, d, |word|), AddedUsage(u, r, c, d, |word|);
    forall x ensures (x in b1 <==> x in u1) && (x in u1 ==> u1[x] >= 1) {
      AddedBoardAt(b, word, r, c, d, |word|, x);
      AddedUsageAt(u, r, c, d, |word|, x);
    }
  }

  /** `place` keeps the reference-count invariant. */
  lemma PlaceKeepsCounted(b: Board, u: Usage, word: string, r: int, c: int, d: Dir)
    requires Counted(b, u)
    ensures Counted(PlacedBoard(b, word, r, c, d, |word|), AddedUsage(u, r, c, d, |word|))
  {
    var b1, u1 := PlacedBoard(b, word, r, c, d, |word|), AddedUsage(u, r, c, d, |word|);
    forall x ensures (x in b1 <==> x in u1) && (x in u1 ==> u1[x] >= 1) {
      PlacedBoardAt(b, word, r, c, d, |word|, x);
      AddedUsageAt(u, r, c, d, |word|, x);
    }
  }

  /** `remove_word` of a word whose cells are all in use keeps the
      reference-count invariant. */
  lemma RemoveKeepsCounted(b: Board, u: Usage, word: string, r: int, c: int, d: Dir)
    requires Counted(b, u)
    requires forall i :: 0 <= i < |word| ==> CellAt(r, c, d, i) in u
    ensures Counted(RemovedBoard(b, u, r, c, d, |word|), RemovedUsage(u, r, c, d, |word|))
  {
    var b1, u1 := RemovedBoard(b, u, r, c, d, |word|), RemovedUsage(u, r, c, d, |word|);
    forall x ensures (x in b1 <==> x in u1) && (x in u1 ==> u1[x] >= 1) {
      RemovedBoardAt(b, u, r, c, d, |word|, x);
      RemovedUsageAt(u, r, c, d, |word|, x);
    }
  }

  /** After a use of every covered cell, the counts are positive and every
      covered cell has one: the preconditions of removing the same word. */
  lemma AddedUsageCovers(u: Usage, r: int, c: int, d: Dir, n: nat)
    requires Positive(u)
    ensures Positive(AddedUsage(u, r, c, d, n))
    ensures forall i :: 0 <= i < n ==> CellAt(r, c, d, i) in AddedUsage(u, r, c, d, n)
  {
    forall x ensures x in AddedUsage(u, r, c, d, n) ==> AddedUsage(u, r, c, d, n)[x] >= 1 {
      AddedUsageAt(u, r, c, d, n, x);
    }
    forall i | 0 <= i < n ensures CellAt(r, c, d, i) in AddedUsage(u, r, c, d, n) {
      CellAtCovers(r, c, d, i);
      AddedUsageAt(u, r, c, d, n, CellAt(r, c, d, i));
    }
  }

  /** Removing a word right after adding it gives back the counts. */
  lemma RemovedAddedUsage(u: Usage, r: int, c: int, d: Dir, n: nat)
    requires Positive(u)
    ensures RemovedUsage(AddedUsage(u, r, c, d, n), r, c, d, n) == u
  {
    var u1 := AddedUsage(u, r, c, d, n);
    AddedUsageCovers(u, r, c, d, n);
    var u2 := RemovedUsage(u1, r, c, d, n);
    forall x ensures (x in u2 <==> x in u) && (x in u ==> u2[x] == u[x]) {
      AddedUsageAt(u, r, c, d, n, x);
      RemovedUsageAt(u1, r, c, d, n, x);
    }
  }

  /** `remove_word` undoes `add_word` exactly when the word agreed with the
      letters already on the board; otherwise an overwritten letter stays. */
  lemma AddRemoveRoundTrip(b: Board, u: Usage, word: string, r: int, c: int, d: Dir)
    requires Counted(b, u)
    ensures var u1 := AddedUsage(u, r, c, d, |word|);
      && RemovedUsage(u1, r, c, d, |word|) == u
      && (RemovedBoard(AddedBoard(b, word, r, c, d, |word|), u1, r, c, d, |word|) == b <==> Agrees(b, word, r, c, d))
  {
    var n := |word|;
    var b1, u1 := AddedBoard(b, word, r, c, d, n), AddedUsage(u, r, c, d, n);
    RemovedAddedUsage(u, r, c, d, n);
    AddedUsageCovers(u, r, c, d, n);
    var b2 := RemovedBoard(b1, u1, r, c, d, n);
    forall x ensures (x in b2 <==> x in b) && (x in b2 ==> b2[x] == if Covers(r, c, d, n, x) then word[Offset(r, c, d, x)] else b[x]) {
      AddedBoardAt(b, word, r, c, d, n, x);
      AddedUsageAt(u, r, c, d, n, x);
      RemovedBoardAt(b1, u1, r, c, d, n, x);
    }
    if Agrees(b, word, r, c, d) {
      forall x | x in b ensures b2[x] == b[x] {
        if Covers(r, c, d, n, x) {
          CoversCellAt(r, c, d, x);
        }
      }
    }
    if b2 == b {
      forall i | 0 <= i < n && CellAt(r, c, d, i) in b ensures b[CellAt(r, c, d, i)] == word[i] {
        CellAtCovers(r, c, d, i);
      }
    }
  }

  /** `unplace` with the `changed` list of `place` undoes `place` exactly,
      and the list meets `unplace`'s preconditions. */
  lemma PlaceUnplaceRoundTrip(b: Board, u: Usage, word: string, r: int, c: int, d: Dir)
    requires Positive(u)
    ensures var b1, u1, ch := PlacedBoard(b, word, r, c, d, |word|), AddedUsage(u, r, c, d, |word|), NewCells(b, word, r, c, d, |word|);
      && Positive(u1) && (forall i :: 0 <= i < |word| ==> CellAt(r, c, d, i) in u1)
      && NoDup(ch) && SetOf(ch) <= b1.Keys
      && RemovedUsage(u1, r, c, d, |word|) == u
      && b1 - SetOf(ch) == b
  {
    var n := |word|;
    var b1, ch := PlacedBoard(b, word, r, c, d, n), NewCells(b, word, r, c, d, n);
    AddedUsageCovers(u, r, c, d, n);
    RemovedAddedUsage(u, r, c, d, n);
    NewCellsAt(b, word, r, c, d, n);
    forall x ensures (x in b1 - SetOf(ch) <==> x in b) && (x in b ==> b1[x] == b[x]) && (x in ch ==> x in b1) {
      PlacedBoardAt(b, word, r, c, d, n, x);
    }
  }

  /** The canvas of the free-form placers: the letters on the board and how
      many placed words use each cell. */
  class Sparse {
    var board: Board
    var usage: Usage

    ghost predicate Valid()
      reads this
    {
      Counted(board, usage)
    }

    /** An empty canvas (`board = {}`, `usage = {}`). */
    constructor ()
      ensures board == map[] && usage == map[] && Valid()
    {
      board := map[];
      usage := map[];
    }

    /** `place_word`: write every letter, leaving the counts alone. */
    method PlaceWord(p: Placement)
      modifies this
      ensures board == AddedBoard(old(board), p.word, p.r, p.c, p.d, |p.word|)
      ensures usage == old(usage)
    {
      ghost var b0 := board;
      for i := 0 to |p.word|
        invariant board == AddedBoard(b0, p.word, p.r, p.c, p.d, i)
        invariant usage == old(usage)
      {
        board := board[CellAt(p.r, p.c, p.d, i) := p.word[i]];
      }
    }

    /** `add_word`: write every letter and count one more use of its cell. */
    method AddWord(p: Placement)
      modifies this
      ensures board == AddedBoard(old(board), p.word, p.r, p.c, p.d, |p.word|)
      ensures usage == AddedUsage(old(usage), p.r, p.c, p.d, |p.word|)
      ensures old(Valid()) ==> Valid()
    {
      ghost var b0, u0 := board, usage;
      for i := 0 to |p.word|
        invariant board == AddedBoard(b0, p.word, p.r, p.c, p.d, i)
        invariant usage == AddedUsage(u0, p.r, p.c, p.d, i)
      {
        var x := CellAt(p.r, p.c, p.d, i);
        board := board[x := p.word[i]];
        usage := usage[x := (if x in usage then usage[x] else 0) + 1];
      }
      if Counted(b0, u0) {
        AddKeepsCounted(b0, u0, p.word, p.r, p.c, p.d);
      }
    }

    /** `remove_word`: count one less use of each cell, clearing a cell
        whose count reaches 0. */
    method RemoveWord(p: Placement)
      requires Valid()
      requires forall i :: 0 <= i < |p.word| ==> CellAt(p.r, p.c, p.d, i) in usage
      modifies this
      ensures board == RemovedBoard(old(board), old(usage), p.r, p.c, p.d, |p.word|)
      ensures usage == RemovedUsage(old(usage), p.r, p.c, p.d, |p.word|)
      ensures Valid()
    {
      ghost var b0, u0 := board, usage;
      RemoveKeepsCounted(b0, u0, p.word, p.r, p.c, p.d);
      for i := 0 to |p.word|
        invariant board == RemovedBoard(b0, u0, p.r, p.c, p.d, i)
        invariant usage == RemovedUsage(u0, p.r, p.c, p.d, i)
      {
        var x := CellAt(p.r, p.c, p.d, i);
        CellAtCovers(p.r, p.c, p.d, i);
        RemovedUsageAt(u0, p.r, p.c, p.d, i, x);
        var left := usage[x] - 1;
        if left == 0 {
          usage := usage - {x};
          board := board - {x};
        } else {
          usage := usage[x := left];
        }
      }
    }

    /** `place`: write the letters into the empty cells only, count one more
        use of every cell, and return the cells that were empty. */
    method Place(word: string, r: int, c: int, d: Dir) returns (changed: seq<Cell>)
      modifies this
      ensures board == PlacedBoard(old(board), word, r, c, d, |word|)
      ensures usage == AddedUsage(old(usage), r, c, d, |word|)
      ensures changed == NewCells(old(board), word, r, c, d, |word|)
      ensures old(Valid()) ==> Valid()
    {
      ghost var b0, u0 := board, usage;
      if Counted(b0, u0) {
        PlaceKeepsCounted(b0, u0, word, r, c, d);
      }
      changed := [];
      for i := 0 to |word|
        invariant board == PlacedBoard(b0, word, r, c, d, i)
        invariant usage == AddedUsage(u0, r, c, d, i)
        invariant changed == NewCells(b0, word, r, c, d, i)
      {
        var x := CellAt(r, c, d, i);
        if x !in board {
          changed := changed + [x];
          board := board[x := word[i]];
        }
        usage := usage[x := (if x in usage then usage[x] else 0) + 1];
      }
    }

    /** `unplace`: count one less use of every cell of the word, dropping
        counts that reach 0, then clear the cells `place` had filled. */
    method Unplace(changed: seq<Cell>, word: string, r: int, c: int, d: Dir)
      requires Positive(usage)
      requires forall i :: 0 <= i < |word| ==> CellAt(r, c, d, i) in usage
      requires NoDup(changed) && SetOf(changed) <= board.Keys
      modifies this
      ensures usage == RemovedUsage(old(usage), r, c, d, |word|)
      ensures board == old(board) - SetOf(changed)
    {
      ghost var u0 := usage;
      for i := 0 to |word|
        invariant usage == RemovedUsage(u0, r, c, d, i)
        invariant board == old(board)
      {
        var x := CellAt(r, c, d, i);
        CellAtCovers(r, c, d, i);
        RemovedUsageAt(u0, r, c, d, i, x);
        var left := usage[x] - 1;
        if left == 0 {
          usage := usage - {x};
        } else {
          usage := usage[x := left];
        }
      }
      for j := 0 to |changed|
        invariant board == old(board) - SetOf(changed[..j])
        invariant usage == RemovedUsage(u0, r, c, d, |word|)
      {
        assert changed[j] !in SetOf(changed[..j]);
        assert SetOf(changed[..j + 1]) == SetOf(changed[..j]) + {changed[j]} by {
          assert changed[..j + 1] == changed[..j] + [changed[j]];
        }
        board := board - {changed[j]};
      }
      assert changed[..|changed|] == changed;
    }
  }
}
