/** Cropping a finished sparse canvas to its bounding box: `bounding`, the
    '#'-filled grid with the board's letters written in, and the shift of
    the placements into cropped coordinates (build_final_layout.py,
    build_puzzle_final.py, rebuild_custom_puzzle.py). */
module Crop {
  import opened Common
  import opened Canvas

  /** `(r0, r1, c0, c1)`: first and last row and column. */
  datatype Box = Box(r0: int, r1: int, c0: int, c1: int)

  /** Every occupied cell lies inside the box. */
  ghost predicate Encloses(board: Board, box: Box)
  {
    forall x :: x in board ==> box.r0 <= x.0 <= box.r1 && box.c0 <= x.1 <= box.c1
  }

  /** Each side of the box touches an occupied cell. */
  ghost predicate Tight(board: Board, box: Box)
  {
    && (exists x :: x in board && x.0 == box.r0)
    && (exists x :: x in board && x.0 == box.r1)
    && (exists x :: x in board && x.1 == box.c0)
    && (exists x :: x in board && x.1 == box.c1)
  }

  /** `bounding(board)`: the min/max row and column over the occupied
      cells. An empty board has none (`min` of an empty list raises). */
  method Bounding(board: Board) returns (box: Box)
    requires |board| > 0
    ensures Encloses(board, box) && Tight(board, box)
    ensures box.r0 <= box.r1 && box.c0 <= box.c1
  {
    var x0 :| x0 in board;
    box := Box(x0.0, x0.0, x0.1, x0.1);
    var rest := board.Keys - {x0};
    while rest != {}
      invariant rest <= board.Keys && x0 !in rest
      invariant forall x :: x in board && x !in rest ==> box.r0 <= x.0 <= box.r1 && box.c0 <= x.1 <= box.c1
      invariant Tight(board, box)
      invariant box.r0 <= box.r1 && box.c0 <= box.c1
      decreases rest
    {
      var x :| x in rest;
      rest := rest - {x};
      if x.0 < box.r0 { box := box.(r0 := x.0); }
      if x.0 > box.r1 { box := box.(r1 := x.0); }
      if x.1 < box.c0 { box := box.(c0 := x.1); }
      if x.1 > box.c1 { box := box.(c1 := x.1); }
    }
  }

  function Height(box: Box): int { box.r1 - box.r0 + 1 }
  function Width(box: Box): int { box.c1 - box.c0 + 1 }

  /** The cropped grid at (i, j): the letter of board cell (r0 + i, c0 + j),
      '#' where the board is empty. */
  function Cropped(board: Board, box: Box, i: int, j: int): char
  {
    var x := (box.r0 + i, box.c0 + j);
    if x in board then board[x] else '#'
  }

  /** `grid = [['#'] * w for _ in range(h)]`, then every occupied cell
      written at its shifted place. */
  method CropGrid(board: Board, box: Box) returns (rows: seq<string>)
    requires Encloses(board, box) && box.r0 <= box.r1 && box.c0 <= box.c1
    ensures |rows| == Height(box) && forall i :: 0 <= i < |rows| ==> |rows[i]| == Width(box)
    ensures forall i, j :: 0 <= i < Height(box) && 0 <= j < Width(box) ==> rows[i][j] == Cropped(board, box, i, j)
  {
    var h, w := box.r1 - box.r0 + 1, box.c1 - box.c0 + 1;
    var g := new char[h, w]((i, j) => '#');
    var pending := board.Keys;
    while pending != {}
      invariant pending <= board.Keys
      invariant forall i, j :: 0 <= i < h && 0 <= j < w ==>
        g[i, j] == if (box.r0 + i, box.c0 + j) in board && (box.r0 + i, box.c0 + j) !in pending
                   then board[(box.r0 + i, box.c0 + j)] else '#'
      decreases pending
    {
      var x :| x in pending;
      pending := pending - {x};
      g[x.0 - box.r0, x.1 - box.c0] := board[x];
    }
    rows := seq(h, i requires 0 <= i < h reads g => seq(w, j requires 0 <= j < w reads g => g[i, j]));
  }

  /** A block in the cropped grid is exactly a cell off the board, since
      no letter is '#'. */
  lemma CroppedBlock(board: Board, box: Box, i: int, j: int)
    requires forall x :: x in board ==> board[x] != '#'
    ensures Cropped(board, box, i, j) == '#' <==> (box.r0 + i, box.c0 + j) !in board
  {
  }

  /** A placement moved into cropped coordinates. */
  function Shift(p: Placement, r0: int, c0: int): (q: Placement)
    ensures q.clue == p.clue && q.word == p.word && q.d == p.d
    ensures forall i :: CellAt(q.r, q.c, q.d, i) == (CellAt(p.r, p.c, p.d, i).0 - r0, CellAt(p.r, p.c, p.d, i).1 - c0)
  {
    Placement(p.clue, p.word, p.r - r0, p.c - c0, p.d)
  }

  /** `norm.append(Placement(p.clue, p.word, p.r - r0, p.c - c0, p.d))`
      for every placement. */
  method Normalise(placements: seq<Placement>, r0: int, c0: int) returns (norm: seq<Placement>)
    ensures |norm| == |placements|
    ensures forall k :: 0 <= k < |norm| ==> norm[k] == Shift(placements[k], r0, c0)
  {
    norm := [];
    for k := 0 to |placements|
      invariant |norm| == k
      invariant forall m :: 0 <= m < k ==> norm[m] == Shift(placements[m], r0, c0)
    {
      var p := placements[k];
      norm := norm + [Placement(p.clue, p.word, p.r - r0, p.c - c0, p.d)];
    }
  }

  /** Every letter of the placement is on the board. */
  ghost predicate OnBoard(board: Board, p: Placement)
  {
    forall i :: 0 <= i < |p.word| ==> CellAt(p.r, p.c, p.d, i) in board && board[CellAt(p.r, p.c, p.d, i)] == p.word[i]
  }

  /** A placement that is on the board reads off the cropped grid at its
      shifted cells. */
  lemma ShiftedShown(board: Board, box: Box, p: Placement)
    requires Encloses(board, box) && OnBoard(board, p)
    ensures var q := Shift(p, box.r0, box.c0);
      forall i :: 0 <= i < |p.word| ==>
        var y := CellAt(q.r, q.c, q.d, i);
        0 <= y.0 < Height(box) && 0 <= y.1 < Width(box) && Cropped(board, box, y.0, y.1) == p.word[i]
  {
    var q := Shift(p, box.r0, box.c0);
    forall i | 0 <= i < |p.word|
      ensures var y := CellAt(q.r, q.c, q.d, i);
        0 <= y.0 < Height(box) && 0 <= y.1 < Width(box) && Cropped(board, box, y.0, y.1) == p.word[i]
    {
      var x := CellAt(p.r, p.c, p.d, i);
      assert x in board;
      assert CellAt(q.r, q.c, q.d, i) == (x.0 - box.r0, x.1 - box.c0);
    }
  }
}
