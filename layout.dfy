/** What the free-form placers keep true while they place words: the board
    holds exactly the cells of the placements, with their letters; each
    later placement crosses an earlier one; and, after cropping, the grid
    shows every placement and nothing else. */
module Layouts {
  import opened Common
  import opened Canvas
  import opened Candidates
  import opened Crop

  /** Cell a of placement p. */
  function CellOf(p: Placement, a: int): Cell
  {
    CellAt(p.r, p.c, p.d, a)
  }

  /** The cells covered by the placements. */
  function Footprint(ps: seq<Placement>): set<Cell>
  {
    set k, a | 0 <= k < |ps| && 0 <= a < |ps[k].word| :: CellOf(ps[k], a)
  }

  lemma FootprintSnoc(ps: seq<Placement>, p: Placement)
    ensures Footprint(ps + [p]) == Footprint(ps) + CoverSet(p.r, p.c, p.d, |p.word|)
  {
    var qs := ps + [p];
    forall x | x in Footprint(qs) ensures x in Footprint(ps) + CoverSet(p.r, p.c, p.d, |p.word|) {
      var k, a :| 0 <= k < |qs| && 0 <= a < |qs[k].word| && CellOf(qs[k], a) == x;
      if k == |ps| {
        CellAtCovers(p.r, p.c, p.d, a);
      } else {
        assert qs[k] == ps[k];
      }
    }
    forall x | x in Footprint(ps) + CoverSet(p.r, p.c, p.d, |p.word|) ensures x in Footprint(qs) {
      if x in Footprint(ps) {
        var k, a :| 0 <= k < |ps| && 0 <= a < |ps[k].word| && CellOf(ps[k], a) == x;
        assert qs[k] == ps[k];
      } else {
        CoversCellAt(p.r, p.c, p.d, x);
        assert CellOf(qs[|ps|], Offset(p.r, p.c, p.d, x)) == x;
      }
    }
  }

  ghost predicate AllOnBoard(board: Board, ps: seq<Placement>)
  {
    forall k :: 0 <= k < |ps| ==> OnBoard(board, ps[k])
  }

  /** The board holds exactly the cells of the placements, each with the
      letter its placements put there. */
  ghost predicate Layout(board: Board, ps: seq<Placement>)
  {
    board.Keys == Footprint(ps) && AllOnBoard(board, ps)
  }

  /** Letter a of p and letter b of q share a cell. */
  predicate SharesCell(p: Placement, q: Placement, a: int, b: int)
  {
    0 <= a < |p.word| && 0 <= b < |q.word| && CellOf(p, a) == CellOf(q, b)
  }

  /** Placement k crosses an earlier placement. */
  ghost predicate CrossesEarlier(ps: seq<Placement>, k: int)
    requires 0 <= k < |ps|
  {
    exists j, a, b :: 0 <= j < k && SharesCell(ps[k], ps[j], a, b)
  }

  /** Every placement from index `from` on, except the very first one,
      crosses an earlier placement. */
  ghost predicate ChainedFrom(ps: seq<Placement>, from: int)
  {
    forall k :: from <= k < |ps| && 0 < k ==> CrossesEarlier(ps, k)
  }

  lemma ChainedSnoc(ps: seq<Placement>, p: Placement, from: int)
    requires ChainedFrom(ps, from) && (|ps| > 0 ==> CrossesEarlier(ps + [p], |ps|))
    ensures ChainedFrom(ps + [p], from)
  {
    var qs := ps + [p];
    forall k | from <= k < |qs| && 0 < k ensures CrossesEarlier(qs, k) {
      if k < |ps| {
        assert CrossesEarlier(ps, k);
        var j, a, b :| 0 <= j < k && SharesCell(ps[k], ps[j], a, b);
        assert qs[k] == ps[k] && qs[j] == ps[j];
      }
    }
  }

  /** Writing an agreeing word over a layout (`add_word`) gives the layout
      with that placement added. */
  lemma AddedLayout(board: Board, ps: seq<Placement>, p: Placement)
    requires Layout(board, ps) && Agrees(board, p.word, p.r, p.c, p.d)
    ensures Layout(AddedBoard(board, p.word, p.r, p.c, p.d, |p.word|), ps + [p])
  {
    var b1 := AddedBoard(board, p.word, p.r, p.c, p.d, |p.word|);
    FootprintSnoc(ps, p);
    forall x ensures x in b1 <==> x in board || Covers(p.r, p.c, p.d, |p.word|, x) {
      AddedBoardAt(board, p.word, p.r, p.c, p.d, |p.word|, x);
    }
    forall x | x in b1 ensures b1[x] == if Covers(p.r, p.c, p.d, |p.word|, x) then p.word[Offset(p.r, p.c, p.d, x)] else board[x] {
      AddedBoardAt(board, p.word, p.r, p.c, p.d, |p.word|, x);
    }
    LayoutExtended(board, b1, ps, p);
  }

  /** Writing an agreeing word's letters into the empty cells (`place`)
      gives the layout with that placement added. */
  lemma PlacedLayout(board: Board, ps: seq<Placement>, p: Placement)
    requires Layout(board, ps) && Agrees(board, p.word, p.r, p.c, p.d)
    ensures Layout(PlacedBoard(board, p.word, p.r, p.c, p.d, |p.word|), ps + [p])
  {
    var b1 := PlacedBoard(board, p.word, p.r, p.c, p.d, |p.word|);
    FootprintSnoc(ps, p);
    forall x ensures x in b1 <==> x in board || Covers(p.r, p.c, p.d, |p.word|, x) {
      PlacedBoardAt(board, p.word, p.r, p.c, p.d, |p.word|, x);
    }
    forall x | x in b1 ensures b1[x] == if Covers(p.r, p.c, p.d, |p.word|, x) then p.word[Offset(p.r, p.c, p.d, x)] else board[x] {
      PlacedBoardAt(board, p.word, p.r, p.c, p.d, |p.word|, x);
      if x in board && Covers(p.r, p.c, p.d, |p.word|, x) {
        CoversCellAt(p.r, p.c, p.d, x);
      }
    }
    LayoutExtended(board, b1, ps, p);
  }

  /** The board b1 adds p's cells to board and writes p's letters there;
      where board already had a letter, p agreed with it. */
  lemma LayoutExtended(board: Board, b1: Board, ps: seq<Placement>, p: Placement)
    requires Layout(board, ps) && Agrees(board, p.word, p.r, p.c, p.d)
    requires forall x :: x in b1 <==> x in board || Covers(p.r, p.c, p.d, |p.word|, x)
    requires forall x :: x in b1 ==>
      b1[x] == if Covers(p.r, p.c, p.d, |p.word|, x) then p.word[Offset(p.r, p.c, p.d, x)] else board[x]
    requires Footprint(ps + [p]) == Footprint(ps) + CoverSet(p.r, p.c, p.d, |p.word|)
    ensures Layout(b1, ps + [p])
  {
    var qs := ps + [p];
    forall k | 0 <= k < |qs| ensures OnBoard(b1, qs[k]) {
      if k == |ps| {
        forall a | 0 <= a < |p.word| ensures CellOf(p, a) in b1 && b1[CellOf(p, a)] == p.word[a] {
          CellAtCovers(p.r, p.c, p.d, a);
        }
      } else {
        assert qs[k] == ps[k];
        KeptOnBoard(board, b1, ps[k], p);
      }
    }
  }

  /** A placement on the board stays on it when an agreeing word is
      written over it. */
  lemma KeptOnBoard(board: Board, b1: Board, q: Placement, p: Placement)
    requires OnBoard(board, q) && Agrees(board, p.word, p.r, p.c, p.d)
    requires forall x :: x in b1 <==> x in board || Covers(p.r, p.c, p.d, |p.word|, x)
    requires forall x :: x in b1 ==>
      b1[x] == if Covers(p.r, p.c, p.d, |p.word|, x) then p.word[Offset(p.r, p.c, p.d, x)] else board[x]
    ensures OnBoard(b1, q)
  {
    forall a | 0 <= a < |q.word| ensures CellOf(q, a) in b1 && b1[CellOf(q, a)] == q.word[a] {
      var x := CellOf(q, a);
      if Covers(p.r, p.c, p.d, |p.word|, x) {
        CoversCellAt(p.r, p.c, p.d, x);
      }
    }
  }

  /** A placement with a positive crossing count over a layout crosses one
      of the placements already there. */
  lemma CrossingPlacement(board: Board, ps: seq<Placement>, p: Placement)
    requires Layout(board, ps) && Crossings(board, p.word, p.r, p.c, p.d, |p.word|) > 0
    ensures CrossesEarlier(ps + [p], |ps|)
  {
    CrossingWitness(board, p.word, p.r, p.c, p.d, |p.word|);
    var a :| 0 <= a < |p.word| && CrossAt(board, p.word, p.r, p.c, p.d, a);
    var x := CellOf(p, a);
    assert x in Footprint(ps);
    var j, b :| 0 <= j < |ps| && 0 <= b < |ps[j].word| && CellOf(ps[j], b) == x;
    var qs := ps + [p];
    assert qs[|ps|] == p && qs[j] == ps[j];
    assert SharesCell(qs[|ps|], qs[j], a, b);
  }

  /** A candidate agrees with the board it was generated for: on an empty
      board trivially, otherwise because it is legal. */
  lemma CandidateAgrees(board: Board, size: nat, word: string, cands: seq<Cand>, k: int)
    requires 0 <= k < |cands|
    requires |board| > 0 ==> Sound(board, size, word, cands)
    ensures Agrees(board, word, cands[k].r, cands[k].c, cands[k].d)
  {
    if |board| > 0 {
      LegalAgrees(board, size, word, cands[k].r, cands[k].c, cands[k].d);
    } else {
      assert board == map[];
    }
  }

  /** A candidate taken from a generated list agrees with the board, and
      one with a positive count is legal and crosses the board. */
  lemma CandidateCrosses(board: Board, size: nat, word: string, cands: seq<Cand>, e: Cand)
    requires e in cands
    requires |board| > 0 ==> Sound(board, size, word, cands)
    requires |board| == 0 ==> forall k :: 0 <= k < |cands| ==> cands[k].inter == 0
    ensures Agrees(board, word, e.r, e.c, e.d)
    ensures e.inter > 0 ==> Legal(board, size, word, e.r, e.c, e.d) && Crossings(board, word, e.r, e.c, e.d, |word|) == e.inter
  {
    var k :| 0 <= k < |cands| && cands[k] == e;
    CandidateAgrees(board, size, word, cands, k);
  }

  /** The placements carry the clues and answers of the word list, in
      order. */
  predicate Labelled(ps: seq<Placement>, words: seq<(string, string)>)
  {
    |ps| == |words| && forall k :: 0 <= k < |ps| ==> ps[k].clue == words[k].0 && ps[k].word == words[k].1
  }

  /** Shifting keeps clues and answers. */
  lemma ShiftedLabelled(ps: seq<Placement>, norm: seq<Placement>, r0: int, c0: int, words: seq<(string, string)>)
    requires Labelled(ps, words)
    requires |norm| == |ps| && forall k :: 0 <= k < |ps| ==> norm[k] == Shift(ps[k], r0, c0)
    ensures Labelled(norm, words)
  {
    forall k | 0 <= k < |norm| ensures norm[k].clue == words[k].0 && norm[k].word == words[k].1 {
      assert norm[k] == Shift(ps[k], r0, c0);
    }
  }

  /** One more placement carrying the next clue and answer. */
  lemma LabelledSnoc(placements: seq<Placement>, words: seq<(string, string)>, i: nat, p: Placement)
    requires i == |placements| < |words| && Labelled(placements, words[..i])
    requires p.clue == words[i].0 && p.word == words[i].1
    ensures Labelled(placements + [p], words[..i + 1])
  {
    assert words[..i + 1] == words[..i] + [words[i]];
  }

  /** Dropping the last of i + 1 leading placements. */
  lemma PrefixSnoc(result: seq<Placement>, placements: seq<Placement>, p: Placement)
    requires |placements| < |result| && result[..|placements| + 1] == placements + [p]
    ensures result[..|placements|] == placements
  {
    assert result[..|placements|] == result[..|placements| + 1][..|placements|];
  }

  /** `{w for _, w, *_ in placements}`. */
  function PlacedWords(ps: seq<Placement>): (ws: set<string>)
    ensures forall w :: w in ws <==> exists k :: 0 <= k < |ps| && ps[k].word == w
  {
    set k | 0 <= k < |ps| :: ps[k].word
  }

  lemma PlacedWordsSnoc(ps: seq<Placement>, p: Placement)
    ensures PlacedWords(ps + [p]) == PlacedWords(ps) + {p.word}
  {
    var qs := ps + [p];
    assert qs[|ps|] == p;
    forall w | w in PlacedWords(ps) ensures w in PlacedWords(qs) {
      var k :| 0 <= k < |ps| && ps[k].word == w;
      assert qs[k] == ps[k];
    }
  }

  /** A layout whose first placement has a letter is not empty. */
  lemma NonEmptyLayout(board: Board, ps: seq<Placement>)
    requires Layout(board, ps) && |ps| > 0 && |ps[0].word| > 0
    ensures |board| > 0
  {
    assert OnBoard(board, ps[0]);
    assert CellOf(ps[0], 0) in board;
  }

  /** The cropped grid shows every normalised placement at its cells. */
  ghost predicate Shows(rows: seq<string>, norm: seq<Placement>)
  {
    forall k, a :: 0 <= k < |norm| && 0 <= a < |norm[k].word| ==>
      var y := CellOf(norm[k], a);
      0 <= y.0 < |rows| && 0 <= y.1 < |rows[y.0]| && rows[y.0][y.1] == norm[k].word[a]
  }

  /** Every cell of the cropped grid outside the placements is '#'. */
  ghost predicate BlocksElsewhere(rows: seq<string>, norm: seq<Placement>)
  {
    forall i, j :: 0 <= i < |rows| && 0 <= j < |rows[i]| && (i, j) !in Footprint(norm) ==> rows[i][j] == '#'
  }

  /** The grid is the bounding box: its first and last row and column each
      hold a placed cell. */
  ghost predicate TightGrid(rows: seq<string>, norm: seq<Placement>)
  {
    && |rows| > 0
    && (exists x :: x in Footprint(norm) && x.0 == 0)
    && (exists x :: x in Footprint(norm) && x.0 == |rows| - 1)
    && (exists x :: x in Footprint(norm) && x.1 == 0)
    && (exists x :: x in Footprint(norm) && x.1 == |rows[0]| - 1)
  }

  /** The crop of a finished board: a rectangle showing every placement,
      '#' elsewhere, exactly as large as the bounding box. */
  ghost predicate CropOf(rows: seq<string>, norm: seq<Placement>)
  {
    && |rows| > 0 && (forall i :: 0 <= i < |rows| ==> |rows[i]| == |rows[0]|)
    && Shows(rows, norm) && BlocksElsewhere(rows, norm) && TightGrid(rows, norm)
  }

  lemma ShiftedFootprint(ps: seq<Placement>, norm: seq<Placement>, r0: int, c0: int, x: Cell)
    requires |norm| == |ps| && forall k :: 0 <= k < |ps| ==> norm[k] == Shift(ps[k], r0, c0)
    ensures x in Footprint(norm) <==> (x.0 + r0, x.1 + c0) in Footprint(ps)
  {
    var y := (x.0 + r0, x.1 + c0);
    if x in Footprint(norm) {
      var k, a :| 0 <= k < |norm| && 0 <= a < |norm[k].word| && CellOf(norm[k], a) == x;
      assert CellOf(ps[k], a) == y;
    }
    if y in Footprint(ps) {
      var k, a :| 0 <= k < |ps| && 0 <= a < |ps[k].word| && CellOf(ps[k], a) == y;
      assert CellOf(norm[k], a) == x;
    }
  }

  /** The conditions under which `rows` and `norm` are the crop of the
      layout of `ps` on `board` to `box`. */
  ghost predicate Cropping(board: Board, ps: seq<Placement>, box: Box, rows: seq<string>, norm: seq<Placement>)
  {
    && Layout(board, ps) && Encloses(board, box) && Tight(board, box)
    && box.r0 <= box.r1 && box.c0 <= box.c1
    && |rows| == Height(box) && (forall i :: 0 <= i < |rows| ==> |rows[i]| == Width(box))
    && (forall i, j :: 0 <= i < Height(box) && 0 <= j < Width(box) ==> rows[i][j] == Cropped(board, box, i, j))
    && |norm| == |ps| && (forall k :: 0 <= k < |ps| ==> norm[k] == Shift(ps[k], box.r0, box.c0))
  }

  lemma CropShows(board: Board, ps: seq<Placement>, box: Box, rows: seq<string>, norm: seq<Placement>)
    requires Cropping(board, ps, box, rows, norm)
    ensures Shows(rows, norm)
  {
    forall k, a | 0 <= k < |norm| && 0 <= a < |norm[k].word|
      ensures var y := CellOf(norm[k], a);
        0 <= y.0 < |rows| && 0 <= y.1 < |rows[y.0]| && rows[y.0][y.1] == norm[k].word[a]
    {
      assert OnBoard(board, ps[k]);
      ShiftedShown(board, box, ps[k]);
    }
  }

  lemma CropBlocks(board: Board, ps: seq<Placement>, box: Box, rows: seq<string>, norm: seq<Placement>)
    requires Cropping(board, ps, box, rows, norm)
    ensures BlocksElsewhere(rows, norm)
  {
    forall i, j | 0 <= i < |rows| && 0 <= j < |rows[i]| && (i, j) !in Footprint(norm)
      ensures rows[i][j] == '#'
    {
      ShiftedFootprint(ps, norm, box.r0, box.c0, (i, j));
    }
  }

  lemma CropTight(board: Board, box: Box, rows: seq<string>, fp: set<Cell>)
    requires Tight(board, box) && box.r0 <= box.r1
    requires |rows| == Height(box) && (forall i :: 0 <= i < |rows| ==> |rows[i]| == Width(box))
    requires forall x :: x in board ==> (x.0 - box.r0, x.1 - box.c0) in fp
    ensures (exists x :: x in fp && x.0 == 0) && (exists x :: x in fp && x.0 == |rows| - 1)
    ensures (exists x :: x in fp && x.1 == 0) && (exists x :: x in fp && x.1 == |rows[0]| - 1)
  {
    var x0 :| x0 in board && x0.0 == box.r0;
    var x1 :| x1 in board && x1.0 == box.r1;
    var x2 :| x2 in board && x2.1 == box.c0;
    var x3 :| x3 in board && x3.1 == box.c1;
    TightFrom(rows, fp, (x0.0 - box.r0, x0.1 - box.c0), (x1.0 - box.r0, x1.1 - box.c0),
      (x2.0 - box.r0, x2.1 - box.c0), (x3.0 - box.r0, x3.1 - box.c0));
  }

  lemma TightFrom(rows: seq<string>, fp: set<Cell>, y0: Cell, y1: Cell, y2: Cell, y3: Cell)
    requires |rows| > 0 && y0 in fp && y1 in fp && y2 in fp && y3 in fp
    requires y0.0 == 0 && y1.0 == |rows| - 1 && y2.1 == 0 && y3.1 == |rows[0]| - 1
    ensures (exists x :: x in fp && x.0 == 0) && (exists x :: x in fp && x.0 == |rows| - 1)
    ensures (exists x :: x in fp && x.1 == 0) && (exists x :: x in fp && x.1 == |rows[0]| - 1)
  {
  }

  /** An occupied cell, shifted, is covered by the shifted placements. */
  lemma ShiftedIn(board: Board, ps: seq<Placement>, norm: seq<Placement>, r0: int, c0: int, x: Cell)
    requires board.Keys == Footprint(ps) && x in board
    requires |norm| == |ps| && forall k :: 0 <= k < |ps| ==> norm[k] == Shift(ps[k], r0, c0)
    ensures (x.0 - r0, x.1 - c0) in Footprint(norm)
  {
    ShiftedFootprint(ps, norm, r0, c0, (x.0 - r0, x.1 - c0));
  }

  lemma ShiftedAllIn(board: Board, ps: seq<Placement>, norm: seq<Placement>, r0: int, c0: int)
    requires board.Keys == Footprint(ps)
    requires |norm| == |ps| && forall k :: 0 <= k < |ps| ==> norm[k] == Shift(ps[k], r0, c0)
    ensures forall x :: x in board ==> (x.0 - r0, x.1 - c0) in Footprint(norm)
  {
    forall x | x in board ensures (x.0 - r0, x.1 - c0) in Footprint(norm) {
      ShiftedIn(board, ps, norm, r0, c0, x);
    }
  }

  /** Cropping a layout to its bounding box and shifting the placements by
      `(r0, c0)` gives the crop of the placements. */
  lemma CropLayout(board: Board, ps: seq<Placement>, box: Box, rows: seq<string>, norm: seq<Placement>)
    requires Cropping(board, ps, box, rows, norm)
    ensures CropOf(rows, norm)
  {
    CropShows(board, ps, box, rows, norm);
    CropBlocks(board, ps, box, rows, norm);
    CroppedTight(board, ps, box, rows, norm);
    CropOfParts(rows, norm);
  }

  lemma CroppedTight(board: Board, ps: seq<Placement>, box: Box, rows: seq<string>, norm: seq<Placement>)
    requires Cropping(board, ps, box, rows, norm)
    ensures |rows| > 0 && (forall i :: 0 <= i < |rows| ==> |rows[i]| == |rows[0]|)
    ensures (exists x :: x in Footprint(norm) && x.0 == 0) && (exists x :: x in Footprint(norm) && x.0 == |rows| - 1)
    ensures (exists x :: x in Footprint(norm) && x.1 == 0) && (exists x :: x in Footprint(norm) && x.1 == |rows[0]| - 1)
  {
    ShiftedAllIn(board, ps, norm, box.r0, box.c0);
    CropTight(board, box, rows, Footprint(norm));
  }

  lemma CropOfParts(rows: seq<string>, norm: seq<Placement>)
    requires |rows| > 0 && (forall i :: 0 <= i < |rows| ==> |rows[i]| == |rows[0]|)
    requires Shows(rows, norm) && BlocksElsewhere(rows, norm)
    requires (exists x :: x in Footprint(norm) && x.0 == 0) && (exists x :: x in Footprint(norm) && x.0 == |rows| - 1)
    requires (exists x :: x in Footprint(norm) && x.1 == 0) && (exists x :: x in Footprint(norm) && x.1 == |rows[0]| - 1)
    ensures CropOf(rows, norm)
  {
  }

  /** Shifting keeps crossings. */
  lemma ShiftedChained(ps: seq<Placement>, norm: seq<Placement>, r0: int, c0: int, from: int)
    requires ChainedFrom(ps, from)
    requires |norm| == |ps| && forall k :: 0 <= k < |ps| ==> norm[k] == Shift(ps[k], r0, c0)
    ensures ChainedFrom(norm, from)
  {
    forall k | from <= k < |norm| && 0 < k ensures CrossesEarlier(norm, k) {
      assert CrossesEarlier(ps, k);
      var j, a, b :| 0 <= j < k && SharesCell(ps[k], ps[j], a, b);
      assert SharesCell(norm[k], norm[j], a, b);
    }
  }
}
