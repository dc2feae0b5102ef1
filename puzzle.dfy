/** The second free-form placer (build_puzzle_final.py): the theme answers,
    longest first, are chained onto a 33 x 33 canvas by backtracking, the
    first one centred; then the fillers are added greedily; the result is
    cropped, and rejected when either side exceeds 23. `main` keeps a result
    only when the theme answers are entries, the entries are placed answers
    and every theme answer crosses another placed word. */
module Puzzle {
  import opened Common
  import opened Canvas
  import opened Candidates
  import opened Crop
  import opened Order
  import opened Numbering
  import opened Layouts
  import opened Grow
  import opened Checks
  import opened Scores

  /** `GRID`. */
  const Size: nat := 33
  /** The largest height and width kept. */
  const Limit: nat := 23

  /** `(rows, norm, added)`. */
  datatype Built = Built(rows: seq<string>, norm: seq<Placement>, added: nat)

  /** `build(seed)` on a `size` canvas with the shuffled filler list given:
      the first theme answer goes across through the centre, the others are
      chained by `bt`, the fillers are added in the given order, and the
      board is cropped; None when `bt` fails or a side exceeds `limit`. The
      result shows every placement and nothing else, fits the limit,
      carries the sorted theme first and then `added` distinct
      fillers, and every word after the first crosses an earlier one. The
      answers are non-empty: `bounding` of an empty board raises. */
  method Build(theme: seq<Clued>, fillers: seq<Clued>, size: nat, limit: nat) returns (out: Option<Built>)
    requires |theme| > 0 && forall k :: 0 <= k < |theme| ==> |theme[k].1| > 0
    ensures out.Some? ==> CropOf(out.value.rows, out.value.norm)
    ensures out.Some? ==> |out.value.rows| <= limit && |out.value.rows[0]| <= limit
    ensures out.Some? ==> var norm := out.value.norm;
      && ChainedFrom(norm, 0) && |norm| == |theme| + out.value.added
      && Labelled(norm[..|theme|], ByLength(theme))
      && FillersFrom(norm, |theme|, fillers, PlacedWords(norm[..|theme|]))
  {
    var sorted := ByLength(theme);
    assert sorted[0] in multiset(theme);
    var clue0, w0 := sorted[0].0, sorted[0].1;
    var mid := size / 2;
    var c0 := mid - |w0| / 2;
    var s := new Sparse();
    var _ := s.Place(w0, mid, c0, Across);
    var first := Placement(clue0, w0, mid, c0, Across);
    FirstPlaced(sorted, first);
    var ok, themed := PlaceThemes(s, size, sorted, 1, [first]);
    if !ok {
      return None;
    }
    var placements, added, _, _ := AddFillers(s, size, fillers, themed);
    assert placements[0] == themed[..1][0] == first;
    NonEmptyLayout(s.board, placements);
    var box := Bounding(s.board);
    var h, w := box.r1 - box.r0 + 1, box.c1 - box.c0 + 1;
    if h > limit || w > limit {
      return None;
    }
    var rows := CropGrid(s.board, box);
    var norm := Normalise(placements, box.r0, box.c0);
    CropLayout(s.board, placements, box, rows, norm);
    ShiftedChained(placements, norm, box.r0, box.c0, 0);
    ShiftedParts(placements, norm, box.r0, box.c0, |theme|, sorted, fillers);
    return Some(Built(rows, norm, added));
  }

  /** After `place` of the first answer on the empty canvas, the canvas
      meets the preconditions of `bt(1)`. */
  lemma FirstPlaced(sorted: seq<Clued>, first: Placement)
    requires |sorted| > 0 && first.clue == sorted[0].0 && first.word == sorted[0].1
    ensures Counted(PlacedBoard(map[], first.word, first.r, first.c, first.d, |first.word|),
                    AddedUsage(map[], first.r, first.c, first.d, |first.word|))
    ensures Layout(PlacedBoard(map[], first.word, first.r, first.c, first.d, |first.word|), [first])
    ensures ChainedFrom([first], 0) && Labelled([first], sorted[..1])
  {
    PlaceKeepsCounted(map[], map[], first.word, first.r, first.c, first.d);
    assert Footprint([]) == {};
    PlacedLayout(map[], [], first);
    assert [] + [first] == [first];
  }

  /** Shifting keeps the theme prefix and the fillers after it. */
  lemma ShiftedParts(ps: seq<Placement>, norm: seq<Placement>, r0: int, c0: int, n: nat,
                     sorted: seq<Clued>, fillers: seq<Clued>)
    requires n <= |ps| && Labelled(ps[..n], sorted) && FillersFrom(ps, n, fillers, PlacedWords(ps[..n]))
    requires |norm| == |ps| && forall k :: 0 <= k < |ps| ==> norm[k] == Shift(ps[k], r0, c0)
    ensures Labelled(norm[..n], sorted) && FillersFrom(norm, n, fillers, PlacedWords(norm[..n]))
  {
    ShiftedLabelled(ps[..n], norm[..n], r0, c0, sorted);
    assert PlacedWords(norm[..n]) == PlacedWords(ps[..n]) by {
      forall w ensures w in PlacedWords(norm[..n]) <==> w in PlacedWords(ps[..n]) {
        if w in PlacedWords(ps[..n]) {
          var k :| 0 <= k < n && ps[..n][k].word == w;
          assert norm[..n][k] == Shift(ps[k], r0, c0);
        }
      }
    }
    forall k | n <= k < |norm| ensures norm[k].clue == ps[k].clue && norm[k].word == ps[k].word {
      assert norm[k] == Shift(ps[k], r0, c0);
    }
  }

  /** Placement p has a letter on cell x. */
  predicate CoveredBy(p: Placement, x: Cell)
  {
    Covers(p.r, p.c, p.d, |p.word|, x)
  }

  /** `cell_map[x]`: the answers of the placements covering x, in
      placement order. */
  function CellWords(ps: seq<Placement>, x: Cell): seq<string>
  {
    if ps == [] then []
    else
      var p := ps[|ps| - 1];
      CellWords(ps[..|ps| - 1], x) + (if CoveredBy(p, x) then [p.word] else [])
  }

  /** An answer is listed at x iff a placement with that answer covers x. */
  lemma {:induction false} CellWordsHas(ps: seq<Placement>, x: Cell, w: string)
    ensures w in CellWords(ps, x) <==>
      exists k :: 0 <= k < |ps| && ps[k].word == w && CoveredBy(ps[k], x)
  {
    if ps != [] {
      var pre := ps[..|ps| - 1];
      CellWordsHas(pre, x, w);
      assert forall k :: 0 <= k < |pre| ==> pre[k] == ps[k];
    }
  }

  /** More than one answer is listed at x iff two placements cover x. */
  lemma {:induction false} CellWordsTwo(ps: seq<Placement>, x: Cell)
    ensures |CellWords(ps, x)| > 1 <==>
      exists k, j :: 0 <= k < j < |ps| && CoveredBy(ps[k], x) && CoveredBy(ps[j], x)
  {
    if ps != [] {
      var pre := ps[..|ps| - 1];
      var p := ps[|ps| - 1];
      CellWordsTwo(pre, x);
      assert forall k :: 0 <= k < |pre| ==> pre[k] == ps[k];
      if |CellWords(ps, x)| > 1 && |CellWords(pre, x)| <= 1 {
        CellWordsHas(pre, x, CellWords(pre, x)[0]);
        var k :| 0 <= k < |pre| && pre[k].word == CellWords(pre, x)[0] && CoveredBy(pre[k], x);
        assert CoveredBy(ps[|pre|], x);
      }
      if exists k, j :: 0 <= k < j < |ps| && CoveredBy(ps[k], x) && CoveredBy(ps[j], x) {
        var k, j :| 0 <= k < j < |ps| && CoveredBy(ps[k], x) && CoveredBy(ps[j], x);
        if j == |pre| {
          CellWordsHas(pre, x, pre[k].word);
        }
      }
    }
  }

  /** Answer w crosses another placement: a placement with answer w and a
      different placement share a cell. */
  ghost predicate CrossesOther(ps: seq<Placement>, w: string)
  {
    exists k, j, a, b :: 0 <= k < |ps| && 0 <= j < |ps| && k != j && ps[k].word == w && SharesCell(ps[k], ps[j], a, b)
  }

  /** Some cell lists w among two or more answers. */
  ghost predicate Shared(ps: seq<Placement>, w: string)
  {
    exists x :: |CellWords(ps, x)| > 1 && w in CellWords(ps, x)
  }

  /** `inter_count[w] > 0` means exactly that w crosses another word. */
  lemma SharedCrosses(ps: seq<Placement>, w: string)
    ensures Shared(ps, w) <==> CrossesOther(ps, w)
  {
    if Shared(ps, w) {
      var x :| |CellWords(ps, x)| > 1 && w in CellWords(ps, x);
      CellWordsHas(ps, x, w);
      CellWordsTwo(ps, x);
      var k :| 0 <= k < |ps| && ps[k].word == w && CoveredBy(ps[k], x);
      var k1, j1 :| 0 <= k1 < j1 < |ps| && CoveredBy(ps[k1], x) && CoveredBy(ps[j1], x);
      var j := if k1 != k then k1 else j1;
      CoversCellAt(ps[k].r, ps[k].c, ps[k].d, x);
      CoversCellAt(ps[j].r, ps[j].c, ps[j].d, x);
      assert SharesCell(ps[k], ps[j], Offset(ps[k].r, ps[k].c, ps[k].d, x), Offset(ps[j].r, ps[j].c, ps[j].d, x));
    }
    if CrossesOther(ps, w) {
      var k, j, a, b :| 0 <= k < |ps| && 0 <= j < |ps| && k != j && ps[k].word == w && SharesCell(ps[k], ps[j], a, b);
      var x := CellOf(ps[k], a);
      CellAtCovers(ps[k].r, ps[k].c, ps[k].d, a);
      CellAtCovers(ps[j].r, ps[j].c, ps[j].d, b);
      CellWordsHas(ps, x, w);
      CellWordsTwo(ps, x);
      if j < k {
        assert CoveredBy(ps[j], x) && CoveredBy(ps[k], x);
      }
    }
  }

  /** `cell_map`: for every letter of every placement, its answer appended
      to the list of its cell. */
  method CellMap(ps: seq<Placement>) returns (cm: map<Cell, seq<string>>)
    ensures forall x :: (x in cm <==> CellWords(ps, x) != []) && (x in cm ==> cm[x] == CellWords(ps, x))
  {
    cm := map[];
    for k := 0 to |ps|
      invariant forall x :: (x in cm <==> CellWords(ps[..k], x) != []) && (x in cm ==> cm[x] == CellWords(ps[..k], x))
    {
      var p := ps[k];
      assert ps[..k + 1][..k] == ps[..k];
      for i := 0 to |p.word|
        invariant forall x :: (x in cm <==> Listed(ps[..k], p, i, x) != []) && (x in cm ==> cm[x] == Listed(ps[..k], p, i, x))
      {
        var y := CellAt(p.r, p.c, p.d, i);
        ListedStep(ps[..k], p, i);
        cm := cm[y := (if y in cm then cm[y] else []) + [p.word]];
      }
    }
    assert ps[..|ps|] == ps;
  }

  /** The lists after the first i letters of p. */
  function Listed(pre: seq<Placement>, p: Placement, i: nat, x: Cell): seq<string>
  {
    CellWords(pre, x) + (if Covers(p.r, p.c, p.d, i, x) then [p.word] else [])
  }

  /** Letter i of p adds p's answer to the list of its own cell only. */
  lemma ListedStep(pre: seq<Placement>, p: Placement, i: nat)
    ensures forall x :: x != CellAt(p.r, p.c, p.d, i) ==> Listed(pre, p, i + 1, x) == Listed(pre, p, i, x)
    ensures Listed(pre, p, i + 1, CellAt(p.r, p.c, p.d, i)) == Listed(pre, p, i, CellAt(p.r, p.c, p.d, i)) + [p.word]
  {
    CellAtCovers(p.r, p.c, p.d, i);
    forall x | x != CellAt(p.r, p.c, p.d, i) ensures Listed(pre, p, i + 1, x) == Listed(pre, p, i, x) {
      if Covers(p.r, p.c, p.d, i + 1, x) {
        CoversCellAt(p.r, p.c, p.d, x);
      }
    }
  }

  /** `inter_count`: for every cell listing two or more answers, one more
      for each distinct answer listed there. The answers with a count are
      exactly those listed at such a cell. */
  method InterCounts(cm: map<Cell, seq<string>>) returns (ic: map<string, nat>)
    ensures forall w :: w in ic <==> exists x :: x in cm && |cm[x]| > 1 && w in cm[x]
    ensures forall w :: w in ic ==> ic[w] >= 1
  {
    ic := map[];
    var pending := cm.Keys;
    ghost var done: set<Cell> := {};
    while pending != {}
      invariant pending + done == cm.Keys
      invariant forall w :: w in ic <==> exists x :: x in done && |cm[x]| > 1 && w in cm[x]
      invariant forall w :: w in ic ==> ic[w] >= 1
      decreases pending
    {
      var x :| x in pending;
      pending := pending - {x};
      var ws := cm[x];
      if |ws| > 1 {
        var todo := SetOf(ws);
        while todo != {}
          invariant todo <= SetOf(ws)
          invariant forall w :: w in ic <==> (exists y :: y in done && |cm[y]| > 1 && w in cm[y]) || (w in ws && w !in todo)
          invariant forall w :: w in ic ==> ic[w] >= 1
          decreases todo
        {
          var w :| w in todo;
          todo := todo - {w};
          ic := ic[w := (if w in ic then ic[w] else 0) + 1];
        }
      }
      done := done + {x};
    }
  }

  /** `any(inter_count[w] == 0 for w in theme_words)` negated: every theme
      answer crosses another placed word. */
  method ThemesCross(ps: seq<Placement>, themeWords: set<string>) returns (ok: bool)
    ensures ok <==> forall w :: w in themeWords ==> CrossesOther(ps, w)
  {
    var cm := CellMap(ps);
    var ic := InterCounts(cm);
    ok := forall w | w in themeWords :: w in ic;
    forall w ensures w in ic <==> CrossesOther(ps, w) {
      SharedCrosses(ps, w);
    }
  }

  /** A cropped grid, as `build` returns. */
  predicate Gridded(b: Built)
  {
    |b.rows| > 0 && Rect(b.rows, |b.rows|, |b.rows[0]|)
  }

  /** What one seed of `main` yields: nothing when the build failed or a
      check rejects it, otherwise the score `(-added, h * w, |h - w|)`. */
  ghost function Judged(out: Option<Built>, themeWords: set<string>): Option<Score>
    requires out.Some? ==> Gridded(out.value)
  {
    match out
    case None => None
    case Some(b) =>
      if && themeWords <= GridWords(b.rows) && GridWords(b.rows) <= PlacedWords(b.norm)
         && (forall w :: w in themeWords ==> CrossesOther(b.norm, w))
      then Some((-(b.added as int), |b.rows| * |b.rows[0]|, Abs(|b.rows| - |b.rows[0]|)))
      else None
  }

  /** One pass of `main`'s loop on a built result: keep it, with the score
      `(-added, h * w, |h - w|)`, only when every theme answer is an entry,
      every entry is a placed answer and every theme answer crosses
      another placed word. */
  method Accept(b: Built, themeWords: set<string>) returns (score: Option<Score>)
    requires Gridded(b)
    ensures score.Some? <==> && themeWords <= GridWords(b.rows) && GridWords(b.rows) <= PlacedWords(b.norm)
                             && forall w :: w in themeWords ==> CrossesOther(b.norm, w)
    ensures score == Judged(Some(b), themeWords)
  {
    var entriesOk, across, down := EntriesCheck(b.rows, b.norm, themeWords);
    if !entriesOk {
      return None;
    }
    var crossOk := ThemesCross(b.norm, themeWords);
    if !crossOk {
      return None;
    }
    var h, w := |b.rows|, |b.rows[0]|;
    return Some((-(b.added as int), h * w, Abs(h - w)));
  }

  /** The verdicts of the seeds, in order. */
  ghost function Verdicts(outs: seq<Option<Built>>, themeWords: set<string>): (v: seq<Option<Score>>)
    requires forall k :: 0 <= k < |outs| && outs[k].Some? ==> Gridded(outs[k].value)
    ensures |v| == |outs| && forall k :: 0 <= k < |outs| ==> v[k] == Judged(outs[k], themeWords)
  {
    if outs == [] then [] else Verdicts(outs[..|outs| - 1], themeWords) + [Judged(outs[|outs| - 1], themeWords)]
  }

  /** `main` over the outcomes of the seeds in order: keep the first result
      whose score is smallest. None exactly when no seed passes; otherwise
      the kept result is the outcome of the seed `FirstLowest` picks, with
      its score. */
  method Choose(outs: seq<Option<Built>>, themeWords: set<string>) returns (best: Option<(Score, Built)>)
    requires forall k :: 0 <= k < |outs| && outs[k].Some? ==> Gridded(outs[k].value)
    ensures best.None? <==> forall k :: 0 <= k < |outs| ==> Judged(outs[k], themeWords).None?
    ensures best.Some? ==> exists i :: (FirstLowest(Verdicts(outs, themeWords), |outs|, i)
      && outs[i] == Some(best.value.1) && Judged(outs[i], themeWords) == Some(best.value.0))
  {
    ghost var scored := Verdicts(outs, themeWords);
    ghost var at := 0;
    best := None;
    for k := 0 to |outs|
      invariant best.None? <==> forall j :: 0 <= j < k ==> scored[j].None?
      invariant best.Some? ==> FirstLowest(scored, k, at) && outs[at] == Some(best.value.1) && scored[at] == Some(best.value.0)
    {
      var score: Option<Score> := None;
      if outs[k].Some? {
        score := Accept(outs[k].value, themeWords);
      }
      assert score == scored[k];
      if score.Some? && (best.None? || Less(score.value, best.value.0)) {
        FirstLowestNew(scored, k, at);
        best, at := Some((score.value, outs[k].value)), k;
      } else if best.Some? {
        FirstLowestKeep(scored, k, at);
      }
    }
  }
}
