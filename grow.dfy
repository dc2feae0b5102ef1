/** The theme backtracking and the greedy filler pass shared by the second
    and third free-form placers (build_puzzle_final.py,
    rebuild_custom_puzzle.py): words go onto the canvas with `place`, which
    writes only the empty cells and returns them, and come off again with
    `unplace`. */
module Grow {
  import opened Common
  import opened Canvas
  import opened Candidates
  import opened Order
  import opened Layouts

  /** The placements from index `from` on are fillers from the list, none of
      them an answer in `used`, no answer twice. */
  predicate FillersFrom(ps: seq<Placement>, from: nat, fillers: seq<Clued>, used: set<string>)
  {
    && (forall k :: from <= k < |ps| ==> (ps[k].clue, ps[k].word) in fillers && ps[k].word !in used)
    && (forall k, m :: from <= k < m < |ps| ==> ps[k].word != ps[m].word)
  }

  /** `bt(i)` of the theme words: try each candidate of words[i] in turn
      until the rest can be placed too. On failure the canvas is as before;
      on success the placements extend the ones given, carry the whole
      list, lie exactly on the board and each crosses an earlier one. */
  method PlaceThemes(s: Sparse, size: nat, words: seq<Clued>, i: nat, placements: seq<Placement>)
    returns (ok: bool, result: seq<Placement>)
    requires s.Valid() && Layout(s.board, placements) && ChainedFrom(placements, 0)
    requires |placements| > 0 && |placements[0].word| > 0
    requires i == |placements| <= |words| && Labelled(placements, words[..i])
    modifies s
    decreases |words| - i, 1
    ensures s.Valid()
    ensures !ok ==> s.board == old(s.board) && s.usage == old(s.usage)
    ensures ok ==> Layout(s.board, result) && ChainedFrom(result, 0) && Labelled(result, words)
    ensures ok ==> result[..i] == placements
  {
    if i == |words| {
      assert words[..i] == words;
      return true, placements;
    }
    var clue, word := words[i].0, words[i].1;
    NonEmptyLayout(s.board, placements);
    var cands := GenCandidates(s.board, size, word, false);
    for j := 0 to |cands|
      invariant s.board == old(s.board) && s.usage == old(s.usage) && s.Valid()
    {
      CandidateCrosses(s.board, size, word, cands, cands[j]);
      ok, result := ThemeStep(s, size, words, i, placements, Placement(clue, word, cands[j].r, cands[j].c, cands[j].d));
      if ok {
        return;
      }
    }
    return false, [];
  }

  /** One step of `bt(i)`: `place`, `placements.append`, `bt(i + 1)`, and
      on failure `placements.pop()` and `unplace` with the cells `place`
      filled, which gives back the canvas exactly. */
  method ThemeStep(s: Sparse, size: nat, words: seq<Clued>, i: nat, placements: seq<Placement>, p: Placement)
    returns (ok: bool, result: seq<Placement>)
    requires s.Valid() && Layout(s.board, placements) && ChainedFrom(placements, 0)
    requires |placements| > 0 && |placements[0].word| > 0
    requires i == |placements| < |words| && Labelled(placements, words[..i])
    requires p.clue == words[i].0 && p.word == words[i].1
    requires Agrees(s.board, p.word, p.r, p.c, p.d) && Crossings(s.board, p.word, p.r, p.c, p.d, |p.word|) > 0
    modifies s
    decreases |words| - i, 0
    ensures s.Valid()
    ensures !ok ==> s.board == old(s.board) && s.usage == old(s.usage)
    ensures ok ==> Layout(s.board, result) && ChainedFrom(result, 0) && Labelled(result, words)
    ensures ok ==> result[..i] == placements
  {
    ghost var b0, u0 := s.board, s.usage;
    var changed := s.Place(p.word, p.r, p.c, p.d);
    PlacedTheme(b0, u0, words, i, placements, p);
    ok, result := PlaceThemes(s, size, words, i + 1, placements + [p]);
    if ok {
      PrefixSnoc(result, placements, p);
      return;
    }
    Retract(s, changed, p, b0, u0);
  }

  /** `unplace` right after `place` of the same word, with the cells it
      filled: the canvas is as before the `place`. */
  method Retract(s: Sparse, changed: seq<Cell>, p: Placement, ghost b0: Board, ghost u0: Usage)
    requires Counted(b0, u0)
    requires s.board == PlacedBoard(b0, p.word, p.r, p.c, p.d, |p.word|)
    requires s.usage == AddedUsage(u0, p.r, p.c, p.d, |p.word|)
    requires changed == NewCells(b0, p.word, p.r, p.c, p.d, |p.word|)
    modifies s
    ensures s.board == b0 && s.usage == u0
  {
    PlaceUnplaceRoundTrip(b0, u0, p.word, p.r, p.c, p.d);
    s.Unplace(changed, p.word, p.r, p.c, p.d);
  }

  /** After `place` of a crossing theme word the canvas meets the
      preconditions of `bt(i + 1)`. */
  lemma PlacedTheme(b0: Board, u0: Usage, words: seq<Clued>, i: nat, placements: seq<Placement>, p: Placement)
    requires Counted(b0, u0) && Layout(b0, placements) && ChainedFrom(placements, 0)
    requires i == |placements| < |words| && Labelled(placements, words[..i])
    requires p.clue == words[i].0 && p.word == words[i].1
    requires Agrees(b0, p.word, p.r, p.c, p.d) && Crossings(b0, p.word, p.r, p.c, p.d, |p.word|) > 0
    ensures Counted(PlacedBoard(b0, p.word, p.r, p.c, p.d, |p.word|), AddedUsage(u0, p.r, p.c, p.d, |p.word|))
    ensures Layout(PlacedBoard(b0, p.word, p.r, p.c, p.d, |p.word|), placements + [p])
    ensures ChainedFrom(placements + [p], 0) && Labelled(placements + [p], words[..i + 1])
  {
    PlaceKeepsCounted(b0, u0, p.word, p.r, p.c, p.d);
    PlacedLayout(b0, placements, p);
    CrossingPlacement(b0, placements, p);
    ChainedSnoc(placements, p, 0);
    LabelledSnoc(placements, words, i, p);
  }

  /** No position crosses an empty canvas. */
  lemma EmptyNoScore(board: Board, size: nat, word: string, p: Start)
    requires |board| == 0
    ensures Score(board, size, word, p) == 0
  {
    if Crossings(board, word, p.0, p.1, p.2, |word|) > 0 {
      CrossingWitness(board, word, p.0, p.1, p.2, |word|);
    }
  }

  /** One turn of the filler loop: skip an answer already used; else take
      the first (most crossing) candidate if it crosses the board and
      `place` it. Nothing is placed exactly when the answer is used or no
      position crosses the board; a placed filler is legal and crosses as
      many letters as any position can. */
  method AddFiller(s: Sparse, size: nat, clue: string, word: string, used: set<string>)
    returns (placed: Option<Placement>)
    requires s.Valid()
    modifies s
    ensures s.Valid()
    ensures FillerTurn(old(s.board), s.board, size, (clue, word), used, placed)
    ensures placed.None? ==> s.usage == old(s.usage)
    ensures placed.Some? ==> s.usage == AddedUsage(old(s.usage), placed.value.r, placed.value.c, placed.value.d, |word|)
  {
    if word in used {
      return None;
    }
    var cands := GenCandidates(s.board, size, word, false);
    if |cands| == 0 {
      return None;
    }
    var top := cands[0];
    if top.inter < 1 {
      forall q ensures Score(s.board, size, word, q) == 0 {
        EmptyNoScore(s.board, size, word, q);
      }
      return None;
    }
    CandidateCrosses(s.board, size, word, cands, top);
    forall q ensures Score(s.board, size, word, q) <= top.inter {
      if Score(s.board, size, word, q) > 0 {
        var k :| 0 <= k < |cands| && cands[k] == Cand(q.0, q.1, q.2, Score(s.board, size, word, q));
      }
    }
    ghost var b0, u0 := s.board, s.usage;
    var _ := s.Place(word, top.r, top.c, top.d);
    PlaceKeepsCounted(b0, u0, word, top.r, top.c, top.d);
    return Some(Placement(clue, word, top.r, top.c, top.d));
  }

  /** The placements among the outcomes of the filler pass, in order. */
  function Placed(outcomes: seq<Option<Placement>>): seq<Placement>
  {
    if |outcomes| == 0 then []
    else
      var last := outcomes[|outcomes| - 1];
      Placed(outcomes[..|outcomes| - 1]) + (if last.Some? then [last.value] else [])
  }

  /** One turn of the filler loop, from board `b` to board `b2`, for
      `filler` with the answers `used` so far: an answer already used, or
      one that crosses nothing at any position, is skipped and the board
      kept; otherwise the filler goes to a legal position crossing as many
      letters as any position does, and is written there. */
  ghost predicate FillerTurn(b: Board, b2: Board, size: nat, filler: Clued, used: set<string>,
                             outcome: Option<Placement>)
  {
    match outcome
    case None =>
      b2 == b && (filler.1 in used || forall q :: Score(b, size, filler.1, q) == 0)
    case Some(p) =>
      && p.clue == filler.0 && p.word == filler.1 && filler.1 !in used
      && Legal(b, size, p.word, p.r, p.c, p.d)
      && Crossings(b, p.word, p.r, p.c, p.d, |p.word|) >= 1
      && (forall q :: Score(b, size, p.word, q) <= Crossings(b, p.word, p.r, p.c, p.d, |p.word|))
      && b2 == PlacedBoard(b, p.word, p.r, p.c, p.d, |p.word|)
  }

  /** The filler pass: every filler whose answer is not used yet and that
      can cross the board is placed at its best position and its answer
      marked used; `added` counts them. `boards` are the boards before
      each filler and after the last, `outcomes` what became of each
      filler. The board stays exactly the placements, each new one
      crossing an earlier one. */
  method AddFillers(s: Sparse, size: nat, fillers: seq<Clued>, placements: seq<Placement>)
    returns (result: seq<Placement>, added: nat, ghost boards: seq<Board>, ghost outcomes: seq<Option<Placement>>)
    requires s.Valid() && Layout(s.board, placements) && ChainedFrom(placements, 0)
    modifies s
    ensures s.Valid() && Layout(s.board, result) && ChainedFrom(result, 0)
    ensures |result| == |placements| + added && result[..|placements|] == placements
    ensures FillersFrom(result, |placements|, fillers, PlacedWords(placements))
    ensures |boards| == |fillers| + 1 && boards[0] == old(s.board) && boards[|fillers|] == s.board
    ensures |outcomes| == |fillers| && result == placements + Placed(outcomes)
    ensures forall k :: 0 <= k < |fillers| ==>
      FillerTurn(boards[k], boards[k + 1], size, fillers[k], PlacedWords(placements + Placed(outcomes[..k])), outcomes[k])
  {
    var used := PlacedWords(placements);
    result, added := placements, 0;
    boards, outcomes := [s.board], [];
    for k := 0 to |fillers|
      invariant s.Valid() && Layout(s.board, result) && ChainedFrom(result, 0)
      invariant |result| == |placements| + added && result[..|placements|] == placements
      invariant FillersFrom(result, |placements|, fillers[..k], PlacedWords(placements))
      invariant used == PlacedWords(result)
      invariant |boards| == k + 1 && boards[0] == old(s.board) && boards[k] == s.board
      invariant |outcomes| == k && result == placements + Placed(outcomes)
      invariant Turns(boards, outcomes, size, fillers, placements)
    {
      var clue, word := fillers[k].0, fillers[k].1;
      assert (clue, word) == fillers[k];
      var placed := AddFiller(s, size, clue, word, used);
      FillerTurnKept(boards, outcomes, size, fillers, placements, result, s.board, placed);
      if placed.Some? {
        result := result + [placed.value];
        used := used + {word};
        added := added + 1;
      }
      boards, outcomes := boards + [s.board], outcomes + [placed];
    }
    assert fillers[..|fillers|] == fillers;
  }

  /** A turn of the filler loop keeps what the loop maintains: the
      placements, with the new one if any, lie exactly on the new board,
      each crossing an earlier one, the ones after the given prefix are
      distinct fillers from the list, and the turns extend by one. */
  lemma FillerTurnKept(boards: seq<Board>, outcomes: seq<Option<Placement>>, size: nat, fillers: seq<Clued>,
                       placements: seq<Placement>, result: seq<Placement>, b: Board, o: Option<Placement>)
    requires Turns(boards, outcomes, size, fillers, placements) && |outcomes| < |fillers|
    requires Layout(boards[|outcomes|], result) && ChainedFrom(result, 0)
    requires result == placements + Placed(outcomes)
    requires FillersFrom(result, |placements|, fillers[..|outcomes|], PlacedWords(placements))
    requires FillerTurn(boards[|outcomes|], b, size, fillers[|outcomes|], PlacedWords(result), o)
    ensures o.Some? ==> Layout(b, result + [o.value]) && ChainedFrom(result + [o.value], 0)
    ensures o.Some? ==> result + [o.value] == placements + Placed(outcomes + [o])
    ensures o.Some? ==> FillersFrom(result + [o.value], |placements|, fillers[..|outcomes| + 1], PlacedWords(placements))
    ensures o.Some? ==> PlacedWords(result + [o.value]) == PlacedWords(result) + {o.value.word}
    ensures o.None? ==> b == boards[|outcomes|] && result == placements + Placed(outcomes + [o])
    ensures o.None? ==> FillersFrom(result, |placements|, fillers[..|outcomes| + 1], PlacedWords(placements))
    ensures Turns(boards + [b], outcomes + [o], size, fillers, placements)
  {
    if o.Some? {
      assert result[..|placements|] == placements;
      FillerAdded(boards[|outcomes|], size, result, |placements|, fillers, |outcomes|, PlacedWords(placements), o.value);
      TurnsPlaced(boards, outcomes, size, fillers, placements, result, b, o.value);
    } else {
      FillerSkippedTurn(boards[|outcomes|], b, size, fillers, placements, result, boards, outcomes);
    }
  }

  /** A turn that places `p` extends the turns by one, and `p` joins the
      placements. */
  lemma TurnsPlaced(boards: seq<Board>, outcomes: seq<Option<Placement>>, size: nat, fillers: seq<Clued>,
                    placements: seq<Placement>, result: seq<Placement>, b: Board, p: Placement)
    requires Turns(boards, outcomes, size, fillers, placements) && |outcomes| < |fillers|
    requires result == placements + Placed(outcomes)
    requires FillerTurn(boards[|outcomes|], b, size, fillers[|outcomes|], PlacedWords(result), Some(p))
    ensures Turns(boards + [b], outcomes + [Some(p)], size, fillers, placements)
    ensures result + [p] == placements + Placed(outcomes + [Some(p)])
  {
    TurnsSnoc(boards, outcomes, size, fillers, placements, b, Some(p));
    assert placements + (Placed(outcomes) + [p]) == placements + Placed(outcomes) + [p];
  }

  /** A turn of the filler loop that skips its filler keeps the board, the
      placements and the fillers among them, and extends the turns by one. */
  lemma FillerSkippedTurn(b0: Board, b: Board, size: nat, fillers: seq<Clued>, placements: seq<Placement>,
                          result: seq<Placement>, boards: seq<Board>, outcomes: seq<Option<Placement>>)
    requires Turns(boards, outcomes, size, fillers, placements) && |outcomes| < |fillers|
    requires boards[|outcomes|] == b0 && result == placements + Placed(outcomes)
    requires FillersFrom(result, |placements|, fillers[..|outcomes|], PlacedWords(placements))
    requires FillerTurn(b0, b, size, fillers[|outcomes|], PlacedWords(result), None)
    ensures b == b0 && result == placements + Placed(outcomes + [None])
    ensures FillersFrom(result, |placements|, fillers[..|outcomes| + 1], PlacedWords(placements))
    ensures Turns(boards + [b], outcomes + [None], size, fillers, placements)
  {
    TurnsSnoc(boards, outcomes, size, fillers, placements, b, None);
    FillersWiden(result, |placements|, fillers, |outcomes|, PlacedWords(placements));
    assert Placed(outcomes) + [] == Placed(outcomes);
  }

  /** The first |outcomes| turns of the filler loop over `fillers`, from
      board to board. */
  ghost predicate Turns(boards: seq<Board>, outcomes: seq<Option<Placement>>, size: nat,
                        fillers: seq<Clued>, placements: seq<Placement>)
  {
    && |boards| == |outcomes| + 1 && |outcomes| <= |fillers|
    && forall j :: 0 <= j < |outcomes| ==>
      FillerTurn(boards[j], boards[j + 1], size, fillers[j], PlacedWords(placements + Placed(outcomes[..j])), outcomes[j])
  }

  /** One more turn extends the turns, and its placement, if any, joins
      the placed ones. */
  lemma TurnsSnoc(boards: seq<Board>, outcomes: seq<Option<Placement>>, size: nat,
                  fillers: seq<Clued>, placements: seq<Placement>, b: Board, o: Option<Placement>)
    requires Turns(boards, outcomes, size, fillers, placements) && |outcomes| < |fillers|
    requires FillerTurn(boards[|outcomes|], b, size, fillers[|outcomes|], PlacedWords(placements + Placed(outcomes)), o)
    ensures Turns(boards + [b], outcomes + [o], size, fillers, placements)
    ensures Placed(outcomes + [o]) == Placed(outcomes) + (if o.Some? then [o.value] else [])
  {
    var os := outcomes + [o];
    assert os[..|outcomes|] == outcomes;
    forall j | 0 <= j < |os|
      ensures FillerTurn((boards + [b])[j], (boards + [b])[j + 1], size, fillers[j], PlacedWords(placements + Placed(os[..j])), os[j])
    {
      if j < |outcomes| {
        assert os[..j] == outcomes[..j];
      }
    }
  }

  /** A filler placed at a legal crossing position keeps the placements a
      layout of the board, chained, and the fillers after the prefix
      distinct fillers from the list. */
  lemma FillerAdded(b0: Board, size: nat, ps: seq<Placement>, from: nat, fillers: seq<Clued>, k: nat,
                    used: set<string>, p: Placement)
    requires Layout(b0, ps) && ChainedFrom(ps, 0)
    requires from <= |ps| && k < |fillers| && FillersFrom(ps, from, fillers[..k], used)
    requires (p.clue, p.word) == fillers[k] && p.word !in PlacedWords(ps) && used <= PlacedWords(ps[..from])
    requires Legal(b0, size, p.word, p.r, p.c, p.d) && Crossings(b0, p.word, p.r, p.c, p.d, |p.word|) >= 1
    ensures Layout(PlacedBoard(b0, p.word, p.r, p.c, p.d, |p.word|), ps + [p]) && ChainedFrom(ps + [p], 0)
    ensures (ps + [p])[..from] == ps[..from]
    ensures FillersFrom(ps + [p], from, fillers[..k + 1], used)
    ensures PlacedWords(ps + [p]) == PlacedWords(ps) + {p.word}
  {
    LegalAgrees(b0, size, p.word, p.r, p.c, p.d);
    PlacedLayout(b0, ps, p);
    CrossingPlacement(b0, ps, p);
    ChainedSnoc(ps, p, 0);
    FillerSnoc(ps, from, fillers, k, used, p);
    PlacedWordsSnoc(ps, p);
    PrefixKept(ps, from, p);
  }

  /** Fillers from a prefix of the list are fillers from a longer prefix. */
  lemma FillersWiden(ps: seq<Placement>, from: nat, fillers: seq<Clued>, k: nat, used: set<string>)
    requires k < |fillers| && FillersFrom(ps, from, fillers[..k], used)
    ensures FillersFrom(ps, from, fillers[..k + 1], used)
  {
    assert fillers[..k + 1] == fillers[..k] + [fillers[k]];
  }

  lemma PrefixKept(ps: seq<Placement>, n: nat, p: Placement)
    requires n <= |ps|
    ensures (ps + [p])[..n] == ps[..n]
  {
  }

  lemma FillerSnoc(ps: seq<Placement>, from: nat, fillers: seq<Clued>, k: nat, used: set<string>, p: Placement)
    requires from <= |ps| && k < |fillers| && FillersFrom(ps, from, fillers[..k], used)
    requires (p.clue, p.word) == fillers[k] && p.word !in PlacedWords(ps) && used <= PlacedWords(ps[..from])
    ensures FillersFrom(ps + [p], from, fillers[..k + 1], used)
  {
    assert fillers[..k + 1] == fillers[..k] + [fillers[k]];
    var qs := ps + [p];
    forall j | from <= j < |qs| ensures (qs[j].clue, qs[j].word) in fillers[..k + 1] && qs[j].word !in used {
      if j < |ps| {
        assert qs[j] == ps[j];
      }
    }
    forall j, m | from <= j < m < |qs| ensures qs[j].word != qs[m].word {
      if m == |ps| {
        assert qs[j] == ps[j];
      } else {
        assert qs[j] == ps[j] && qs[m] == ps[m];
      }
    }
  }
}
