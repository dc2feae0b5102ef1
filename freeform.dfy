/** The first free-form placer (build_final_layout.py): every word of the
    list, longest first, is chained onto a sparse canvas by backtracking
    with `add_word`/`remove_word`, each word after the first crossing the
    words already placed; the finished canvas is cropped to its bounding
    box and the placements shifted into the crop. */
module Freeform {
  import opened Common
  import opened Canvas
  import opened Candidates
  import opened Crop
  import opened Order
  import opened Layouts
  import opened Numbering
  import opened Checks

  /** `GRID`: the canvas is 31 x 31. */
  const Size: nat := 31
  /** The largest height and width `main` keeps. */
  const Limit: nat := 21

  /** `[c for c in cands if c[3] > 0]`: the candidates with a crossing, in
      their order. */
  function WithCrossings(cands: seq<Cand>): (out: seq<Cand>)
    ensures forall e :: e in out <==> e in cands && e.inter > 0
    ensures |out| <= |cands|
  {
    if cands == [] then []
    else (if cands[0].inter > 0 then [cands[0]] else []) + WithCrossings(cands[1..])
  }

  /** `bt(i)`: place words[i..] in turn, trying each candidate of the next
      word (only crossing ones after the first word) until the rest can be
      placed too. On failure the canvas is as before; on success the
      placements extend the ones given, carry the whole word list, lie
      exactly on the board and each crosses an earlier one. */
  method PlaceFrom(s: Sparse, words: seq<Clued>, i: nat, placements: seq<Placement>)
    returns (ok: bool, result: seq<Placement>)
    requires s.Valid() && Layout(s.board, placements) && ChainedFrom(placements, 0)
    requires i == |placements| <= |words| && Labelled(placements, words[..i])
    modifies s
    decreases |words| - i, 1
    ensures s.Valid()
    ensures !ok ==> s.board == old(s.board) && s.usage == old(s.usage)
    ensures ok ==> Layout(s.board, result) && ChainedFrom(result, 0) && Labelled(result, words)
    ensures ok ==> result[..i] == placements
  {
    if i == |words| {
      assert words[..i] == words;
      return true, placements;
    }
    var clue, word := words[i].0, words[i].1;
    var all := GenCandidates(s.board, Size, word, true);
    var cands := if i > 0 then WithCrossings(all) else all;
    for j := 0 to |cands|
      invariant s.board == old(s.board) && s.usage == old(s.usage) && s.Valid()
    {
      CandidateCrosses(s.board, Size, word, all, cands[j]);
      ok, result := Extend(s, words, i, placements, Placement(clue, word, cands[j].r, cands[j].c, cands[j].d));
      if ok {
        return;
      }
    }
    return false, [];
  }

  /** One step of `bt(i)`: `add_word`, `placements.append`, `bt(i + 1)`,
      and on failure `placements.pop()` and `remove_word`, which restores
      the canvas because the candidate agrees with it. */
  method Extend(s: Sparse, words: seq<Clued>, i: nat, placements: seq<Placement>, p: Placement)
    returns (ok: bool, result: seq<Placement>)
    requires s.Valid() && Layout(s.board, placements) && ChainedFrom(placements, 0)
    requires i == |placements| < |words| && Labelled(placements, words[..i])
    requires p.clue == words[i].0 && p.word == words[i].1
    requires Agrees(s.board, p.word, p.r, p.c, p.d)
    requires i > 0 ==> Crossings(s.board, p.word, p.r, p.c, p.d, |p.word|) > 0
    modifies s
    decreases |words| - i, 0
    ensures s.Valid()
    ensures !ok ==> s.board == old(s.board) && s.usage == old(s.usage)
    ensures ok ==> Layout(s.board, result) && ChainedFrom(result, 0) && Labelled(result, words)
    ensures ok ==> result[..i] == placements
  {
    ghost var b0, u0 := s.board, s.usage;
    s.AddWord(p);
    AddKeepsCounted(b0, u0, p.word, p.r, p.c, p.d);
    AddedLayout(b0, placements, p);
    if i > 0 {
      CrossingPlacement(b0, placements, p);
    }
    ChainedSnoc(placements, p, 0);
    LabelledSnoc(placements, words, i, p);
    ok, result := PlaceFrom(s, words, i + 1, placements + [p]);
    if ok {
      PrefixSnoc(result, placements, p);
      return;
    }
    AddedUsageCovers(u0, p.r, p.c, p.d, |p.word|);
    s.RemoveWord(p);
    AddRemoveRoundTrip(b0, u0, p.word, p.r, p.c, p.d);
  }

  /** `build()`: sort the words longest first, place them all, crop the
      canvas to its bounding box and shift the placements by the box's
      corner. None when the words cannot all be chained. The answers are
      non-empty: on an empty canvas `min` of the empty row list raises. */
  method Build(words: seq<Clued>) returns (out: Option<(seq<string>, seq<Placement>)>)
    requires |words| > 0 && forall k :: 0 <= k < |words| ==> |words[k].1| > 0
    ensures out.Some? ==> CropOf(out.value.0, out.value.1)
    ensures out.Some? ==> ChainedFrom(out.value.1, 0) && Labelled(out.value.1, ByLength(words))
  {
    var sorted := ByLength(words);
    var s := new Sparse();
    var ok, placements := PlaceFrom(s, sorted, 0, []);
    if !ok {
      return None;
    }
    assert sorted[0] in multiset(words);
    NonEmptyLayout(s.board, placements);
    var box := Bounding(s.board);
    var rows := CropGrid(s.board, box);
    var norm := Normalise(placements, box.r0, box.c0);
    CropLayout(s.board, placements, box, rows, norm);
    ShiftedChained(placements, norm, box.r0, box.c0, 0);
    ShiftedLabelled(placements, norm, box.r0, box.c0, sorted);
    return Some((rows, norm));
  }

  /** One pass of `main`'s loop on a built result: keep it, with the
      compactness score `h * w`, only when it fits 21 x 21, every theme
      answer is an entry and every entry is a placed answer. */
  method Accept(rows: seq<string>, norm: seq<Placement>, themeWords: set<string>) returns (score: Option<int>)
    requires |rows| > 0 && Rect(rows, |rows|, |rows[0]|)
    ensures score.Some? <==> && |rows| <= Limit && |rows[0]| <= Limit
                             && themeWords <= GridWords(rows) && GridWords(rows) <= PlacedWords(norm)
    ensures score.Some? ==> score.value == |rows| * |rows[0]|
  {
    if |rows| > Limit || |rows[0]| > Limit {
      return None;
    }
    var ok, across, down := EntriesCheck(rows, norm, themeWords);
    if !ok {
      return None;
    }
    return Some(|rows| * |rows[0]|);
  }
}
