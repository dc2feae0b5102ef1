/** The third free-form placer (rebuild_custom_puzzle.py): the same build
    as the second on a 44 x 44 canvas, rejected when a side exceeds 25;
    an attempt passes when the theme answers are entries, the entries are
    placed answers and every entry has a clue, and is scored by how many
    placed fillers show up as entries. */
module Rebuild {
  import opened Common
  import opened Canvas
  import opened Order
  import opened Numbering
  import opened Layouts
  import opened Checks
  import opened Scores
  import Puzzle

  /** `GRID`. */
  const Size: nat := 44
  /** The largest height and width kept. */
  const Limit: nat := 25

  /** `(score, rows, across, down, filler_count)`, with the shifted
      placements the checks were made against. */
  datatype Attempted = Attempted(score: Score, rows: seq<string>, norm: seq<Placement>,
                                 across: seq<Entry>, down: seq<Entry>, fillerCount: nat)

  /** The placements whose answer is an entry of the grid and not a theme
      answer. */
  function FillerIndices(ps: seq<Placement>, enumWords: set<string>, themeWords: set<string>): set<int>
  {
    set k | 0 <= k < |ps| && ps[k].word in enumWords && ps[k].word !in themeWords
  }

  /** `sum(1 for ... if w in enum_words and w not in theme_words)`. */
  method CountFillers(ps: seq<Placement>, enumWords: set<string>, themeWords: set<string>) returns (n: nat)
    ensures n == |FillerIndices(ps, enumWords, themeWords)|
  {
    n := 0;
    for k := 0 to |ps|
      invariant n == |FillerIndices(ps[..k], enumWords, themeWords)|
    {
      FillerIndicesSnoc(ps, k, enumWords, themeWords);
      if ps[k].word in enumWords && ps[k].word !in themeWords {
        n := n + 1;
      }
    }
    assert ps[..|ps|] == ps;
  }

  lemma FillerIndicesSnoc(ps: seq<Placement>, k: nat, enumWords: set<string>, themeWords: set<string>)
    requires k < |ps|
    ensures FillerIndices(ps[..k + 1], enumWords, themeWords)
         == FillerIndices(ps[..k], enumWords, themeWords)
          + (if ps[k].word in enumWords && ps[k].word !in themeWords then {k} else {})
  {
  }

  /** The placements of the theme prefix are never counted: at most the
      placements after it are. */
  lemma FillersAfterTheme(norm: seq<Placement>, theme: seq<Clued>, enumWords: set<string>)
    requires |theme| <= |norm| && Labelled(norm[..|theme|], ByLength(theme))
    ensures FillerIndices(norm, enumWords, Answers(theme)) <= Offsets(|theme|, |norm|)
    ensures |FillerIndices(norm, enumWords, Answers(theme))| <= |norm| - |theme|
  {
    ThemePrefixAnswers(norm, theme);
    OffsetsCard(|theme|, |norm|);
    SubsetCard(FillerIndices(norm, enumWords, Answers(theme)), Offsets(|theme|, |norm|));
  }

  /** The theme prefix carries theme answers only. */
  lemma {:induction false} ThemePrefixAnswers(norm: seq<Placement>, theme: seq<Clued>)
    requires |theme| <= |norm| && Labelled(norm[..|theme|], ByLength(theme))
    ensures forall k :: 0 <= k < |theme| ==> norm[k].word in Answers(theme)
  {
    forall k | 0 <= k < |theme| ensures norm[k].word in Answers(theme) {
      assert norm[..|theme|][k].word == ByLength(theme)[k].1;
      SortedAnswer(theme, k);
    }
  }

  lemma SortedAnswer(theme: seq<Clued>, k: int)
    requires 0 <= k < |theme|
    ensures ByLength(theme)[k].1 in Answers(theme)
  {
    var sorted := ByLength(theme);
    assert sorted[k] in multiset(theme);
    assert sorted[k] in theme;
  }

  lemma SubsetCard(a: set<int>, b: set<int>)
    requires a <= b
    ensures |a| <= |b|
  {
    assert b == a + (b - a);
  }

  /** The indices from lo up to hi. */
  function Offsets(lo: int, hi: int): (s: set<int>)
    ensures forall k :: k in s <==> lo <= k < hi
    decreases hi - lo
  {
    if hi <= lo then {} else Offsets(lo, hi - 1) + {hi - 1}
  }

  lemma {:induction false} OffsetsCard(lo: int, hi: int)
    requires lo <= hi
    ensures |Offsets(lo, hi)| == hi - lo
    decreases hi - lo
  {
    if lo < hi {
      OffsetsCard(lo, hi - 1);
      assert hi - 1 !in Offsets(lo, hi - 1);
    }
  }

  /** `attempt(seed)` with the shuffled filler list given. A result is the
      cropped grid of a build that fits 25 x 25, with its entries; every
      theme answer is an entry, every entry a placed answer with a clue,
      `filler_count` counts the placed fillers that are entries (at most
      the fillers placed), and the score is
      `(filler_count, h * w, |h - w|)`. */
  method Attempt(theme: seq<Clued>, fillers: seq<Clued>) returns (out: Option<Attempted>)
    requires |theme| > 0 && forall k :: 0 <= k < |theme| ==> |theme[k].1| > 0
    ensures out.Some? ==> var a := out.value;
      && CropOf(a.rows, a.norm) && |a.rows| <= Limit && |a.rows[0]| <= Limit
      && ChainedFrom(a.norm, 0) && |theme| <= |a.norm| && Labelled(a.norm[..|theme|], ByLength(theme))
      && Rect(a.rows, |a.rows|, |a.rows[0]|)
      && a.across == EntriesOf(a.rows, |a.rows|, |a.rows[0]|, Across, RowMajor(|a.rows|, |a.rows[0]|))
      && a.down == EntriesOf(a.rows, |a.rows|, |a.rows[0]|, Down, RowMajor(|a.rows|, |a.rows[0]|))
      && Answers(theme) <= GridWords(a.rows) && GridWords(a.rows) <= PlacedWords(a.norm)
      && GridWords(a.rows) <= Answers(theme + fillers)
      && a.fillerCount == |FillerIndices(a.norm, GridWords(a.rows), Answers(theme))|
      && a.fillerCount <= |a.norm| - |theme|
      && a.score.0 == a.fillerCount
    ensures out.Some? ==> out.value.score.1 == |out.value.rows| * |out.value.rows[0]|
    ensures out.Some? ==> out.value.score.2 == Abs(|out.value.rows| - |out.value.rows[0]|)
  {
    var built := Puzzle.Build(theme, fillers, Size, Limit);
    if built.None? {
      return None;
    }
    var rows, norm := built.value.rows, built.value.norm;
    assert Rect(rows, |rows|, |rows[0]|);
    var themeWords := Answers(theme);
    var ok, across, down := EntriesCheck(rows, norm, themeWords);
    if !ok {
      return None;
    }
    EntryWordsAppend(across, down);
    if !(EntryWords(across + down) <= Answers(theme + fillers)) {
      return None;
    }
    var n := CountFillers(norm, EntryWords(across + down), themeWords);
    FillersAfterTheme(norm, theme, GridWords(rows));
    var h, w := |rows|, |rows[0]|;
    var score: Score := (n as int, h * w, Abs(h - w) as int);
    return Some(Attempted(score, rows, norm, across, down, n));
  }

  /** The scores of the seeds, in order. */
  function Scored(outs: seq<Option<Attempted>>): (v: seq<Option<Score>>)
    ensures |v| == |outs| && forall k :: 0 <= k < |outs| ==> v[k] == if outs[k].Some? then Some(outs[k].value.score) else None
  {
    if outs == [] then [] else Scored(outs[..|outs| - 1]) + [if outs[|outs| - 1].Some? then Some(outs[|outs| - 1].value.score) else None]
  }

  /** `main` over the outcomes of the seeds in order: keep the first
      result scoring least, and stop early once the one kept places at most
      four fillers. None exactly when no seed passes; otherwise the kept
      result is the first lowest among the seeds up to where it stopped,
      and it stopped early only on a result with at most four fillers,
      every earlier choice along the way placing more than four. */
  method Choose(outs: seq<Option<Attempted>>) returns (best: Option<Attempted>)
    ensures best.None? <==> forall k :: 0 <= k < |outs| ==> outs[k].None?
    ensures best.Some? ==> exists n, i :: (FirstLowest(Scored(outs), n, i) && outs[i] == best
      && (n == |outs| || best.value.fillerCount <= 4)
      && forall m :: 0 <= m < n - 1 && NewBest(Scored(outs), m) ==> outs[m].value.fillerCount > 4)
  {
    ghost var scored := Scored(outs);
    ghost var at := 0;
    best := None;
    var k := 0;
    while k < |outs|
      invariant k <= |outs|
      invariant best.None? <==> forall j :: 0 <= j < k ==> outs[j].None?
      invariant best.Some? ==> FirstLowest(scored, k, at) && outs[at] == best
      invariant forall m :: 0 <= m < k && NewBest(scored, m) ==> outs[m].value.fillerCount > 4
    {
      var out := outs[k];
      if out.Some? && (best.None? || Less(out.value.score, best.value.score)) {
        FirstLowestNew(scored, k, at);
        best, at := out, k;
        if out.value.fillerCount <= 4 {
          return;
        }
      } else if best.Some? {
        FirstLowestKeep(scored, k, at);
      }
      k := k + 1;
    }
  }
}
