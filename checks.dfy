/** The integrity checks the free-form placers run on a cropped result:
    every theme answer must be an entry of the numbered grid, and every
    entry must be a placed answer (no accidental entry formed by letters
    that happen to line up). */
module Checks {
  import opened Common
  import opened Canvas
  import opened Numbering
  import opened Layouts

  /** `{w for _, w, _, _ in entries}`. */
  function EntryWords(es: seq<Entry>): (ws: set<string>)
    ensures forall w :: w in ws <==> exists k :: 0 <= k < |es| && es[k].word == w
  {
    set k | 0 <= k < |es| :: es[k].word
  }

  lemma EntryWordsAppend(a: seq<Entry>, b: seq<Entry>)
    ensures EntryWords(a + b) == EntryWords(a) + EntryWords(b)
  {
    forall w | w in EntryWords(a + b) ensures w in EntryWords(a) + EntryWords(b) {
      var k :| 0 <= k < |a + b| && (a + b)[k].word == w;
      if k >= |a| {
        assert (a + b)[k] == b[k - |a|];
      }
    }
    forall w | w in EntryWords(a) + EntryWords(b) ensures w in EntryWords(a + b) {
      if w in EntryWords(a) {
        var k :| 0 <= k < |a| && a[k].word == w;
        assert (a + b)[k] == a[k];
      } else {
        var k :| 0 <= k < |b| && b[k].word == w;
        assert (a + b)[|a| + k] == b[k];
      }
    }
  }

  /** The answers spelled by the across and down entries of the grid. */
  function GridWords(g: Rows): set<string>
    requires |g| > 0 && Rect(g, |g|, |g[0]|)
  {
    EntryWords(EntriesOf(g, |g|, |g[0]|, Across, RowMajor(|g|, |g[0]|)))
    + EntryWords(EntriesOf(g, |g|, |g[0]|, Down, RowMajor(|g|, |g[0]|)))
  }

  /** Some start cell, across or down, begins a maximal run of white
      cells spelling w. */
  ghost predicate Spelled(g: Rows, w: string)
    requires |g| > 0 && Rect(g, |g|, |g[0]|)
  {
    exists d: Dir, x: Cell :: (0 <= x.0 < |g| && 0 <= x.1 < |g[0]|
      && StartsDir(g, |g|, |g[0]|, d, x) && WordAt(g, |g|, |g[0]|, d, x) == w)
  }

  /** The entries of a grid spell exactly the answers its runs spell. */
  lemma GridWordsAt(g: Rows, w: string)
    requires |g| > 0 && Rect(g, |g|, |g[0]|)
    ensures w in GridWords(g) <==> Spelled(g, w)
  {
    if w in GridWords(g) {
      var d := if w in EntryWords(EntriesOf(g, |g|, |g[0]|, Across, RowMajor(|g|, |g[0]|))) then Across else Down;
      EntryWordSpelled(g, d, w);
    }
    if Spelled(g, w) {
      var d: Dir, x: Cell :| 0 <= x.0 < |g| && 0 <= x.1 < |g[0]| && StartsDir(g, |g|, |g[0]|, d, x) && WordAt(g, |g|, |g[0]|, d, x) == w;
      SpelledEntryWord(g, d, x);
    }
  }

  lemma EntryWordSpelled(g: Rows, d: Dir, w: string)
    requires |g| > 0 && Rect(g, |g|, |g[0]|)
    requires w in EntryWords(EntriesOf(g, |g|, |g[0]|, d, RowMajor(|g|, |g[0]|)))
    ensures Spelled(g, w)
  {
    var es := EntriesOf(g, |g|, |g[0]|, d, RowMajor(|g|, |g[0]|));
    var k :| 0 <= k < |es| && es[k].word == w;
    ScannedEntry(g, |g|, |g[0]|, d, es[k]);
    assert StartsDir(g, |g|, |g[0]|, d, (es[k].row, es[k].col));
  }

  lemma SpelledEntryWord(g: Rows, d: Dir, x: Cell)
    requires |g| > 0 && Rect(g, |g|, |g[0]|)
    requires 0 <= x.0 < |g| && 0 <= x.1 < |g[0]| && StartsDir(g, |g|, |g[0]|, d, x)
    ensures WordAt(g, |g|, |g[0]|, d, x) in GridWords(g)
  {
    var h, wd := |g|, |g[0]|;
    var e := Entry(NumberOf(g, h, wd, x), WordAt(g, h, wd, d, x), x.0, x.1);
    EntryScanned(g, h, wd, d, e);
    var es := EntriesOf(g, h, wd, d, RowMajor(h, wd));
    var k :| 0 <= k < |es| && es[k] == e;
  }

  /** Number the grid and test `theme_words.issubset(enum_words)` and
      `enum_words.issubset(placed_words)`. */
  method EntriesCheck(rows: Rows, norm: seq<Placement>, theme: set<string>)
    returns (ok: bool, across: seq<Entry>, down: seq<Entry>)
    requires |rows| > 0 && Rect(rows, |rows|, |rows[0]|)
    ensures across == EntriesOf(rows, |rows|, |rows[0]|, Across, RowMajor(|rows|, |rows[0]|))
    ensures down == EntriesOf(rows, |rows|, |rows[0]|, Down, RowMajor(|rows|, |rows[0]|))
    ensures ok <==> theme <= GridWords(rows) && GridWords(rows) <= PlacedWords(norm)
  {
    across, down := EnumerateEntries(rows);
    EntryWordsAppend(across, down);
    var words := EntryWords(across + down);
    ok := theme <= words && words <= PlacedWords(norm);
  }
}
