/** Candidate start positions for the next word on the sparse canvas:
    `candidate_positions` (build_final_layout.py) and `gen_candidates`
    (build_puzzle_final.py, rebuild_custom_puzzle.py). */
module Candidates {
  import opened Common
  import opened Canvas

  /** A start position (row, column, direction). */
  type Start = (int, int, Dir)

  /** A candidate `(r, c, d, inter)`. */
  datatype Cand = Cand(r: int, c: int, d: Dir, inter: nat)

  function PosOf(k: Cand): Start
  {
    (k.r, k.c, k.d)
  }

  /** What `can_place` answers at a start position. */
  function Score(board: Board, size: int, word: string, p: Start): (k: nat)
    ensures k > 0 ==> Legal(board, size, word, p.0, p.1, p.2)
  {
    if Legal(board, size, word, p.0, p.1, p.2) then Crossings(board, word, p.0, p.1, p.2, |word|) else 0
  }

  /** The start column of the first word on an empty canvas: centred on the
      middle column, clamped to column 1 or more in the first placer. */
  function FirstColumn(size: nat, len: nat, clamp: bool): (col: int)
    ensures clamp ==> col >= 1
    ensures col == size / 2 - len / 2 || (clamp && col == 1 && size / 2 - len / 2 < 1)
  {
    var col := size / 2 - len / 2;
    if clamp && col < 1 then 1 else col
  }

  /** The start position whose letter i lies on cell x. */
  function StartThrough(x: Cell, i: int, d: Dir): Start
  {
    if d == Across then (x.0, x.1 - i, Across) else (x.0 - i, x.1, Down)
  }

  predicate SortedDesc(s: seq<Cand>)
  {
    forall i, j :: 0 <= i < j < |s| ==> s[i].inter >= s[j].inter
  }

  /** Every candidate is a legal position with at least one crossing, and
      carries its crossing count. */
  ghost predicate Sound(board: Board, size: int, word: string, out: seq<Cand>)
  {
    forall k :: 0 <= k < |out| ==> out[k].inter > 0 && out[k].inter == Score(board, size, word, PosOf(out[k]))
  }

  /** No start position appears twice. */
  predicate Distinct(out: seq<Cand>)
  {
    forall i, j :: 0 <= i < j < |out| ==> PosOf(out[i]) != PosOf(out[j])
  }

  /** Every crossing position already tried is among the candidates, and
      every candidate has been tried. */
  ghost predicate Recorded(board: Board, size: int, word: string, seen: set<Start>, out: seq<Cand>)
  {
    && (forall k :: 0 <= k < |out| ==> PosOf(out[k]) in seen)
    && (forall p :: p in seen && Score(board, size, word, p) > 0 ==>
          Cand(p.0, p.1, p.2, Score(board, size, word, p)) in out)
  }

  /** Both positions through cell x at letter i have been tried. */
  ghost predicate Tried(seen: set<Start>, x: Cell, i: int)
  {
    StartThrough(x, i, Across) in seen && StartThrough(x, i, Down) in seen
  }

  /** Stable insertion of one candidate into a list sorted by descending
      crossing count (`out.sort(key=lambda x: -x[3])`). */
  function Insert(t: seq<Cand>, e: Cand): (s: seq<Cand>)
    requires SortedDesc(t)
    ensures SortedDesc(s)
    ensures multiset(s) == multiset(t) + multiset{e}
    ensures |s| == |t| + 1
  {
    if t == [] || t[|t| - 1].inter >= e.inter then t + [e]
    else
      var last := t[|t| - 1];
      var s0 := Insert(t[..|t| - 1], e);
      assert t == t[..|t| - 1] + [last];
      assert forall k :: 0 <= k < |s0| ==> s0[k].inter >= last.inter by {
        forall k | 0 <= k < |s0| ensures s0[k].inter >= last.inter {
          assert s0[k] in multiset(s0);
          if s0[k] != e {
            assert s0[k] in multiset(t[..|t| - 1]);
          }
        }
      }
      s0 + [last]
  }

  /** Sorting by descending crossing count. */
  function SortDesc(t: seq<Cand>): (s: seq<Cand>)
    ensures SortedDesc(s)
    ensures multiset(s) == multiset(t)
    ensures |s| == |t|
  {
    if t == [] then []
    else
      assert t == t[..|t| - 1] + [t[|t| - 1]];
      Insert(SortDesc(t[..|t| - 1]), t[|t| - 1])
  }

  /** Permuting keeps the elements and their distinctness. */
  lemma PermutedNoDup(s: seq<Cand>, t: seq<Cand>)
    requires multiset(s) == multiset(t) && NoDup(t)
    ensures SetOf(s) == SetOf(t) && NoDup(s)
  {
    assert forall x :: x in s <==> x in multiset(s);
    assert forall x :: x in t <==> x in multiset(t);
    assert SetOf(s) == SetOf(t);
    NoDupCard(t);
    assert |s| == |multiset(s)| == |multiset(t)| == |t|;
    CardNoDup(s);
  }

  /** A permutation of sound candidates is sound. */
  lemma PermutedSound(board: Board, size: int, word: string, s: seq<Cand>, t: seq<Cand>)
    requires multiset(s) == multiset(t) && Sound(board, size, word, t)
    ensures Sound(board, size, word, s)
  {
    forall k | 0 <= k < |s|
      ensures s[k].inter > 0 && s[k].inter == Score(board, size, word, PosOf(s[k]))
    {
      assert s[k] in multiset(t);
      var m :| 0 <= m < |t| && t[m] == s[k];
    }
  }

  /** Sound candidates with distinct elements have distinct positions:
      equal positions would carry equal counts. */
  lemma SoundDistinct(board: Board, size: int, word: string, s: seq<Cand>)
    requires Sound(board, size, word, s) && NoDup(s)
    ensures Distinct(s)
  {
  }

  /** Trying one start position unless it was seen before. */
  method TryStart(board: Board, size: int, word: string, p: Start, seen: set<Start>, out: seq<Cand>)
    returns (seen': set<Start>, out': seq<Cand>)
    requires Sound(board, size, word, out) && Distinct(out) && Recorded(board, size, word, seen, out)
    ensures Sound(board, size, word, out') && Distinct(out') && Recorded(board, size, word, seen', out')
    ensures seen' == seen + {p}
  {
    seen', out' := seen, out;
    if p !in seen {
      seen' := seen + {p};
      var inter := CanPlace(board, size, word, p.0, p.1, p.2);
      if inter > 0 {
        out' := out + [Cand(p.0, p.1, p.2, inter)];
        assert PosOf(out'[|out|]) == p;
      }
    }
  }

  /** Trying the two positions through cell x at letter i of the word
      (the inner body of both candidate generators). */
  method TryCell(board: Board, size: int, word: string, x: Cell, i: int, seen: set<Start>, out: seq<Cand>)
    returns (seen': set<Start>, out': seq<Cand>)
    requires Sound(board, size, word, out) && Distinct(out) && Recorded(board, size, word, seen, out)
    ensures Sound(board, size, word, out') && Distinct(out') && Recorded(board, size, word, seen', out')
    ensures seen' == seen + {StartThrough(x, i, Across), StartThrough(x, i, Down)}
  {
    seen', out' := TryStart(board, size, word, StartThrough(x, i, Across), seen, out);
    seen', out' := TryStart(board, size, word, StartThrough(x, i, Down), seen', out');
  }

  /** A crossing position is reached through its crossing cell. */
  lemma ReachedByCrossing(board: Board, size: int, word: string, p: Start)
    requires Score(board, size, word, p) > 0
    ensures exists i :: (0 <= i < |word| && CellAt(p.0, p.1, p.2, i) in board
      && board[CellAt(p.0, p.1, p.2, i)] == word[i]
      && StartThrough(CellAt(p.0, p.1, p.2, i), i, p.2) == p)
  {
    CrossingWitness(board, word, p.0, p.1, p.2, |word|);
    var i :| 0 <= i < |word| && CrossAt(board, word, p.0, p.1, p.2, i);
    assert StartThrough(CellAt(p.0, p.1, p.2, i), i, p.2) == p;
  }

  /** `gen_candidates(board, word)` and `candidate_positions(board, word)`.
      On an empty canvas: the single centred across start with count 0
      (`clamp` selects the first placer's `max(1, ...)`). Otherwise: every
      legal position with at least one crossing, once, with its crossing
      count, sorted by descending count. The order of the board's cells and
      the random tie-break are left open. */
  method GenCandidates(board: Board, size: nat, word: string, clamp: bool) returns (cands: seq<Cand>)
    ensures |board| == 0 ==> cands == [Cand(size / 2, FirstColumn(size, |word|, clamp), Across, 0)]
    ensures |board| > 0 ==> Sound(board, size, word, cands)
    ensures |board| > 0 ==> forall p :: Score(board, size, word, p) > 0 ==>
      Cand(p.0, p.1, p.2, Score(board, size, word, p)) in cands
    ensures Distinct(cands) && SortedDesc(cands)
  {
    if |board| == 0 {
      var mid := size / 2;
      var col := mid - |word| / 2;
      if clamp && col < 1 {
        col := 1;
      }
      return [Cand(mid, col, Across, 0)];
    }
    var seen: set<Start> := {};
    var out: seq<Cand> := [];
    for i := 0 to |word|
      invariant Sound(board, size, word, out) && Distinct(out) && Recorded(board, size, word, seen, out)
      invariant forall j, x :: 0 <= j < i && x in board && board[x] == word[j] ==> Tried(seen, x, j)
    {
      var pending := set x | x in board && board[x] == word[i];
      while pending != {}
        invariant Sound(board, size, word, out) && Distinct(out) && Recorded(board, size, word, seen, out)
        invariant forall j, x :: 0 <= j < i && x in board && board[x] == word[j] ==> Tried(seen, x, j)
        invariant forall x :: x in board && board[x] == word[i] && x !in pending ==> Tried(seen, x, i)
        decreases pending
      {
        var x :| x in pending;
        pending := pending - {x};
        seen, out := TryCell(board, size, word, x, i, seen, out);
      }
    }
    forall p | Score(board, size, word, p) > 0
      ensures Cand(p.0, p.1, p.2, Score(board, size, word, p)) in out
    {
      ReachedByCrossing(board, size, word, p);
      var i :| 0 <= i < |word| && CellAt(p.0, p.1, p.2, i) in board
        && board[CellAt(p.0, p.1, p.2, i)] == word[i]
        && StartThrough(CellAt(p.0, p.1, p.2, i), i, p.2) == p;
      assert Tried(seen, CellAt(p.0, p.1, p.2, i), i);
    }
    assert NoDup(out) by {
      forall i, j | 0 <= i < j < |out| ensures out[i] != out[j] {
        assert PosOf(out[i]) != PosOf(out[j]);
      }
    }
    cands := SortDesc(out);
    PermutedNoDup(cands, out);
    PermutedSound(board, size, word, cands, out);
    SoundDistinct(board, size, word, cands);
    forall p | Score(board, size, word, p) > 0
      ensures Cand(p.0, p.1, p.2, Score(board, size, word, p)) in cands
    {
      assert Cand(p.0, p.1, p.2, Score(board, size, word, p)) in SetOf(out);
    }
  }
}
