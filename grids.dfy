/** The finished grid of the fixed-size builders (`make_grid` and
    `build_solution`, which are the same code) and the quality score of its
    entries (`score_entries`). */
module Grids {
  import opened Common
  import opened Slots
  import opened Pattern
  import opened FillSpec
  import N = Numbering

  /** Every slot has a word, at least as long as the slot, and lies inside
      the n x n grid: what the grid writer needs of its inputs. */
  predicate Writable(n: nat, slots: seq<Slot>, assign: map<nat, string>)
  {
    forall k :: 0 <= k < |slots| ==>
      && slots[k].sid in assign
      && |slots[k].cells| <= |assign[slots[k].sid]|
      && forall i :: 0 <= i < |slots[k].cells| ==> 0 <= slots[k].cells[i].0 < n && 0 <= slots[k].cells[i].1 < n
  }

  /** The last position of x in cells, if any. */
  function LastIndex(cells: seq<Cell>, x: Cell): (r: Option<nat>)
    ensures r.Some? ==> r.value < |cells| && cells[r.value] == x && forall j :: r.value < j < |cells| ==> cells[j] != x
    ensures r.None? <==> x !in cells
  {
    if cells == [] then None
    else if cells[|cells| - 1] == x then Some(|cells| - 1)
    else LastIndex(cells[..|cells| - 1], x)
  }

  /** The character at x before any slot is written: a block or '?'. */
  function Base(blocks: Grid, x: Cell): char
    requires Square(blocks) && 0 <= x.0 < |blocks| && 0 <= x.1 < |blocks|
  {
    if blocks[x.0][x.1] then '#' else '?'
  }

  /** The character at x once slots[..k] are written in order: the letter
      of the last slot write that covers x, else the base character. */
  function Shown(blocks: Grid, slots: seq<Slot>, assign: map<nat, string>, k: nat, x: Cell): char
    requires Square(blocks) && Writable(|blocks|, slots, assign) && k <= |slots|
    requires 0 <= x.0 < |blocks| && 0 <= x.1 < |blocks|
  {
    if k == 0 then Base(blocks, x)
    else
      match LastIndex(slots[k - 1].cells, x)
      case Some(i) => assign[slots[k - 1].sid][i]
      case None => Shown(blocks, slots, assign, k - 1, x)
  }

  /** The character at x while slot k is being written, after its first
      i cells. */
  function Partial(blocks: Grid, slots: seq<Slot>, assign: map<nat, string>, k: nat, i: nat, x: Cell): char
    requires Square(blocks) && Writable(|blocks|, slots, assign) && k < |slots| && i <= |slots[k].cells|
    requires 0 <= x.0 < |blocks| && 0 <= x.1 < |blocks|
  {
    match LastIndex(slots[k].cells[..i], x)
    case Some(j) => assign[slots[k].sid][j]
    case None => Shown(blocks, slots, assign, k, x)
  }

  /** `make_grid(blocks, slots, assign)` (and `build_solution`): '#' on
      blocks and '?' elsewhere, then each slot's word written over its
      cells in slot order, the rows joined into strings. */
  method MakeGrid(blocks: Grid, slots: seq<Slot>, assign: map<nat, string>) returns (rows: seq<string>)
    requires Square(blocks) && Writable(|blocks|, slots, assign)
    ensures |rows| == |blocks| && forall r :: 0 <= r < |rows| ==> |rows[r]| == |blocks|
    ensures forall r, c :: 0 <= r < |blocks| && 0 <= c < |blocks| ==> rows[r][c] == Shown(blocks, slots, assign, |slots|, (r, c))
  {
    var n := |blocks|;
    var g := new char[n, n]((r, c) requires 0 <= r < n && 0 <= c < n => if blocks[r][c] then '#' else '?');
    for k := 0 to |slots|
      invariant forall r, c :: 0 <= r < n && 0 <= c < n ==> g[r, c] == Shown(blocks, slots, assign, k, (r, c))
    {
      WriteSlot(g, blocks, slots, assign, k);
    }
    rows := seq(n, r requires 0 <= r < n reads g => seq(n, c requires 0 <= c < n reads g => g[r, c]));
  }

  /** `for i, (r, c) in enumerate(s.cells): g[r][c] = w[i]` for slot k. */
  method WriteSlot(g: array2<char>, blocks: Grid, slots: seq<Slot>, assign: map<nat, string>, k: nat)
    requires Square(blocks) && Writable(|blocks|, slots, assign) && k < |slots|
    requires g.Length0 == |blocks| && g.Length1 == |blocks|
    requires forall r, c :: 0 <= r < |blocks| && 0 <= c < |blocks| ==> g[r, c] == Shown(blocks, slots, assign, k, (r, c))
    modifies g
    ensures forall r, c :: 0 <= r < |blocks| && 0 <= c < |blocks| ==> g[r, c] == Shown(blocks, slots, assign, k + 1, (r, c))
  {
    var n := |blocks|;
    var w := assign[slots[k].sid];
    var cells := slots[k].cells;
    for i := 0 to |cells|
      invariant forall r, c :: 0 <= r < n && 0 <= c < n ==> g[r, c] == Partial(blocks, slots, assign, k, i, (r, c))
    {
      PartialStep(blocks, slots, assign, k, i);
      g[cells[i].0, cells[i].1] := w[i];
    }
    PartialDone(blocks, slots, assign, k);
  }

  lemma PartialStep(blocks: Grid, slots: seq<Slot>, assign: map<nat, string>, k: nat, i: nat)
    requires Square(blocks) && Writable(|blocks|, slots, assign) && k < |slots| && i < |slots[k].cells|
    ensures forall x: Cell :: 0 <= x.0 < |blocks| && 0 <= x.1 < |blocks| ==>
      Partial(blocks, slots, assign, k, i + 1, x) ==
        if x == slots[k].cells[i] then assign[slots[k].sid][i] else Partial(blocks, slots, assign, k, i, x)
  {
    var cells := slots[k].cells;
    assert cells[..i + 1][..i] == cells[..i];
  }

  lemma PartialDone(blocks: Grid, slots: seq<Slot>, assign: map<nat, string>, k: nat)
    requires Square(blocks) && Writable(|blocks|, slots, assign) && k < |slots|
    ensures forall x: Cell :: 0 <= x.0 < |blocks| && 0 <= x.1 < |blocks| ==>
      Partial(blocks, slots, assign, k, |slots[k].cells|, x) == Shown(blocks, slots, assign, k + 1, x)
  {
    assert slots[k].cells[..|slots[k].cells|] == slots[k].cells;
  }

  /** Slots that share a cell put the same letter there. */
  predicate Consistent(slots: seq<Slot>, assign: map<nat, string>)
    requires forall k :: 0 <= k < |slots| ==> slots[k].sid in assign && |slots[k].cells| <= |assign[slots[k].sid]|
  {
    forall k1, k2, i, j ::
      0 <= k1 < |slots| && 0 <= k2 < |slots| && 0 <= i < |slots[k1].cells| && 0 <= j < |slots[k2].cells|
      && slots[k1].cells[i] == slots[k2].cells[j] ==>
      assign[slots[k1].sid][i] == assign[slots[k2].sid][j]
  }

  /** Under a consistent fill every slot cell of the finished grid shows
      the slot's letter there. */
  lemma {:induction false} ShownCovered(blocks: Grid, slots: seq<Slot>, assign: map<nat, string>, k: nat, k0: nat, i: nat)
    requires Square(blocks) && Writable(|blocks|, slots, assign) && Consistent(slots, assign)
    requires k0 < k <= |slots| && i < |slots[k0].cells|
    ensures Shown(blocks, slots, assign, k, slots[k0].cells[i]) == assign[slots[k0].sid][i]
  {
    var x := slots[k0].cells[i];
    match LastIndex(slots[k - 1].cells, x)
    case Some(j) =>
    case None =>
      assert k0 != k - 1;
      ShownCovered(blocks, slots, assign, k - 1, k0, i);
  }

  /** A cell no slot covers keeps its base character: '#' on a block, '?'
      on a white cell. */
  lemma {:induction false} ShownUncovered(blocks: Grid, slots: seq<Slot>, assign: map<nat, string>, k: nat, x: Cell)
    requires Square(blocks) && Writable(|blocks|, slots, assign) && k <= |slots|
    requires 0 <= x.0 < |blocks| && 0 <= x.1 < |blocks|
    requires forall k' :: 0 <= k' < |slots| ==> x !in slots[k'].cells
    ensures Shown(blocks, slots, assign, k, x) == Base(blocks, x)
  {
    if k > 0 {
      ShownUncovered(blocks, slots, assign, k - 1, x);
    }
  }

  /** A completed fill of slots numbered by position is consistent, so
      the grid the builder prints shows it. */
  lemma SolutionConsistent(slots: seq<Slot>, forced: map<nat, string>, words: map<nat, seq<string>>, m: map<nat, string>)
    requires forall k :: 0 <= k < |slots| ==> slots[k].sid == k
    requires Solution(slots, forced, words, m)
    ensures forall k :: 0 <= k < |slots| ==> slots[k].sid in m && |slots[k].cells| <= |m[slots[k].sid]|
    ensures Consistent(slots, m)
  {
  }

  /** Some letter occurs three times in a row: `ch*3 in w` for a `ch` of w. */
  ghost predicate Tripled(w: string)
  {
    exists i :: 0 <= i && i + 2 < |w| && w[i] == w[i + 1] == w[i + 2]
  }

  /** The scan behind `any(ch*3 in w for ch in set(w))`. */
  function HasTriple(w: string): (b: bool)
    ensures b <==> Tripled(w)
  {
    if |w| < 3 then false
    else if w[0] == w[1] == w[2] then true
    else
      var t := HasTriple(w[1..]);
      assert t <==> Tripled(w) by {
        if Tripled(w) {
          var i :| 0 <= i && i + 2 < |w| && w[i] == w[i + 1] == w[i + 2];
          assert i > 0 && w[1..][i - 1] == w[i];
        }
        if t {
          var i :| 0 <= i && i + 2 < |w[1..]| && w[1..][i] == w[1..][i + 1] == w[1..][i + 2];
          assert w[i + 1] == w[1..][i];
        }
      }
      t
  }

  predicate Rare(ch: char)
  {
    ch == 'Q' || ch == 'X' || ch == 'Z' || ch == 'J'
  }

  /** `sum(w.count(ch) for ch in ['Q','X','Z','J'])`: the positions of w
      holding one of the four rare letters. */
  function RareCount(w: string): (n: nat)
    ensures n <= |w|
    ensures n == |set i | 0 <= i < |w| && Rare(w[i])|
    ensures n == 0 <==> forall i :: 0 <= i < |w| ==> !Rare(w[i])
  {
    if w == [] then 0
    else
      var init := w[..|w| - 1];
      var n := RareCount(init) + (if Rare(w[|w| - 1]) then 1 else 0);
      assert (set i | 0 <= i < |w| && Rare(w[i])) ==
        (set i | 0 <= i < |init| && Rare(init[i])) + (if Rare(w[|w| - 1]) then {|w| - 1} else {});
      n
  }

  /** The penalty of one entry in half-points (the source's 3, 0.5 and 5
      doubled): 6 for a tripled letter, 1 per rare letter, 10 for at most
      two distinct letters. */
  function Penalty(w: string): nat
  {
    (if HasTriple(w) then 6 else 0) + RareCount(w) + (if |SetOf(w)| <= 2 then 10 else 0)
  }

  function Total(es: seq<N.Entry>): nat
  {
    if es == [] then 0 else Total(es[..|es| - 1]) + Penalty(es[|es| - 1].word)
  }

  /** `score_entries(across, down)` in half-points: the penalties of all
      entries, across then down, summed. */
  method ScoreEntries(across: seq<N.Entry>, down: seq<N.Entry>) returns (penalty: nat)
    ensures penalty == Total(across + down)
  {
    var entries := across + down;
    penalty := 0;
    for k := 0 to |entries|
      invariant penalty == Total(entries[..k])
    {
      var w := entries[k].word;
      if HasTriple(w) {
        penalty := penalty + 6;
      }
      penalty := penalty + RareCount(w);
      if |SetOf(w)| <= 2 {
        penalty := penalty + 10;
      }
      assert entries[..k + 1][..k] == entries[..k];
    }
    assert entries[..|entries|] == entries;
  }

  /** The score adds up over the two lists. */
  lemma {:induction false} TotalAppend(a: seq<N.Entry>, b: seq<N.Entry>)
    ensures Total(a + b) == Total(a) + Total(b)
  {
    if b != [] {
      var init := b[..|b| - 1];
      assert (a + b)[..|a + b| - 1] == a + init;
      assert (a + b)[|a + b| - 1] == b[|b| - 1];
      TotalAppend(a, init);
    } else {
      assert a + b == a;
    }
  }

  /** The score is zero exactly when no entry has a tripled letter, a rare
      letter or at most two distinct letters. */
  lemma {:induction false} TotalZero(es: seq<N.Entry>)
    ensures Total(es) == 0 <==> forall e :: e in es ==>
      !Tripled(e.word) && (forall i :: 0 <= i < |e.word| ==> !Rare(e.word[i])) && |SetOf(e.word)| > 2
  {
    if es != [] {
      var init := es[..|es| - 1];
      TotalZero(init);
      assert es == init + [es[|es| - 1]];
      var w := es[|es| - 1].word;
    }
  }

  /** Each entry's penalty is a lower bound of the score. */
  lemma {:induction false} TotalBound(es: seq<N.Entry>, k: nat)
    requires k < |es|
    ensures Penalty(es[k].word) <= Total(es)
  {
    if k < |es| - 1 {
      TotalBound(es[..|es| - 1], k);
    }
  }
}
