/** The fill search of the fixed-size builders (`solve` in the 15x15
    builder, `solve_fill` in the 13x13 one). The forced theme words are
    written to the `letters` board first; then the most constrained unfilled
    slot is filled by backtracking, each step writing only the cells it
    newly fixes and erasing exactly those on failure. The two builders
    differ only in how a slot's candidates are found: by the per-position
    letter index, capped at 350 (`indexed`), or by scanning the word list,
    capped at 250. */
module Fill {
  import opened Common
  import opened Slots
  import opened Lexicon
  import opened FillSpec

  predicate SidsAreIndices(slots: seq<Slot>)
  {
    forall k :: 0 <= k < |slots| ==> slots[k].sid == k
  }

  /** Every word list holds words of its key's length. */
  predicate WordsFit(words: map<nat, seq<string>>)
  {
    forall L :: L in words ==> forall i :: 0 <= i < |words[L]| ==> |words[L][i]| == L
  }

  /** Every assigned word is written on the board. */
  ghost predicate Fits(slots: seq<Slot>, assign: map<nat, string>, letters: Letters)
  {
    forall sid :: sid in assign ==> sid < |slots| && Covered(letters, slots[sid].cells, assign[sid])
  }

  /** No word is given to two slots, except possibly two forced ones. */
  ghost predicate FillDistinct(assign: map<nat, string>, forced: map<nat, string>)
  {
    forall s1, s2 :: s1 in assign && s2 in assign && s1 != s2 && s1 !in forced ==> assign[s1] != assign[s2]
  }

  /** Words given by the search come from the word list of their length. */
  ghost predicate FromList(slots: seq<Slot>, forced: map<nat, string>, words: map<nat, seq<string>>, assign: map<nat, string>)
  {
    forall sid :: sid in assign && sid !in forced && sid < |slots| ==> assign[sid] in WordsOf(words, |slots[sid].cells|)
  }

  /** Every slot is assigned, waiting in `unfilled` (once), or being tried
      (hole). */
  ghost predicate Tracks(n: nat, assign: map<nat, string>, unfilled: seq<nat>, hole: set<nat>)
  {
    && NoDup(unfilled)
    && (forall j :: 0 <= j < |unfilled| ==> unfilled[j] < n && unfilled[j] !in assign && unfilled[j] !in hole)
    && (forall k :: 0 <= k < n ==> k in assign || k in unfilled || k in hole)
    && (forall k :: k in hole ==> k < n && k !in assign)
  }

  /** The search state, with the slots of hole taken out of `unfilled` but
      not yet assigned. */
  ghost predicate State(slots: seq<Slot>, forced: map<nat, string>, words: map<nat, seq<string>>,
                        letters: Letters, assign: map<nat, string>, used: set<string>,
                        unfilled: seq<nat>, hole: set<nat>)
  {
    && Fits(slots, assign, letters)
    && used == assign.Values
    && FillDistinct(assign, forced)
    && FromList(slots, forced, words, assign)
    && (forall sid :: sid in forced ==> sid in assign && assign[sid] == forced[sid])
    && Tracks(|slots|, assign, unfilled, hole)
  }

  /** `unfilled.remove(sid)`. */
  function RemoveFirst(s: seq<nat>, x: nat): (r: seq<nat>)
    ensures multiset(r) == multiset(s) - multiset{x}
  {
    if s == [] then []
    else if s[0] == x then (assert s == [s[0]] + s[1..]; s[1..])
    else (assert s == [s[0]] + s[1..]; [s[0]] + RemoveFirst(s[1..], x))
  }

  /** In a sequence without duplicates, removing x removes every copy of
      it and nothing else. */
  lemma {:induction false} RemoveFirstNoDup(s: seq<nat>, x: nat)
    requires NoDup(s)
    ensures NoDup(RemoveFirst(s, x))
    ensures forall y :: y in RemoveFirst(s, x) <==> y in s && y != x
  {
    if s != [] {
      var t := s[1..];
      assert NoDup(t) by {
        forall i, j | 0 <= i < j < |t| ensures t[i] != t[j] {
          assert t[i] == s[i + 1] && t[j] == s[j + 1];
        }
      }
      assert s[0] !in t by {
        forall j | 0 <= j < |t| ensures t[j] != s[0] {
          assert t[j] == s[j + 1];
        }
      }
      if s[0] != x {
        RemoveFirstNoDup(t, x);
        var r := RemoveFirst(s, x);
        assert r == [s[0]] + RemoveFirst(t, x);
        forall i, j | 0 <= i < j < |r| ensures r[i] != r[j] {
          assert r[j] == RemoveFirst(t, x)[j - 1];
          if i > 0 {
            assert r[i] == RemoveFirst(t, x)[i - 1];
          }
        }
      }
    }
  }

  /** Taking sid out of `unfilled` opens a hole for it. */
  lemma TracksOpen(n: nat, assign: map<nat, string>, unfilled: seq<nat>, sid: nat)
    requires Tracks(n, assign, unfilled, {}) && sid in unfilled
    ensures Tracks(n, assign, RemoveFirst(unfilled, sid), {sid})
  {
    RemoveFirstNoDup(unfilled, sid);
    var r := RemoveFirst(unfilled, sid);
    forall j | 0 <= j < |r| ensures r[j] < n && r[j] !in assign && r[j] != sid {
      assert r[j] in r;
      var i :| 0 <= i < |unfilled| && unfilled[i] == r[j];
    }
  }

  lemma {:induction false} NoDupCount(s: seq<nat>, x: nat)
    requires NoDup(s)
    ensures multiset(s)[x] <= 1
  {
    if s != [] {
      var t := s[1..];
      assert s == [s[0]] + t;
      assert NoDup(t) by {
        forall i, j | 0 <= i < j < |t| ensures t[i] != t[j] {
          assert t[i] == s[i + 1] && t[j] == s[j + 1];
        }
      }
      NoDupCount(t, x);
      if x == s[0] {
        assert x !in t by {
          forall j | 0 <= j < |t| ensures t[j] != x {
            assert t[j] == s[j + 1];
          }
        }
      }
    }
  }

  /** Reordering `unfilled` keeps the bookkeeping. */
  lemma TracksPermute(n: nat, assign: map<nat, string>, u: seq<nat>, u': seq<nat>, hole: set<nat>)
    requires Tracks(n, assign, u, hole) && multiset(u') == multiset(u)
    ensures Tracks(n, assign, u', hole)
  {
    forall i, j | 0 <= i < j < |u'| ensures u'[i] != u'[j] {
      if u'[i] == u'[j] {
        var x := u'[i];
        assert u' == u'[..j] + [x] + u'[j + 1..];
        assert x in u'[..j];
        assert multiset(u')[x] >= 2;
        NoDupCount(u, x);
      }
    }
    forall j | 0 <= j < |u'| ensures u'[j] in u {
      assert u'[j] in multiset(u');
    }
    forall k | 0 <= k < n && k in u ensures k in u' {
      assert k in multiset(u);
    }
  }

  /** Reordering `unfilled` keeps the search state. */
  lemma StatePermute(slots: seq<Slot>, forced: map<nat, string>, words: map<nat, seq<string>>,
                     letters: Letters, assign: map<nat, string>, used: set<string>,
                     u: seq<nat>, u': seq<nat>, sid: nat)
    requires State(slots, forced, words, letters, assign, used, u, {sid})
    requires multiset(u') == multiset(u)
    ensures State(slots, forced, words, letters, assign, used, u', {sid})
  {
    TracksPermute(|slots|, assign, u, u', {sid});
  }

  /** Taking back a fresh assignment restores the map and the set. */
  lemma Unassign(a0: map<nat, string>, used0: set<string>, sid: nat, w: string)
    requires sid !in a0 && w !in used0
    ensures a0[sid := w] - {sid} == a0 && (used0 + {w}) - {w} == used0
  {
  }

  /** Erasing the newly written cells gives back the board before the
      write. */
  lemma Restored(before: Letters, after: Letters, changed: seq<Cell>)
    requires after.Keys == before.Keys + SetOf(changed)
    requires forall c :: c in before ==> after[c] == before[c]
    requires forall c :: c in changed ==> c !in before
    ensures after - SetOf(changed) == before
  {
  }

  /** Putting sid back at the end of `unfilled` closes its hole. */
  lemma TracksClose(n: nat, assign: map<nat, string>, unfilled: seq<nat>, sid: nat)
    requires Tracks(n, assign, unfilled, {sid})
    ensures Tracks(n, assign, unfilled + [sid], {})
  {
    var r := unfilled + [sid];
    forall i, j | 0 <= i < j < |r| ensures r[i] != r[j] {
      if j == |unfilled| {
        assert r[i] == unfilled[i];
      } else {
        assert r[i] == unfilled[i] && r[j] == unfilled[j];
      }
    }
    assert forall j :: 0 <= j < |unfilled| ==> r[j] == unfilled[j];
  }

  /** Giving the hole sid a word that is written on the board, unused and
      from the list closes the hole. */
  lemma StateAssign(slots: seq<Slot>, forced: map<nat, string>, words: map<nat, seq<string>>,
                    letters: Letters, letters': Letters, assign: map<nat, string>, used: set<string>,
                    unfilled: seq<nat>, sid: nat, w: string)
    requires State(slots, forced, words, letters, assign, used, unfilled, {sid})
    requires forall c :: c in letters ==> c in letters' && letters'[c] == letters[c]
    requires sid < |slots| && Covered(letters', slots[sid].cells, w)
    requires w !in used && w in WordsOf(words, |slots[sid].cells|)
    ensures State(slots, forced, words, letters', assign[sid := w], used + {w}, unfilled, {})
  {
    var a := assign[sid := w];
    assert sid !in forced;
    forall s | s in a ensures s < |slots| && Covered(letters', slots[s].cells, a[s]) {
      if s != sid {
        assert Covered(letters, slots[s].cells, assign[s]);
      }
    }
    assert a.Values == assign.Values + {w};
    forall s1, s2 | s1 in a && s2 in a && s1 != s2 && s1 !in forced ensures a[s1] != a[s2] {
      if s1 == sid {
        assert a[s2] == assign[s2] && assign[s2] in used;
      } else if s2 == sid {
        assert a[s1] == assign[s1] && assign[s1] in used;
      }
    }
  }

  /** Writing more letters keeps every assigned word written. */
  lemma FitsGrow(slots: seq<Slot>, assign: map<nat, string>, letters: Letters, letters': Letters)
    requires Fits(slots, assign, letters)
    requires forall c :: c in letters ==> c in letters' && letters'[c] == letters[c]
    ensures Fits(slots, assign, letters')
  {
    forall s | s in assign ensures s < |slots| && Covered(letters', slots[s].cells, assign[s]) {
      assert Covered(letters, slots[s].cells, assign[s]);
    }
  }

  /** A finished search state is a solution. */
  lemma StateSolution(slots: seq<Slot>, forced: map<nat, string>, words: map<nat, seq<string>>,
                      letters: Letters, assign: map<nat, string>, used: set<string>)
    requires State(slots, forced, words, letters, assign, used, [], {})
    ensures Solution(slots, forced, words, assign)
  {
    forall s1, s2, i, j |
      s1 in assign && s2 in assign && 0 <= i < |slots[s1].cells| && 0 <= j < |slots[s2].cells|
      && slots[s1].cells[i] == slots[s2].cells[j]
      ensures assign[s1][i] == assign[s2][j]
    {
      assert Covered(letters, slots[s1].cells, assign[s1]);
      assert Covered(letters, slots[s2].cells, assign[s2]);
    }
  }

  /** `w` agrees with the board at cells[..i]. */
  predicate AgreesUpTo(letters: Letters, cells: seq<Cell>, w: string, i: nat)
    requires i <= |cells| <= |w|
  {
    forall j :: 0 <= j < i && cells[j] in letters ==> letters[cells[j]] == w[j]
  }

  /** The ids of `possible` after cells[..i]: None while no cell is fixed,
      else the ids of the words agreeing there. */
  ghost predicate Narrowed(letters: Letters, cells: seq<Cell>, ws: seq<string>, i: nat, possible: Option<set<nat>>)
    requires i <= |cells|
    requires forall k :: 0 <= k < |ws| ==> |ws[k]| == |cells|
  {
    && (possible.None? ==> forall j :: 0 <= j < i ==> cells[j] !in letters)
    && (possible.Some? ==> forall wi: nat :: wi in possible.value <==> wi < |ws| && AgreesUpTo(letters, cells, ws[wi], i))
  }

  /** One step of the index intersection. */
  lemma NarrowStep(words: map<nat, seq<string>>, letters: Letters, cells: seq<Cell>, i: nat,
                   possible: Option<set<nat>>, possible': Option<set<nat>>)
    requires WordsFit(words) && |cells| in words && i < |cells|
    requires Narrowed(letters, cells, words[|cells|], i, possible)
    requires cells[i] !in letters ==> possible' == possible
    requires cells[i] in letters ==>
      var ids := Lookup(BuildIndexes(words)[|cells|].1, i, letters[cells[i]]);
      possible' == if possible.None? then Some(ids) else Some(possible.value * ids)
    ensures Narrowed(letters, cells, words[|cells|], i + 1, possible')
  {
    var ws := words[|cells|];
    if cells[i] in letters {
      forall wi: nat ensures wi in possible'.value <==> wi < |ws| && AgreesUpTo(letters, cells, ws[wi], i + 1) {
        IndexLookup(words, |cells|, i, letters[cells[i]], wi);
      }
    }
  }

  /** `ws[..k + 1]` filtered is `ws[..k]` filtered, then ws[k] if kept. */
  lemma MatchingStep(ws: seq<string>, k: nat, letters: Letters, cells: seq<Cell>, used: set<string>)
    requires k < |ws|
    ensures Agrees(letters, cells, ws[k]) && ws[k] !in used ==>
            Matching(ws[..k + 1], letters, cells, used) == Matching(ws[..k], letters, cells, used) + [ws[k]]
    ensures !(Agrees(letters, cells, ws[k]) && ws[k] !in used) ==>
            Matching(ws[..k + 1], letters, cells, used) == Matching(ws[..k], letters, cells, used)
  {
    assert ws[..k + 1][..k] == ws[..k];
    assert Matching(ws[..k], letters, cells, used) + [] == Matching(ws[..k], letters, cells, used);
  }

  /** When no word of ws agrees with the board, none matches. */
  lemma {:induction false} MatchingNone(ws: seq<string>, letters: Letters, cells: seq<Cell>, used: set<string>)
    requires forall k :: 0 <= k < |ws| ==> !Agrees(letters, cells, ws[k])
    ensures Matching(ws, letters, cells, used) == []
  {
    if ws != [] {
      MatchingNone(ws[..|ws| - 1], letters, cells, used);
    }
  }

  /** a keeps every entry of a0. */
  ghost predicate Extends(a0: map<nat, string>, a: map<nat, string>)
  {
    forall s :: s in a0 ==> s in a && a[s] == a0[s]
  }

  /** Among counts[..k] the first minimum is at b, and no count before k is
      at most 1. */
  predicate ScanSoFar(counts: seq<nat>, b: nat, k: nat)
  {
    && b < k <= |counts|
    && (forall j :: 0 <= j < b ==> counts[b] < counts[j])
    && (forall j :: b < j < k ==> counts[b] <= counts[j])
    && (forall j :: 0 <= j < k ==> counts[j] > 1)
  }

  /** The scan stopped after counts[..m] with first minimum at b: it went
      on while counts exceeded 1. */
  predicate FirstMinimum(counts: seq<nat>, b: nat, m: nat)
  {
    && b < m <= |counts|
    && (forall j :: 0 <= j < b ==> counts[b] < counts[j])
    && (forall j :: b < j < m ==> counts[b] <= counts[j])
    && (forall j :: 0 <= j < m - 1 ==> counts[j] > 1)
    && (m == |counts| || counts[m - 1] <= 1)
  }

  /** One step of the scan past a slot with more than one candidate. */
  lemma ScanNext(counts: seq<nat>, b: nat, k: nat, bestN: int, b': nat)
    requires k < |counts| && counts[k] > 1
    requires k == 0 ==> bestN > counts[k]
    requires k > 0 ==> ScanSoFar(counts, b, k) && bestN == counts[b]
    requires b' == if counts[k] < bestN then k else b
    ensures ScanSoFar(counts, b', k + 1)
  {
  }

  /** The scan stops at a slot with at most one candidate. */
  lemma ScanStop(counts: seq<nat>, b: nat, k: nat, bestN: int, b': nat)
    requires k < |counts| && counts[k] <= 1
    requires k == 0 ==> bestN > counts[k]
    requires k > 0 ==> ScanSoFar(counts, b, k) && bestN == counts[b]
    requires b' == if counts[k] < bestN then k else b
    ensures FirstMinimum(counts, b', k + 1)
  {
  }

  class Filler {
    const slots: seq<Slot>
    const words: map<nat, seq<string>>
    const index: map<nat, (seq<string>, Positions)>
    const indexed: bool
    const cap: nat
    const perm: seq<string> -> seq<string>
    const forced: map<nat, string>
    var letters: Letters
    var assign: map<nat, string>
    var used: set<string>
    var unfilled: seq<nat>

    /** What the fixed inputs satisfy throughout. */
    ghost predicate Setup()
    {
      && SidsAreIndices(slots)
      && WordsFit(words)
      && index == BuildIndexes(words)
      && Reorders(perm)
      && cap < 1_000_000_000
    }

    ghost predicate Valid()
      reads this
    {
      Setup() && State(slots, forced, words, letters, assign, used, unfilled, {})
    }

    /** Valid, with sid taken out of `unfilled` and not yet assigned. */
    ghost predicate Open(sid: nat)
      reads this
    {
      Setup() && State(slots, forced, words, letters, assign, used, unfilled, {sid})
    }

    /** The candidates of slot sid in the current state. */
    ghost function CandidatesOf(sid: nat): seq<string>
      reads this
      requires sid < |slots|
    {
      Candidates(words, letters, slots[sid].cells, used, perm, cap)
    }

    ghost function Count(sid: nat): nat
      reads this
      requires sid < |slots|
    {
      |CandidatesOf(sid)|
    }

    /** `dict(forced)`, `set(assign.values())`, the unfilled sids in slot
        order, and an empty board. */
    constructor (slots: seq<Slot>, forced: map<nat, string>, words: map<nat, seq<string>>,
                 indexed: bool, perm: seq<string> -> seq<string>)
      requires SidsAreIndices(slots) && WordsFit(words) && Reorders(perm)
      ensures Setup()
      ensures this.slots == slots && this.forced == forced && this.words == words && this.perm == perm
      ensures this.cap == (if indexed then 350 else 250)
      ensures letters == map[] && assign == forced && used == forced.Values
      ensures Tracks(|slots|, assign, unfilled, {})
    {
      this.slots := slots;
      this.words := words;
      this.index := BuildIndexes(words);
      this.indexed := indexed;
      this.cap := if indexed then 350 else 250;
      this.perm := perm;
      this.forced := forced;
      letters := map[];
      assign := forced;
      used := forced.Values;
      unfilled := Unassigned(slots, forced.Keys, |slots|);
    }

    /** `for i, cell in enumerate(s.cells): if cell in letters and
        letters[cell] != w[i]` of `candidates_for`. */
    method AgreesBoard(cells: seq<Cell>, w: string) returns (ok: bool)
      requires |w| == |cells|
      ensures ok <==> Agrees(letters, cells, w)
    {
      for i := 0 to |cells|
        invariant AgreesUpTo(letters, cells, w, i)
      {
        if cells[i] in letters && letters[cells[i]] != w[i] {
          return false;
        }
      }
      return true;
    }

    /** `candidates_for(sid)` of the 13x13 builder: scan the word list of
        the slot's length. */
    method CandidatesScan(sid: nat) returns (r: seq<string>)
      requires Setup() && sid < |slots|
      ensures r == CandidatesOf(sid)
    {
      var cells := slots[sid].cells;
      var ws := WordsOf(words, |cells|);
      var out := [];
      for k := 0 to |ws|
        invariant out == Matching(ws[..k], letters, cells, used)
      {
        MatchingStep(ws, k, letters, cells, used);
        var w := ws[k];
        var keep := false;
        if w !in used {
          keep := AgreesBoard(cells, w);
        }
        if keep {
          out := out + [w];
        }
      }
      assert ws[..|ws|] == ws;
      r := Take(perm(out), cap);
    }

    /** `candidates(sid)` of the 15x15 builder: intersect the index sets of
        the fixed cells, then keep the unused words. */
    method CandidatesIndexed(sid: nat) returns (r: seq<string>)
      requires Setup() && sid < |slots|
      ensures r == CandidatesOf(sid)
    {
      var cells := slots[sid].cells;
      var L := |cells|;
      if L !in index {
        assert Reorders(perm) && multiset(perm([])) == multiset{};
        return [];
      }
      var ws := index[L].0;
      var pos := index[L].1;
      var possible: Option<set<nat>> := None;
      for i := 0 to |cells|
        invariant Narrowed(letters, cells, ws, i, possible)
      {
        ghost var before := possible;
        if cells[i] in letters {
          var ids := Lookup(pos, i, letters[cells[i]]);
          if possible.None? {
            possible := Some(ids);
          } else {
            possible := Some(possible.value * ids);
          }
        }
        NarrowStep(words, letters, cells, i, before, possible);
        if possible.Some? && possible.value == {} {
          NoneAgree(cells, ws, i + 1);
          return [];
        }
      }
      var out := [];
      for wi := 0 to |ws|
        invariant out == Matching(ws[..wi], letters, cells, used)
      {
        MatchingStep(ws, wi, letters, cells, used);
        if (possible.None? || wi in possible.value) && ws[wi] !in used {
          out := out + [ws[wi]];
        }
      }
      assert ws[..|ws|] == ws;
      r := Take(perm(out), cap);
    }

    /** An empty intersection means no word of the list agrees, so the
        candidate list is empty. */
    lemma NoneAgree(cells: seq<Cell>, ws: seq<string>, i: nat)
      requires Setup() && |cells| in words && ws == words[|cells|] && i <= |cells|
      requires forall wi: nat :: wi < |ws| ==> !AgreesUpTo(letters, cells, ws[wi], i)
      ensures Candidates(words, letters, cells, used, perm, cap) == []
    {
      forall k | 0 <= k < |ws| ensures !Agrees(letters, cells, ws[k]) {
        assert !AgreesUpTo(letters, cells, ws[k], i);
      }
      MatchingNone(ws, letters, cells, used);
      var m := Matching(ws, letters, cells, used);
      assert |perm(m)| == |multiset(perm(m))| == |multiset(m)| == 0;
    }

    method CandidatesFor(sid: nat) returns (r: seq<string>)
      requires Setup() && sid < |slots|
      ensures r == CandidatesOf(sid)
    {
      if indexed {
        r := CandidatesIndexed(sid);
      } else {
        r := CandidatesScan(sid);
      }
    }

    /** The candidate counts of the slots u. */
    ghost function CountsOf(u: seq<nat>): (r: seq<nat>)
      reads this
      requires forall j :: 0 <= j < |u| ==> u[j] < |slots|
      ensures |r| == |u| && forall j :: 0 <= j < |u| ==> r[j] == Count(u[j])
    {
      if u == [] then [] else CountsOf(u[..|u| - 1]) + [Count(u[|u| - 1])]
    }

    /** The scan of `choose` stopped after unfilled[..m], having picked
        unfilled[b]: the first slot with fewest candidates among those
        scanned, where the scan stops at the first slot with at most one. */
    ghost predicate PickedByMRV(b: nat, m: nat)
      reads this
      requires forall j :: 0 <= j < |unfilled| ==> unfilled[j] < |slots|
    {
      && b < m <= |unfilled|
      && FirstMinimum(CountsOf(unfilled), b, m)
    }

    /** `choose()`: the most constrained unfilled slot and its candidates. */
    method Choose() returns (sid: nat, cands: seq<string>)
      requires Valid() && |unfilled| > 0
      ensures sid in unfilled && sid < |slots| && cands == CandidatesOf(sid)
      ensures exists b: nat, m: nat :: PickedByMRV(b, m) && unfilled[b] == sid
    {
      ghost var counts := CountsOf(unfilled);
      var bestN := 1_000_000_000;
      sid, cands := unfilled[0], [];
      ghost var b: nat := 0;
      var k := 0;
      while k < |unfilled|
        invariant 0 <= k <= |unfilled|
        invariant k == 0 ==> bestN == 1_000_000_000
        invariant k > 0 ==> b < k && sid == unfilled[b] && cands == CandidatesOf(sid) && bestN == counts[b]
        invariant k > 0 ==> ScanSoFar(counts, b, k)
      {
        var c := CandidatesFor(unfilled[k]);
        CandidatesBound(words, letters, slots[unfilled[k]].cells, used, perm, cap);
        assert |c| == counts[k];
        ghost var b' := if |c| < bestN then k else b;
        if |c| <= 1 {
          ScanStop(counts, b, k, bestN, b');
        } else {
          ScanNext(counts, b, k, bestN, b');
        }
        if |c| < bestN {
          bestN, sid, cands := |c|, unfilled[k], c;
        }
        b := b';
        if |c| <= 1 {
          assert PickedByMRV(b, k + 1);
          return;
        }
        k := k + 1;
      }
      assert FirstMinimum(counts, b, k);
      assert PickedByMRV(b, k);
    }

    /** The letter-writing loop of `bt`: write w's letters into empty
        cells, recording them in `changed`, and stop at the first
        disagreeing cell. */
    method Write(cells: seq<Cell>, w: string) returns (changed: seq<Cell>, bad: bool)
      requires |w| == |cells|
      modifies this`letters
      ensures NoDup(changed) && forall c :: c in changed ==> c !in old(letters)
      ensures letters.Keys == old(letters).Keys + SetOf(changed)
      ensures forall c :: c in old(letters) ==> letters[c] == old(letters)[c]
      ensures !bad ==> Covered(letters, cells, w)
      ensures bad ==> !Agrees(old(letters), cells, w) || !NoDup(cells)
    {
      changed, bad := [], false;
      for i := 0 to |cells|
        invariant NoDup(changed) && forall c :: c in changed ==> c !in old(letters)
        invariant letters.Keys == old(letters).Keys + SetOf(changed)
        invariant forall c :: c in old(letters) ==> letters[c] == old(letters)[c]
        invariant forall c :: c in changed ==> c in cells[..i]
        invariant forall j :: 0 <= j < i ==> cells[j] in letters && letters[cells[j]] == w[j]
      {
        var cell := cells[i];
        if cell in letters && letters[cell] != w[i] {
          if cell in changed {
            var j :| 0 <= j < i && cells[j] == cell;
            assert !NoDup(cells) by {
              assert cells[j] == cells[i];
            }
          }
          return changed, true;
        }
        if cell !in letters {
          assert cell !in changed;
          letters := letters[cell := w[i]];
          assert SetOf(changed + [cell]) == SetOf(changed) + {cell};
          changed := changed + [cell];
        }
      }
    }

    /** `for cell in changed: del letters[cell]`. */
    method Erase(changed: seq<Cell>)
      requires NoDup(changed) && forall c :: c in changed ==> c in letters
      modifies this`letters
      ensures letters == old(letters) - SetOf(changed)
    {
      for k := 0 to |changed|
        invariant letters == old(letters) - SetOf(changed[..k])
      {
        assert changed[k] !in changed[..k];
        assert SetOf(changed[..k + 1]) == SetOf(changed[..k]) + {changed[k]};
        letters := letters - {changed[k]};
      }
      assert changed[..|changed|] == changed;
    }

    /** `bt()`: fill all unfilled slots. On success every slot holds a
        word and the earlier assignment is kept; on failure board,
        assignment and used words are as before and `unfilled` is a
        reordering of what it was. */
    method Bt() returns (ok: bool)
      requires Valid()
      modifies this`letters, this`assign, this`used, this`unfilled
      decreases |unfilled|, 2
      ensures Valid()
      ensures ok ==> unfilled == [] && Extends(old(assign), assign)
      ensures !ok ==> letters == old(letters) && assign == old(assign) && used == old(used)
      ensures !ok ==> multiset(unfilled) == multiset(old(unfilled))
    {
      if |unfilled| == 0 {
        return true;
      }
      var sid, cands := Choose();
      if |cands| == 0 {
        return false;
      }
      ok := TryAll(sid, cands);
    }

    /** The candidate loop of `bt`: take sid out of `unfilled`, try each
        candidate in order, and put sid back at the end when all fail. */
    method TryAll(sid: nat, cands: seq<string>) returns (ok: bool)
      requires Valid() && sid in unfilled && sid < |slots| && cands == CandidatesOf(sid)
      modifies this`letters, this`assign, this`used, this`unfilled
      decreases |unfilled|, 1
      ensures Valid()
      ensures ok ==> unfilled == [] && Extends(old(assign), assign)
      ensures !ok ==> letters == old(letters) && assign == old(assign) && used == old(used)
      ensures !ok ==> multiset(unfilled) == multiset(old(unfilled))
    {
      TracksOpen(|slots|, assign, unfilled, sid);
      unfilled := RemoveFirst(unfilled, sid);
      for k := 0 to |cands|
        invariant Open(sid)
        invariant letters == old(letters) && assign == old(assign) && used == old(used)
        invariant multiset(unfilled) == multiset(old(unfilled)) - multiset{sid}
      {
        CandidatesSound(words, letters, slots[sid].cells, used, perm, cap, cands[k]);
        ok := TryWord(sid, cands[k]);
        if ok {
          return true;
        }
      }
      TracksClose(|slots|, assign, unfilled, sid);
      unfilled := unfilled + [sid];
      return false;
    }

    /** One iteration of the loop in `bt`: write w into slot sid, recurse,
        and on failure erase exactly the cells written and unassign. */
    method TryWord(sid: nat, w: string) returns (ok: bool)
      requires Open(sid) && sid < |slots|
      requires w in WordsOf(words, |slots[sid].cells|) && w !in used
      modifies this`letters, this`assign, this`used, this`unfilled
      decreases |unfilled| + 1, 0
      ensures ok ==> Valid() && unfilled == [] && Extends(old(assign), assign)
      ensures !ok ==> Open(sid)
      ensures !ok ==> letters == old(letters) && assign == old(assign) && used == old(used)
      ensures !ok ==> multiset(unfilled) == multiset(old(unfilled))
    {
      ghost var u0 := unfilled;
      var changed, bad := Place(sid, w);
      if bad {
        return false;
      }
      ok := Bt();
      if ok {
        return;
      }
      Undo(sid, w, changed, old(letters), old(assign), old(used), u0);
    }

    /** Write w into slot sid and assign it; when a cell disagrees, erase
        what was written and change nothing. */
    method Place(sid: nat, w: string) returns (changed: seq<Cell>, bad: bool)
      requires Open(sid) && sid < |slots|
      requires w in WordsOf(words, |slots[sid].cells|) && w !in used
      modifies this`letters, this`assign, this`used
      ensures bad ==> letters == old(letters) && assign == old(assign) && used == old(used)
      ensures !bad ==> Valid() && assign == old(assign)[sid := w] && used == old(used) + {w}
      ensures !bad ==> NoDup(changed) && (forall c :: c in changed ==> c in letters)
      ensures !bad ==> letters - SetOf(changed) == old(letters)
    {
      var cells := slots[sid].cells;
      assert |w| == |cells| by {
        assert |cells| in words;
      }
      changed, bad := Write(cells, w);
      ghost var written := letters;
      Restored(old(letters), written, changed);
      if bad {
        Erase(changed);
        return;
      }
      StateAssign(slots, forced, words, old(letters), letters, assign, used, unfilled, sid, w);
      assign := assign[sid := w];
      used := used + {w};
    }

    /** Undo a placement whose search failed: unassign sid, free w and
        erase the cells it wrote; the search state with sid open holds
        again, with `unfilled` possibly reordered. */
    method Undo(sid: nat, w: string, changed: seq<Cell>,
                ghost l0: Letters, ghost a0: map<nat, string>, ghost used0: set<string>, ghost u0: seq<nat>)
      requires Setup() && State(slots, forced, words, l0, a0, used0, u0, {sid})
      requires multiset(unfilled) == multiset(u0)
      requires assign == a0[sid := w] && used == used0 + {w} && w !in used0
      requires NoDup(changed) && (forall c :: c in changed ==> c in letters) && letters - SetOf(changed) == l0
      modifies this`letters, this`assign, this`used
      ensures Open(sid) && letters == l0 && assign == a0 && used == used0
    {
      StatePermute(slots, forced, words, l0, a0, used0, u0, unfilled, sid);
      Unassign(a0, used0, sid, w);
      assign := assign - {sid};
      used := used - {w};
      Erase(changed);
    }

    /** The seeding loop of `solve`: write every forced word, failing at the
        first cell where two of them disagree. */
    method Seed() returns (ok: bool)
      requires Setup() && ForcedFit(slots, forced) && letters == map[] && assign == forced
      modifies this`letters
      ensures ok <==> !Clash(ForcedPairs(slots, forced))
      ensures ok ==> Fits(slots, assign, letters)
    {
      ghost var pairs: set<(Cell, char)> := {};
      ghost var done: set<nat> := {};
      var todo := forced.Keys;
      while todo != {}
        invariant todo + done == forced.Keys && todo !! done
        invariant Seeded(pairs, done)
        decreases todo
      {
        var sid :| sid in todo;
        ok, pairs := SeedSlot(sid, pairs, done);
        if !ok {
          return;
        }
        todo := todo - {sid};
        done := done + {sid};
      }
      SeededAll(pairs);
      return true;
    }

    /** After seeding the slots of done: pairs are forced letters, the board
        holds exactly them, and every letter of a done slot is in pairs. */
    /** The inner loop of the seeding: write the letters of the forced
        answer of sid, stopping at the first cell already holding another
        letter. */
    method SeedSlot(sid: nat, ghost pairs: set<(Cell, char)>, ghost done: set<nat>)
      returns (ok: bool, ghost pairs': set<(Cell, char)>)
      requires sid in forced && Seeded(pairs, done)
      modifies this`letters
      ensures !ok ==> Clash(ForcedPairs(slots, forced))
      ensures ok ==> Seeded(pairs', done + {sid})
    {
      var cells := slots[sid].cells;
      var w := forced[sid];
      pairs' := pairs;
      for i := 0 to |cells|
        invariant Seeded(pairs', done)
        invariant forall j :: 0 <= j < i ==> (cells[j], w[j]) in pairs'
      {
        assert (cells[i], w[i]) in ForcedPairs(slots, forced);
        if cells[i] in letters && letters[cells[i]] != w[i] {
          assert (cells[i], letters[cells[i]]) in pairs';
          return false, pairs';
        }
        letters := letters[cells[i] := w[i]];
        pairs' := pairs' + {(cells[i], w[i])};
      }
      return true, pairs';
    }

    ghost predicate Seeded(pairs: set<(Cell, char)>, done: set<nat>)
      reads this
    {
      && ForcedFit(slots, forced)
      && pairs <= ForcedPairs(slots, forced)
      && (forall p :: p in pairs ==> p.0 in letters && letters[p.0] == p.1)
      && (forall c :: c in letters ==> (c, letters[c]) in pairs)
      && (forall s, i :: s in done && s in forced && 0 <= i < |slots[s].cells| ==> (slots[s].cells[i], forced[s][i]) in pairs)
    }

    lemma SeededAll(pairs: set<(Cell, char)>)
      requires Seeded(pairs, forced.Keys) && assign == forced
      ensures !Clash(ForcedPairs(slots, forced))
      ensures Fits(slots, assign, letters)
    {
      forall p | p in ForcedPairs(slots, forced) ensures p in pairs {
        var s, i :| s in forced && s < |slots| && 0 <= i < |slots[s].cells| && i < |forced[s]|
                    && p == (slots[s].cells[i], forced[s][i]);
      }
    }
  }

  /** `[s.sid for s in slots if s.sid not in assign]` over slots[..n]. */
  function Unassigned(slots: seq<Slot>, keys: set<nat>, n: nat): (r: seq<nat>)
    requires SidsAreIndices(slots) && n <= |slots|
    ensures NoDup(r)
    ensures forall x: nat :: x in r <==> x < n && x !in keys
    ensures forall j :: 0 <= j < |r| ==> r[j] < n
  {
    if n == 0 then []
    else
      var init := Unassigned(slots, keys, n - 1);
      var r := init + (if slots[n - 1].sid !in keys then [slots[n - 1].sid] else []);
      assert forall j :: 0 <= j < |init| ==> r[j] == init[j];
      r
  }

  /** `solve(slots, forced)` / `solve_fill(slots, forced)`: None when two
      forced words disagree at a cell; otherwise a completed fill, or None
      when the search fails. */
  method Solve(slots: seq<Slot>, forced: map<nat, string>, words: map<nat, seq<string>>,
               indexed: bool, perm: seq<string> -> seq<string>)
    returns (r: Option<map<nat, string>>)
    requires SidsAreIndices(slots) && WordsFit(words) && Reorders(perm) && ForcedFit(slots, forced)
    ensures Clash(ForcedPairs(slots, forced)) ==> r.None?
    ensures r.Some? ==> Solution(slots, forced, words, r.value)
  {
    var f := new Filler(slots, forced, words, indexed, perm);
    var ok := f.Seed();
    if !ok {
      return None;
    }
    assert f.Valid();
    ok := f.Bt();
    if !ok {
      return None;
    }
    StateSolution(slots, forced, words, f.letters, f.assign, f.used);
    return Some(f.assign);
  }
}
