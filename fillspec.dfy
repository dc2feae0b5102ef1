/** What the fill search of both fixed-size builders works with: the
    `letters` board, agreement of a word with it, the candidate lists of a
    slot, and the clash test on the forced theme words. */
module FillSpec {
  import opened Common
  import opened Slots

  type Letters = map<Cell, char>

  /** w fits the cells and agrees with every letter already fixed there. */
  predicate Agrees(letters: Letters, cells: seq<Cell>, w: string)
  {
    && |w| == |cells|
    && forall i :: 0 <= i < |cells| && cells[i] in letters ==> letters[cells[i]] == w[i]
  }

  /** Every cell holds w's letter. */
  predicate Covered(letters: Letters, cells: seq<Cell>, w: string)
  {
    && |w| == |cells|
    && forall i :: 0 <= i < |cells| ==> cells[i] in letters && letters[cells[i]] == w[i]
  }

  lemma CoveredAgrees(letters: Letters, cells: seq<Cell>, w: string)
    requires Covered(letters, cells, w)
    ensures Agrees(letters, cells, w)
  {
  }

  /** The words of ws, in order, that agree with the board and are not
      used. */
  function Matching(ws: seq<string>, letters: Letters, cells: seq<Cell>, used: set<string>): (r: seq<string>)
    ensures |r| <= |ws|
    ensures forall w :: w in r <==> w in ws && Agrees(letters, cells, w) && w !in used
  {
    if ws == [] then []
    else
      var w := ws[|ws| - 1];
      var init := ws[..|ws| - 1];
      assert ws == init + [w];
      Matching(init, letters, cells, used) + (if Agrees(letters, cells, w) && w !in used then [w] else [])
  }

  /** `out[:cap]`. */
  function Take<T>(s: seq<T>, cap: nat): (r: seq<T>)
    ensures |r| <= cap && |r| <= |s|
    ensures forall x :: x in r ==> x in s
    ensures |s| <= cap ==> r == s
  {
    if |s| <= cap then s else s[..cap]
  }

  /** The word list of length L (`WORDS.get(L, [])`). */
  function WordsOf(words: map<nat, seq<string>>, L: nat): seq<string>
  {
    if L in words then words[L] else []
  }

  /** `perm` only reorders: the shuffle of the 13x13 builder, or the
      heuristic sort of the 15x15 one, whose order is left open here. */
  ghost predicate Reorders(perm: seq<string> -> seq<string>)
  {
    forall s: seq<string> :: multiset(perm(s)) == multiset(s)
  }

  /** A freshly computed candidate list for a slot with these cells. */
  function Candidates(words: map<nat, seq<string>>, letters: Letters, cells: seq<Cell>, used: set<string>,
                      perm: seq<string> -> seq<string>, cap: nat): seq<string>
  {
    Take(perm(Matching(WordsOf(words, |cells|), letters, cells, used)), cap)
  }

  /** Candidates are words of the slot's length from the list, agree with
      every fixed letter, are not used, and are at most cap many. */
  lemma CandidatesSound(words: map<nat, seq<string>>, letters: Letters, cells: seq<Cell>, used: set<string>,
                        perm: seq<string> -> seq<string>, cap: nat, w: string)
    requires Reorders(perm)
    requires w in Candidates(words, letters, cells, used, perm, cap)
    ensures w in WordsOf(words, |cells|) && Agrees(letters, cells, w) && w !in used
  {
    var m := Matching(WordsOf(words, |cells|), letters, cells, used);
    assert w in multiset(perm(m));
  }

  lemma CandidatesBound(words: map<nat, seq<string>>, letters: Letters, cells: seq<Cell>, used: set<string>,
                        perm: seq<string> -> seq<string>, cap: nat)
    ensures |Candidates(words, letters, cells, used, perm, cap)| <= cap
  {
  }

  /** Nothing is lost when the cap does not bite: then every agreeing,
      unused word of the list is a candidate. */
  lemma CandidatesComplete(words: map<nat, seq<string>>, letters: Letters, cells: seq<Cell>, used: set<string>,
                           perm: seq<string> -> seq<string>, cap: nat, w: string)
    requires Reorders(perm)
    requires |Matching(WordsOf(words, |cells|), letters, cells, used)| <= cap
    requires w in WordsOf(words, |cells|) && Agrees(letters, cells, w) && w !in used
    ensures w in Candidates(words, letters, cells, used, perm, cap)
  {
    var m := Matching(WordsOf(words, |cells|), letters, cells, used);
    assert |perm(m)| == |multiset(perm(m))| == |multiset(m)| == |m|;
    assert w in multiset(perm(m));
  }

  /** The letters the forced words write: (cell, letter) for every cell of
      every forced slot. */
  ghost function ForcedPairs(slots: seq<Slot>, forced: map<nat, string>): set<(Cell, char)>
  {
    set sid, i | sid in forced && sid < |slots| && 0 <= i < |slots[sid].cells| && i < |forced[sid]|
      :: (slots[sid].cells[i], forced[sid][i])
  }

  /** Two written letters disagree at one cell. */
  ghost predicate Clash(pairs: set<(Cell, char)>)
  {
    exists p, q :: p in pairs && q in pairs && p.0 == q.0 && p.1 != q.1
  }

  /** Every forced sid names a slot its word fits. */
  predicate ForcedFit(slots: seq<Slot>, forced: map<nat, string>)
  {
    forall sid :: sid in forced ==> sid < |slots| && |forced[sid]| == |slots[sid].cells|
  }

  /** A completed fill: every slot has a word of its length, slots that
      share a cell put the same letter there, the forced words are kept,
      every other word comes from the list, and no word other than a
      forced one repeats. */
  ghost predicate Solution(slots: seq<Slot>, forced: map<nat, string>, words: map<nat, seq<string>>, m: map<nat, string>)
  {
    && (forall sid :: 0 <= sid < |slots| ==> sid in m)
    && (forall sid :: sid in m ==> sid < |slots| && |m[sid]| == |slots[sid].cells|)
    && (forall s1, s2, i, j ::
          (s1 in m && s2 in m && 0 <= i < |slots[s1].cells| && 0 <= j < |slots[s2].cells|
           && slots[s1].cells[i] == slots[s2].cells[j]) ==> m[s1][i] == m[s2][j])
    && (forall sid :: sid in forced ==> sid in m && m[sid] == forced[sid])
    && (forall sid :: sid in m && sid !in forced ==> m[sid] in WordsOf(words, |slots[sid].cells|))
    && (forall s1, s2 :: s1 in m && s2 in m && s1 != s2 && s1 !in forced ==> m[s1] != m[s2])
  }
}
