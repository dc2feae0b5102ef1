/** The word list of the fixed-size builders: which dictionary words are
    admitted (`load_words`), the per-length buckets with the theme answers
    added, and the per-position letter index of the 15x15 builder
    (`build_indexes`). */
module Lexicon {
  import opened Common

  const Vowels: string := "AEIOUY"
  const Rare: string := "JQXZ"

  predicate IsLowerWord(w: string)
  {
    forall i :: 0 <= i < |w| ==> 'a' <= w[i] <= 'z'
  }

  predicate IsUpperWord(w: string)
  {
    forall i :: 0 <= i < |w| ==> 'A' <= w[i] <= 'Z'
  }

  function UpperChar(ch: char): char
    requires 'a' <= ch <= 'z'
  {
    (ch as int - 32) as char
  }

  /** `w.upper()` of an all-lower-case word. */
  function Upper(w: string): (u: string)
    requires IsLowerWord(w)
    ensures |u| == |w| && IsUpperWord(u)
    ensures forall i :: 0 <= i < |w| ==> u[i] == UpperChar(w[i])
  {
    if w == [] then [] else [UpperChar(w[0])] + Upper(w[1..])
  }

  /** `sum(ch in s for ch in w)`. */
  function CountIn(w: string, s: string): nat
  {
    if w == [] then 0 else (if w[0] in s then 1 else 0) + CountIn(w[1..], s)
  }

  lemma {:induction false} CountInZero(w: string, s: string)
    ensures CountIn(w, s) == 0 <==> forall i :: 0 <= i < |w| ==> w[i] !in s
  {
    if w != [] {
      CountInZero(w[1..], s);
      assert forall i :: 1 <= i < |w| ==> w[i] == w[1..][i - 1];
    }
  }

  lemma {:induction false} CountInBound(w: string, s: string)
    ensures CountIn(w, s) <= |w|
  {
    if w != [] {
      CountInBound(w[1..], s);
    }
  }

  /** `len(set(w))`. */
  function Distinct(w: string): nat
  {
    |SetOf(w)|
  }

  /** The filter of `load_words` applied to one stripped dictionary line:
      the upper-cased word when it is admitted. `size` is the grid size
      (13 or 15); `capRare` adds the 15x15 builder's limit of two letters
      from J, Q, X, Z. `isalpha() and lower() == w` is taken over ASCII,
      where it means "lower-case letters only, and at least one". */
  function Admit(raw: string, size: nat, capRare: bool): (r: Option<string>)
    ensures r.Some? ==> IsLowerWord(raw) && r.value == Upper(raw)
    ensures r.Some? ==> 3 <= |r.value| <= size && IsUpperWord(r.value)
  {
    if raw == [] || !IsLowerWord(raw) then None
    else
      var w := Upper(raw);
      if |w| < 3 || |w| > size then None
      else if CountIn(w, Vowels) == 0 then None
      else if Distinct(w) <= 2 && |w| > 4 then None
      else if capRare && CountIn(w, Rare) > 2 then None
      else Some(w)
  }

  /** The admission test in plain words: a lower-case word of 3..size
      letters with a vowel (Y counted), not made of two or fewer distinct
      letters when longer than 4, and (with capRare) with at most two
      letters from J, Q, X, Z. */
  lemma {:induction false} AdmitSpec(raw: string, size: nat, capRare: bool)
    ensures Admit(raw, size, capRare).Some? <==>
      && IsLowerWord(raw) && 3 <= |raw| <= size
      && (exists i :: 0 <= i < |raw| && Upper(raw)[i] in Vowels)
      && !(Distinct(Upper(raw)) <= 2 && |raw| > 4)
      && !(capRare && CountIn(Upper(raw), Rare) > 2)
  {
    if IsLowerWord(raw) && raw != [] {
      var w := Upper(raw);
      CountInZero(w, Vowels);
      assert |w| == |raw|;
      assert (exists i :: 0 <= i < |raw| && w[i] in Vowels) <==> CountIn(w, Vowels) != 0;
      assert Admit(raw, size, capRare) ==
        if |w| < 3 || |w| > size then None
        else if CountIn(w, Vowels) == 0 then None
        else if Distinct(w) <= 2 && |w| > 4 then None
        else if capRare && CountIn(w, Rare) > 2 then None
        else Some(w);
    }
  }

  /** The 15x15 builder admits fewer words than the 13x13 one, length
      aside: every word it admits up to 13 letters the other admits too. */
  lemma RareCapStricter(raw: string)
    requires Admit(raw, 15, true).Some? && |raw| <= 13
    ensures Admit(raw, 13, false) == Admit(raw, 15, true)
  {
  }

  /** Distinct lines give distinct words: upper-casing loses nothing. */
  lemma UpperInjective(a: string, b: string)
    requires IsLowerWord(a) && IsLowerWord(b) && Upper(a) == Upper(b)
    ensures a == b
  {
    assert |a| == |b|;
    forall i | 0 <= i < |a| ensures a[i] == b[i] {
      assert UpperChar(a[i]) == UpperChar(b[i]);
    }
  }

  /** The words of length L. */
  function Bucket(byLen: map<nat, set<string>>, L: nat): set<string>
  {
    if L in byLen then byLen[L] else {}
  }

  /** `by_len[len(w)].add(w)`. */
  function AddWord(byLen: map<nat, set<string>>, w: string): (r: map<nat, set<string>>)
    ensures forall L: nat, x :: x in Bucket(r, L) <==> x in Bucket(byLen, L) || (x == w && L == |w|)
  {
    byLen[|w| := Bucket(byLen, |w|) + {w}]
  }

  /** The words admitted from lines[..n]. */
  function AdmittedUpTo(lines: seq<string>, n: nat, size: nat, capRare: bool): (ws: set<string>)
    requires n <= |lines|
    ensures forall w :: w in ws <==> exists j :: 0 <= j < n && Admit(lines[j], size, capRare) == Some(w)
  {
    if n == 0 then {}
    else
      var r := Admit(lines[n - 1], size, capRare);
      AdmittedUpTo(lines, n - 1, size, capRare) + (if r.Some? then {r.value} else {})
  }

  /** The dictionary pass of `load_words`: the admitted words by length. */
  method AdmitLines(lines: seq<string>, size: nat, capRare: bool) returns (byLen: map<nat, set<string>>)
    ensures forall L: nat, w :: w in Bucket(byLen, L) <==> |w| == L && w in AdmittedUpTo(lines, |lines|, size, capRare)
  {
    byLen := map[];
    for k := 0 to |lines|
      invariant forall L: nat, w :: w in Bucket(byLen, L) <==> |w| == L && w in AdmittedUpTo(lines, k, size, capRare)
    {
      var r := Admit(lines[k], size, capRare);
      assert AdmittedUpTo(lines, k + 1, size, capRare) ==
             AdmittedUpTo(lines, k, size, capRare) + (if r.Some? then {r.value} else {});
      if r.Some? {
        byLen := AddWord(byLen, r.value);
      }
    }
  }

  /** `load_words` over a supplied list of stripped lines: admitted words
      by length, and every theme answer added to its length. */
  method LoadWords(lines: seq<string>, size: nat, capRare: bool, answers: seq<string>)
    returns (byLen: map<nat, set<string>>)
    ensures forall L: nat, w :: w in Bucket(byLen, L) <==>
              |w| == L && (w in answers || exists k :: 0 <= k < |lines| && Admit(lines[k], size, capRare) == Some(w))
  {
    byLen := AdmitLines(lines, size, capRare);
    ghost var admitted := AdmittedUpTo(lines, |lines|, size, capRare);
    for k := 0 to |answers|
      invariant forall L: nat, w :: w in Bucket(byLen, L) <==> |w| == L && (w in answers[..k] || w in admitted)
    {
      byLen := AddWord(byLen, answers[k]);
      assert answers[..k + 1] == answers[..k] + [answers[k]];
    }
    assert answers[..|answers|] == answers;
  }

  /** One letter table per position: `pos[p][ch]` is the set of word ids
      with ch at p (`pos[p].get(ch, set())` when absent). */
  type Positions = seq<map<char, set<nat>>>

  function Lookup(pos: Positions, p: nat, ch: char): set<nat>
  {
    if p < |pos| && ch in pos[p] then pos[p][ch] else {}
  }

  /** `pos[p][ch].add(i)` for every position p of w. */
  function AddId(pos: Positions, i: nat, w: string): (pos': Positions)
    requires |w| == |pos|
    ensures |pos'| == |pos|
  {
    seq(|pos|, p requires 0 <= p < |pos| => pos[p][w[p] := Lookup(pos, p, w[p]) + {i}])
  }

  /** The index of ws[..n], built word by word in id order. */
  function BuildPositions(ws: seq<string>, L: nat, n: nat): (pos: Positions)
    requires n <= |ws|
    requires forall i :: 0 <= i < |ws| ==> |ws[i]| == L
    ensures |pos| == L
  {
    if n == 0 then seq(L, _ => map[])
    else AddId(BuildPositions(ws, L, n - 1), n - 1, ws[n - 1])
  }

  /** The index is exact: id i is listed under (p, ch) exactly when word i
      has ch at position p. */
  lemma {:induction false} PositionsExact(ws: seq<string>, L: nat, n: nat, p: nat, ch: char, i: nat)
    requires n <= |ws|
    requires forall j :: 0 <= j < |ws| ==> |ws[j]| == L
    requires p < L
    ensures i in Lookup(BuildPositions(ws, L, n), p, ch) <==> i < n && ws[i][p] == ch
  {
    if n > 0 {
      PositionsExact(ws, L, n - 1, p, ch, i);
    }
  }

  /** `build_indexes`: for each length, its word list and position index.
      Every bucket holds words of its key's length, as the loader builds
      them. */
  function BuildIndexes(words: map<nat, seq<string>>): (idx: map<nat, (seq<string>, Positions)>)
    requires forall L :: L in words ==> forall i :: 0 <= i < |words[L]| ==> |words[L][i]| == L
    ensures idx.Keys == words.Keys
    ensures forall L :: L in idx ==> idx[L].0 == words[L] && |idx[L].1| == L
  {
    map L | L in words :: (words[L], BuildPositions(words[L], L, |words[L]|))
  }

  /** Looking up the built index answers "which words have ch at p". */
  lemma IndexLookup(words: map<nat, seq<string>>, L: nat, p: nat, ch: char, i: nat)
    requires forall L :: L in words ==> forall i :: 0 <= i < |words[L]| ==> |words[L][i]| == L
    requires L in words && p < L
    ensures i in Lookup(BuildIndexes(words)[L].1, p, ch) <==> i < |words[L]| && words[L][i][p] == ch
  {
    PositionsExact(words[L], L, |words[L]|, p, ch, i);
  }
}
