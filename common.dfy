/** Shared vocabulary of the crossword builders: optional results, grid
    coordinates, directions, and facts about duplicate-free sequences. */
module Common {

  datatype Option<T> = None | Some(value: T)

  /** A grid coordinate (row, column). The sparse canvas allows negative
      coordinates while probing candidate positions. */
  type Cell = (int, int)

  datatype Dir = Across | Down

  /** Row and column step of a direction. */
  function Delta(d: Dir): (int, int)
  {
    if d == Across then (0, 1) else (1, 0)
  }

  /** The cell `i` steps from (r, c) in direction d. */
  function CellAt(r: int, c: int, d: Dir, i: int): Cell
  {
    if d == Across then (r, c + i) else (r + i, c)
  }

  predicate NoDup<T(==)>(s: seq<T>)
  {
    forall i, j :: 0 <= i < j < |s| ==> s[i] != s[j]
  }

  function SetOf<T>(s: seq<T>): set<T>
  {
    set x | x in s
  }

  /** A duplicate-free sequence has as many distinct elements as entries. */
  lemma {:induction false} NoDupCard<T>(s: seq<T>)
    requires NoDup(s)
    ensures |SetOf(s)| == |s|
  {
    if s != [] {
      var t := s[1..];
      assert NoDup(t) by {
        forall i, j | 0 <= i < j < |t| ensures t[i] != t[j] {
          assert t[i] == s[i + 1] && t[j] == s[j + 1];
        }
      }
      NoDupCard(t);
      assert SetOf(s) == {s[0]} + SetOf(t);
      assert forall k :: 0 <= k < |t| ==> t[k] == s[k + 1] != s[0];
    }
  }

  /** A sequence with no more distinct elements than entries has no
      duplicate; the converse direction of NoDupCard. */
  lemma {:induction false} CardNoDup<T>(s: seq<T>)
    requires |SetOf(s)| == |s|
    ensures NoDup(s)
  {
    if s != [] {
      var t := s[1..];
      assert SetOf(s) == {s[0]} + SetOf(t);
      SetOfCardBound(t);
      assert s[0] in SetOf(t) ==> SetOf(s) == SetOf(t);
      assert |SetOf(t)| == |t|;
      CardNoDup(t);
      forall i, j | 0 <= i < j < |s| ensures s[i] != s[j] {
        if i == 0 {
          assert s[j] == t[j - 1];
        } else {
          assert s[i] == t[i - 1] && s[j] == t[j - 1];
        }
      }
    }
  }

  lemma {:induction false} SetOfCardBound<T>(s: seq<T>)
    ensures |SetOf(s)| <= |s|
  {
    if s != [] {
      SetOfCardBound(s[1..]);
      assert SetOf(s) == {s[0]} + SetOf(s[1..]);
    }
  }

  function Min(a: int, b: int): int
  {
    if a < b then a else b
  }
}
