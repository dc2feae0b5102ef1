/** The order in which the free-form placers try their words:
    `sorted(words, key=lambda x: (-len(x[1]), x[1]))`, longest first and
    alphabetically among equal lengths (Python's code-point comparison of
    strings). */
module Order {

  /** A word list entry `(clue, answer)`. */
  type Clued = (string, string)

  /** Python's `a <= b` on strings: a prefix of b, or smaller at the first
      difference. */
  predicate LexLe(a: string, b: string)
  {
    |a| == 0 || (|b| > 0 && (a[0] < b[0] || (a[0] == b[0] && LexLe(a[1..], b[1..]))))
  }

  lemma {:induction false} LexTotal(a: string, b: string)
    ensures LexLe(a, b) || LexLe(b, a)
  {
    if |a| > 0 && |b| > 0 && a[0] == b[0] {
      LexTotal(a[1..], b[1..]);
    }
  }

  lemma {:induction false} LexAntisymmetric(a: string, b: string)
    requires LexLe(a, b) && LexLe(b, a)
    ensures a == b
  {
    if |a| > 0 && |b| > 0 {
      LexAntisymmetric(a[1..], b[1..]);
      assert a == [a[0]] + a[1..] && b == [b[0]] + b[1..];
    }
  }

  lemma {:induction false} LexTransitive(a: string, b: string, c: string)
    requires LexLe(a, b) && LexLe(b, c)
    ensures LexLe(a, c)
  {
    if |a| > 0 && |b| > 0 && |c| > 0 && a[0] == b[0] && b[0] == c[0] {
      LexTransitive(a[1..], b[1..], c[1..]);
    }
  }

  /** Key order `(-len(answer), answer)`. */
  predicate KeyLe(x: Clued, y: Clued)
  {
    |x.1| > |y.1| || (|x.1| == |y.1| && LexLe(x.1, y.1))
  }

  predicate Sorted(s: seq<Clued>)
  {
    forall i, j :: 0 <= i < j < |s| ==> KeyLe(s[i], s[j])
  }

  /** Appending an entry whose key is not smaller than any other keeps the
      list sorted. */
  lemma SortedSnoc(s: seq<Clued>, e: Clued)
    requires Sorted(s) && forall k :: 0 <= k < |s| ==> KeyLe(s[k], e)
    ensures Sorted(s + [e])
  {
  }

  /** Entries of a sorted list t sit at or below its last entry; so does an
      entry e ordered before the last. */
  lemma BelowLast(t: seq<Clued>, e: Clued, s0: seq<Clued>)
    requires t != [] && Sorted(t) && !KeyLe(t[|t| - 1], e)
    requires multiset(s0) == multiset(t[..|t| - 1]) + multiset{e}
    ensures forall k :: 0 <= k < |s0| ==> KeyLe(s0[k], t[|t| - 1])
  {
    var last := t[|t| - 1];
    LexTotal(last.1, e.1);
    forall k | 0 <= k < |s0| ensures KeyLe(s0[k], last) {
      assert s0[k] in multiset(s0);
      if s0[k] != e {
        assert s0[k] in multiset(t[..|t| - 1]);
        var m :| 0 <= m < |t| - 1 && t[m] == s0[k];
      }
    }
  }

  /** Stable insertion of e behind every entry whose key is not larger. */
  function Insert(t: seq<Clued>, e: Clued): (s: seq<Clued>)
    requires Sorted(t)
    ensures Sorted(s)
    ensures multiset(s) == multiset(t) + multiset{e}
    ensures |s| == |t| + 1
  {
    if t == [] || KeyLe(t[|t| - 1], e) then
      assert forall k :: 0 <= k < |t| ==> KeyLe(t[k], e) by {
        forall k | 0 <= k < |t| ensures KeyLe(t[k], e) {
          if k < |t| - 1 && |t[k].1| == |e.1| {
            LexTransitive(t[k].1, t[|t| - 1].1, e.1);
          }
        }
      }
      SortedSnoc(t, e);
      t + [e]
    else
      var last := t[|t| - 1];
      var s0 := Insert(t[..|t| - 1], e);
      assert t == t[..|t| - 1] + [last];
      BelowLast(t, e, s0);
      SortedSnoc(s0, last);
      s0 + [last]
  }

  /** `sorted(words, key=lambda x: (-len(x[1]), x[1]))`. */
  function ByLength(t: seq<Clued>): (s: seq<Clued>)
    ensures Sorted(s)
    ensures multiset(s) == multiset(t)
    ensures |s| == |t|
  {
    if t == [] then []
    else
      assert t == t[..|t| - 1] + [t[|t| - 1]];
      Insert(ByLength(t[..|t| - 1]), t[|t| - 1])
  }

  /** The sorted list starts with a longest answer. */
  lemma LongestFirst(t: seq<Clued>, k: int)
    requires 0 <= k < |t|
    ensures |ByLength(t)[0].1| >= |t[k].1|
  {
    var s := ByLength(t);
    assert t[k] in multiset(t);
    assert t[k] in multiset(s);
    var m :| 0 <= m < |s| && s[m] == t[k];
    if m > 0 {
      assert KeyLe(s[0], s[m]);
    }
  }

  /** `{w for _, w in t}`: the answers of a clue list. */
  function Answers(t: seq<Clued>): (ws: set<string>)
    ensures forall w :: w in ws <==> exists k :: 0 <= k < |t| && t[k].1 == w
  {
    set k | 0 <= k < |t| :: t[k].1
  }
}
