/** `build_crossings` of the 13x13 builder: for every cell shared by
    exactly two slot positions, each of the two slots records where it
    crosses the other. */
module Crossings {
  import opened Common
  import opened Slots

  /** A reference to position idx of slot sid. */
  type Ref = (nat, nat)

  /** A crossing seen from one slot: (own index, other sid, other index). */
  type Cross = (nat, nat, nat)

  /** The references of slot s to cell x among its first k cells. */
  function SlotRefs(s: Slot, x: Cell, k: nat): seq<Ref>
    requires k <= |s.cells|
  {
    if k == 0 then [] else SlotRefs(s, x, k - 1) + (if s.cells[k - 1] == x then [(s.sid, k - 1)] else [])
  }

  /** `cell_to_slots[x]` after the slots slots[..n]. */
  function RefsUpTo(slots: seq<Slot>, x: Cell, n: nat): seq<Ref>
    requires n <= |slots|
  {
    if n == 0 then [] else RefsUpTo(slots, x, n - 1) + SlotRefs(slots[n - 1], x, |slots[n - 1].cells|)
  }

  /** Every reference to cell x, in slot order and then position order. */
  function Refs(slots: seq<Slot>, x: Cell): seq<Ref>
  {
    RefsUpTo(slots, x, |slots|)
  }

  /** r holds exactly the two references a and b, in either order. */
  predicate IsPair(r: seq<Ref>, a: Ref, b: Ref)
  {
    |r| == 2 && ((r[0] == a && r[1] == b) || (r[0] == b && r[1] == a))
  }

  /** Slot s crosses slot t at its index i and t's index j: some cell is
      referenced exactly by these two positions. */
  ghost predicate Crossing(slots: seq<Slot>, s: nat, i: nat, t: nat, j: nat)
  {
    exists x :: IsPair(Refs(slots, x), (s, i), (t, j))
  }

  /** `cross[s]`, empty when absent. */
  function Get(cross: map<nat, seq<Cross>>, s: nat): seq<Cross>
  {
    if s in cross then cross[s] else []
  }

  /** `cross[s].append(e)`. */
  function Add(cross: map<nat, seq<Cross>>, s: nat, e: Cross): (r: map<nat, seq<Cross>>)
    ensures Get(r, s) == Get(cross, s) + [e]
    ensures forall s' :: s' != s ==> Get(r, s') == Get(cross, s')
  {
    cross[s := Get(cross, s) + [e]]
  }

  /** The crossings recorded from the cells keys[..k] of the reference table. */
  ghost predicate CrossesFrom(refs: map<Cell, seq<Ref>>, keys: seq<Cell>, k: nat, cross: map<nat, seq<Cross>>)
    requires k <= |keys| && forall m :: 0 <= m < |keys| ==> keys[m] in refs
  {
    forall s: nat, i: nat, t: nat, j: nat :: (i, t, j) in Get(cross, s) <==>
      exists m :: 0 <= m < k && IsPair(refs[keys[m]], (s, i), (t, j))
  }

  /** The reference table after slots[..n] and the first k cells of
      slots[n]: every referenced cell is a key, listed once in first
      insertion order. */
  ghost predicate TableAt(slots: seq<Slot>, n: nat, k: nat, refs: map<Cell, seq<Ref>>, keys: seq<Cell>)
    requires n < |slots| && k <= |slots[n].cells|
  {
    && NoDup(keys) && SetOf(keys) == refs.Keys
    && forall x :: (x in refs ==> refs[x] == RefsUpTo(slots, x, n) + SlotRefs(slots[n], x, k))
                && (x !in refs ==> RefsUpTo(slots, x, n) + SlotRefs(slots[n], x, k) == [])
  }

  /** The whole table after slots[..n]. */
  ghost predicate Table(slots: seq<Slot>, n: nat, refs: map<Cell, seq<Ref>>, keys: seq<Cell>)
    requires n <= |slots|
  {
    && NoDup(keys) && SetOf(keys) == refs.Keys
    && forall x :: (x in refs ==> refs[x] == RefsUpTo(slots, x, n))
                && (x !in refs ==> RefsUpTo(slots, x, n) == [])
  }

  /** The first loop of `build_crossings`: `cell_to_slots`, with its keys
      in insertion order. */
  method CellRefs(slots: seq<Slot>) returns (refs: map<Cell, seq<Ref>>, keys: seq<Cell>)
    ensures Table(slots, |slots|, refs, keys)
  {
    refs, keys := map[], [];
    for n := 0 to |slots|
      invariant Table(slots, n, refs, keys)
    {
      refs, keys := SlotCells(slots, n, refs, keys);
    }
  }

  /** The inner loop over the cells of slots[n]. */
  method SlotCells(slots: seq<Slot>, n: nat, refs0: map<Cell, seq<Ref>>, keys0: seq<Cell>)
    returns (refs: map<Cell, seq<Ref>>, keys: seq<Cell>)
    requires n < |slots| && Table(slots, n, refs0, keys0)
    ensures Table(slots, n + 1, refs, keys)
  {
    refs, keys := refs0, keys0;
    var s := slots[n];
    TableStart(slots, n, refs, keys);
    for idx := 0 to |s.cells|
      invariant TableAt(slots, n, idx, refs, keys)
    {
      var x := s.cells[idx];
      ghost var refs1, keys1 := refs, keys;
      if x !in refs {
        keys := keys + [x];
        refs := refs[x := []];
      }
      refs := refs[x := refs[x] + [(s.sid, idx)]];
      TableStep(slots, n, idx, refs1, keys1, refs, keys);
    }
    TableEnd(slots, n, refs, keys);
  }

  lemma TableStart(slots: seq<Slot>, n: nat, refs: map<Cell, seq<Ref>>, keys: seq<Cell>)
    requires n < |slots| && Table(slots, n, refs, keys)
    ensures TableAt(slots, n, 0, refs, keys)
  {
    forall x ensures RefsUpTo(slots, x, n) + SlotRefs(slots[n], x, 0) == RefsUpTo(slots, x, n) {
    }
  }

  lemma TableEnd(slots: seq<Slot>, n: nat, refs: map<Cell, seq<Ref>>, keys: seq<Cell>)
    requires n < |slots| && TableAt(slots, n, |slots[n].cells|, refs, keys)
    ensures Table(slots, n + 1, refs, keys)
  {
    forall x ensures RefsUpTo(slots, x, n + 1) == RefsUpTo(slots, x, n) + SlotRefs(slots[n], x, |slots[n].cells|) {
    }
  }

  /** Recording position idx of slots[n] under its cell. */
  lemma TableStep(slots: seq<Slot>, n: nat, idx: nat, refs: map<Cell, seq<Ref>>, keys: seq<Cell>,
                  refs': map<Cell, seq<Ref>>, keys': seq<Cell>)
    requires n < |slots| && idx < |slots[n].cells| && TableAt(slots, n, idx, refs, keys)
    requires var x := slots[n].cells[idx];
      && keys' == (if x in refs then keys else keys + [x])
      && refs' == refs[x := (if x in refs then refs[x] else []) + [(slots[n].sid, idx)]]
    ensures TableAt(slots, n, idx + 1, refs', keys')
  {
    var y := slots[n].cells[idx];
    if y !in refs {
      KeysSnoc(keys, refs, y);
    }
    assert SetOf(keys') == refs'.Keys;
    forall x ensures (x in refs' ==> refs'[x] == RefsUpTo(slots, x, n) + SlotRefs(slots[n], x, idx + 1))
                  && (x !in refs' ==> RefsUpTo(slots, x, n) + SlotRefs(slots[n], x, idx + 1) == []) {
      RefsStepAt(slots, n, idx, refs, refs', x);
    }
  }

  /** TableStep at one cell x. */
  lemma RefsStepAt(slots: seq<Slot>, n: nat, idx: nat, refs: map<Cell, seq<Ref>>, refs': map<Cell, seq<Ref>>, x: Cell)
    requires n < |slots| && idx < |slots[n].cells|
    requires x in refs ==> refs[x] == RefsUpTo(slots, x, n) + SlotRefs(slots[n], x, idx)
    requires x !in refs ==> RefsUpTo(slots, x, n) + SlotRefs(slots[n], x, idx) == []
    requires var y := slots[n].cells[idx];
      refs' == refs[y := (if y in refs then refs[y] else []) + [(slots[n].sid, idx)]]
    ensures x in refs' ==> refs'[x] == RefsUpTo(slots, x, n) + SlotRefs(slots[n], x, idx + 1)
    ensures x !in refs' ==> RefsUpTo(slots, x, n) + SlotRefs(slots[n], x, idx + 1) == []
  {
    var y, r := slots[n].cells[idx], (slots[n].sid, idx);
    assert SlotRefs(slots[n], x, idx + 1) == SlotRefs(slots[n], x, idx) + (if x == y then [r] else []);
    if x == y {
      assert refs'[x] == (if x in refs then refs[x] else []) + [r];
    }
  }

  /** Appending a new key keeps the keys distinct and adds it to their set. */
  lemma KeysSnoc(keys: seq<Cell>, refs: map<Cell, seq<Ref>>, y: Cell)
    requires NoDup(keys) && SetOf(keys) == refs.Keys && y !in refs
    ensures NoDup(keys + [y]) && SetOf(keys + [y]) == refs.Keys + {y}
  {
    assert y !in keys;
    assert SetOf(keys + [y]) == SetOf(keys) + {y};
    var keys' := keys + [y];
    forall i, j | 0 <= i < j < |keys'| ensures keys'[i] != keys'[j] {
      if j < |keys| {
        assert keys'[i] == keys[i] && keys'[j] == keys[j];
      } else {
        assert keys'[i] in keys;
      }
    }
  }

  /** The second loop of `build_crossings`: for each cell with exactly two
      references, record the crossing in both slots. */
  method Crosses(refs: map<Cell, seq<Ref>>, keys: seq<Cell>) returns (cross: map<nat, seq<Cross>>)
    requires forall m :: 0 <= m < |keys| ==> keys[m] in refs
    ensures CrossesFrom(refs, keys, |keys|, cross)
  {
    cross := map[];
    for k := 0 to |keys|
      invariant CrossesFrom(refs, keys, k, cross)
    {
      var r := refs[keys[k]];
      ghost var cross0 := cross;
      if |r| == 2 {
        var (s1, i1) := r[0];
        var (s2, i2) := r[1];
        cross := Add(Add(cross, s1, (i1, s2, i2)), s2, (i2, s1, i1));
      }
      CrossStep(refs, keys, k, cross0, cross);
    }
  }

  /** One cell of the second loop. */
  lemma CrossStep(refs: map<Cell, seq<Ref>>, keys: seq<Cell>, k: nat, cross: map<nat, seq<Cross>>, cross': map<nat, seq<Cross>>)
    requires k < |keys| && forall m :: 0 <= m < |keys| ==> keys[m] in refs
    requires CrossesFrom(refs, keys, k, cross)
    requires var r := refs[keys[k]];
      cross' == if |r| == 2 then Add(Add(cross, r[0].0, (r[0].1, r[1].0, r[1].1)), r[1].0, (r[1].1, r[0].0, r[0].1)) else cross
    ensures CrossesFrom(refs, keys, k + 1, cross')
  {
    var r := refs[keys[k]];
    forall s: nat, i: nat, t: nat, j: nat
      ensures (i, t, j) in Get(cross', s) <==> exists m :: 0 <= m < k + 1 && IsPair(refs[keys[m]], (s, i), (t, j))
    {
      var here := |r| == 2 && ((s, i, t, j) == (r[0].0, r[0].1, r[1].0, r[1].1) || (s, i, t, j) == (r[1].0, r[1].1, r[0].0, r[0].1));
      assert (i, t, j) in Get(cross', s) <==> (i, t, j) in Get(cross, s) || here;
      assert here <==> IsPair(refs[keys[k]], (s, i), (t, j));
      if IsPair(refs[keys[k]], (s, i), (t, j)) {
        assert 0 <= k < k + 1;
      }
    }
  }

  /** `build_crossings(slots)`: (i, t, j) is listed for slot s exactly when
      s and t cross at s's index i and t's index j. */
  method BuildCrossings(slots: seq<Slot>) returns (cross: map<nat, seq<Cross>>)
    ensures forall s: nat, i: nat, t: nat, j: nat :: (i, t, j) in Get(cross, s) <==> Crossing(slots, s, i, t, j)
  {
    var refs, keys := CellRefs(slots);
    assert forall m :: 0 <= m < |keys| ==> keys[m] in refs;
    cross := Crosses(refs, keys);
    CrossesAll(slots, refs, keys, cross);
  }

  /** Every cell is a key of the finished table, so the recorded crossings
      are all the crossings. */
  lemma CrossesAll(slots: seq<Slot>, refs: map<Cell, seq<Ref>>, keys: seq<Cell>, cross: map<nat, seq<Cross>>)
    requires Table(slots, |slots|, refs, keys)
    requires forall m :: 0 <= m < |keys| ==> keys[m] in refs
    requires CrossesFrom(refs, keys, |keys|, cross)
    ensures forall s: nat, i: nat, t: nat, j: nat :: (i, t, j) in Get(cross, s) <==> Crossing(slots, s, i, t, j)
  {
    forall s: nat, i: nat, t: nat, j: nat ensures (i, t, j) in Get(cross, s) <==> Crossing(slots, s, i, t, j) {
      if Crossing(slots, s, i, t, j) {
        var x :| IsPair(Refs(slots, x), (s, i), (t, j));
        assert x in refs;
        var m :| 0 <= m < |keys| && keys[m] == x;
        assert IsPair(refs[keys[m]], (s, i), (t, j));
      }
      if (i, t, j) in Get(cross, s) {
        var m :| 0 <= m < |keys| && IsPair(refs[keys[m]], (s, i), (t, j));
        assert IsPair(Refs(slots, keys[m]), (s, i), (t, j));
      }
    }
  }

  /** Crossing is symmetric: every recorded crossing is recorded from the
      other side too. */
  lemma CrossingSymmetric(slots: seq<Slot>, s: nat, i: nat, t: nat, j: nat)
    requires Crossing(slots, s, i, t, j)
    ensures Crossing(slots, t, j, s, i)
  {
    var x :| IsPair(Refs(slots, x), (s, i), (t, j));
    assert IsPair(Refs(slots, x), (t, j), (s, i));
  }

  /** A reference of the table is a real one: position i of some slot with
      that sid is cell x. */
  lemma {:induction false} RefsUpToSpec(slots: seq<Slot>, x: Cell, n: nat, s: nat, i: nat)
    requires n <= |slots|
    ensures (s, i) in RefsUpTo(slots, x, n) <==>
      exists k :: 0 <= k < n && slots[k].sid == s && i < |slots[k].cells| && slots[k].cells[i] == x
  {
    if n > 0 {
      RefsUpToSpec(slots, x, n - 1, s, i);
      SlotRefsSpec(slots[n - 1], x, |slots[n - 1].cells|, s, i);
    }
  }

  lemma {:induction false} SlotRefsSpec(sl: Slot, x: Cell, k: nat, s: nat, i: nat)
    requires k <= |sl.cells|
    ensures (s, i) in SlotRefs(sl, x, k) <==> sl.sid == s && i < k && sl.cells[i] == x
  {
    if k > 0 {
      SlotRefsSpec(sl, x, k - 1, s, i);
    }
  }

  /** With slot ids in extraction order, no reference is listed twice. */
  lemma {:induction false} RefsUpToNoDup(slots: seq<Slot>, x: Cell, n: nat)
    requires n <= |slots| && forall k :: 0 <= k < |slots| ==> slots[k].sid == k
    ensures NoDup(RefsUpTo(slots, x, n))
    ensures forall e :: e in RefsUpTo(slots, x, n) ==> e.0 < n
  {
    if n > 0 {
      RefsUpToNoDup(slots, x, n - 1);
      var a := RefsUpTo(slots, x, n - 1);
      var b := SlotRefs(slots[n - 1], x, |slots[n - 1].cells|);
      SlotRefsIn(slots[n - 1], x, |slots[n - 1].cells|);
      forall p, q | 0 <= p < q < |a + b| ensures (a + b)[p] != (a + b)[q] {
        if q >= |a| && p < |a| {
          assert (a + b)[p] in a && (a + b)[q] in b;
        }
        if p >= |a| {
          assert (a + b)[p] == b[p - |a|] && (a + b)[q] == b[q - |a|];
        }
      }
      assert forall e :: e in a + b ==> e in a || e in b;
    }
  }

  /** The references of one slot carry its sid and increasing indices
      below k. */
  lemma {:induction false} SlotRefsIn(sl: Slot, x: Cell, k: nat)
    requires k <= |sl.cells|
    ensures forall p :: 0 <= p < |SlotRefs(sl, x, k)| ==> SlotRefs(sl, x, k)[p].0 == sl.sid && SlotRefs(sl, x, k)[p].1 < k
    ensures forall p, q :: 0 <= p < q < |SlotRefs(sl, x, k)| ==> SlotRefs(sl, x, k)[p].1 < SlotRefs(sl, x, k)[q].1
  {
    if k > 0 {
      SlotRefsIn(sl, x, k - 1);
    }
  }

  /** A crossing joins two different positions holding the same cell, and
      no third slot position holds that cell. */
  lemma CrossingShared(slots: seq<Slot>, s: nat, i: nat, t: nat, j: nat)
    requires forall k :: 0 <= k < |slots| ==> slots[k].sid == k
    requires Crossing(slots, s, i, t, j)
    ensures s < |slots| && t < |slots| && (s, i) != (t, j)
    ensures i < |slots[s].cells| && j < |slots[t].cells| && slots[s].cells[i] == slots[t].cells[j]
    ensures forall k, p :: 0 <= k < |slots| && 0 <= p < |slots[k].cells| && slots[k].cells[p] == slots[s].cells[i] ==>
              (k, p) == (s, i) || (k, p) == (t, j)
  {
    var x :| IsPair(Refs(slots, x), (s, i), (t, j));
    var r := Refs(slots, x);
    RefsUpToNoDup(slots, x, |slots|);
    assert r[0] != r[1];
    assert (s, i) in r && (t, j) in r;
    RefsUpToSpec(slots, x, |slots|, s, i);
    RefsUpToSpec(slots, x, |slots|, t, j);
    forall k, p | 0 <= k < |slots| && 0 <= p < |slots[k].cells| && slots[k].cells[p] == slots[s].cells[i]
      ensures (k, p) == (s, i) || (k, p) == (t, j)
    {
      RefsUpToSpec(slots, x, |slots|, k, p);
    }
  }
}
