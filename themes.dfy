/** Assignment of theme answers to slots (`theme_to_slots` in the 15x15
    builder, `assign_theme_slots` in the 13x13 one): answers are taken
    scarcest length first, and each is tried in every free slot of its
    length by backtracking, with exact undo of `used` and `mapping`. */
module Themes {
  import opened Common
  import opened Slots

  /** A `by_len` lookup: the sids of length L, or none. */
  function Bucket(byLen: map<nat, seq<nat>>, L: nat): seq<nat>
  {
    if L in byLen then byLen[L] else []
  }

  /** The sids of the slots of length L, in slot order. */
  function SidsOfLength(slots: seq<Slot>, L: nat): (r: seq<nat>)
    ensures forall sid :: sid in r <==> exists k :: 0 <= k < |slots| && slots[k].sid == sid && |slots[k].cells| == L
  {
    if slots == [] then []
    else
      var last := slots[|slots| - 1];
      var r := SidsOfLength(slots[..|slots| - 1], L) + (if |last.cells| == L then [last.sid] else []);
      assert forall k :: 0 <= k < |slots| - 1 ==> slots[..|slots| - 1][k] == slots[k];
      r
  }

  /** The `by_len` table: for each length, the sids of that length in slot
      order. */
  method BuildByLen(slots: seq<Slot>) returns (byLen: map<nat, seq<nat>>)
    ensures forall L :: Bucket(byLen, L) == SidsOfLength(slots, L)
  {
    byLen := map[];
    for k := 0 to |slots|
      invariant forall L :: Bucket(byLen, L) == SidsOfLength(slots[..k], L)
    {
      assert slots[..k + 1][..k] == slots[..k];
      var L := |slots[k].cells|;
      byLen := byLen[L := Bucket(byLen, L) + [slots[k].sid]];
    }
    assert slots[..|slots|] == slots;
  }

  /** Number of answers of length L. */
  function CountLen(ts: seq<string>, L: nat): nat
  {
    if ts == [] then 0 else (if |ts[0]| == L then 1 else 0) + CountLen(ts[1..], L)
  }

  lemma {:induction false} CountLenConcat(a: seq<string>, b: seq<string>, L: nat)
    ensures CountLen(a + b, L) == CountLen(a, L) + CountLen(b, L)
  {
    if a == [] {
      assert a + b == b;
    } else {
      assert (a + b)[0] == a[0];
      assert (a + b)[1..] == a[1..] + b;
      CountLenConcat(a[1..], b, L);
    }
  }

  /** The count depends only on which answers there are, not their order. */
  lemma {:induction false} CountLenPermutation(a: seq<string>, b: seq<string>, L: nat)
    requires multiset(a) == multiset(b)
    ensures CountLen(a, L) == CountLen(b, L)
    decreases |a|
  {
    if a == [] {
      assert |multiset(b)| == 0;
    } else {
      assert a[0] in multiset(b);
      var j :| 0 <= j < |b| && b[j] == a[0];
      var b' := b[..j] + b[j + 1..];
      RemoveAt(b, j, L);
      assert a == [a[0]] + a[1..];
      assert multiset(a[1..]) == multiset(a) - multiset{a[0]};
      CountLenPermutation(a[1..], b', L);
    }
  }

  /** Taking out the answer at j: one fewer of it, and one fewer of its
      length. */
  lemma RemoveAt(b: seq<string>, j: nat, L: nat)
    requires j < |b|
    ensures multiset(b[..j] + b[j + 1..]) == multiset(b) - multiset{b[j]}
    ensures CountLen(b, L) == CountLen(b[..j] + b[j + 1..], L) + (if |b[j]| == L then 1 else 0)
  {
    assert b == b[..j] + [b[j]] + b[j + 1..];
    assert multiset(b) == multiset(b[..j]) + multiset{b[j]} + multiset(b[j + 1..]);
    CountLenConcat(b[..j] + [b[j]], b[j + 1..], L);
    CountLenConcat(b[..j], [b[j]], L);
    CountLenConcat(b[..j], b[j + 1..], L);
  }

  /** The free slots of length L: not in avoid. `lens[sid]` is the length of
      slot sid. */
  function Free(lens: seq<nat>, avoid: set<nat>, L: nat): set<nat>
  {
    set sid | 0 <= sid < |lens| && lens[sid] == L && sid !in avoid
  }

  /** The answers ts can be given distinct slots of their lengths outside
      avoid, in the order the search takes them. */
  ghost predicate Extendable(lens: seq<nat>, avoid: set<nat>, ts: seq<string>)
    decreases |ts|
  {
    ts == [] ||
    exists sid :: sid in Free(lens, avoid, |ts[0]|) && Extendable(lens, avoid + {sid}, ts[1..])
  }

  /** There are at least as many free slots of every length as answers of
      that length. */
  ghost predicate EnoughSlots(lens: seq<nat>, avoid: set<nat>, ts: seq<string>)
  {
    forall L :: CountLen(ts, L) <= |Free(lens, avoid, L)|
  }

  lemma FreeWithout(lens: seq<nat>, avoid: set<nat>, sid: nat, L: nat)
    ensures Free(lens, avoid + {sid}, L) == Free(lens, avoid, L) - {sid}
  {
  }

  /** A search for slots succeeds exactly when no length is oversubscribed. */
  lemma {:induction false} ExtendableIffEnough(lens: seq<nat>, avoid: set<nat>, ts: seq<string>)
    ensures Extendable(lens, avoid, ts) <==> EnoughSlots(lens, avoid, ts)
    decreases |ts|
  {
    if ts != [] {
      var L0 := |ts[0]|;
      var rest := ts[1..];
      assert forall L :: CountLen(ts, L) == (if L == L0 then 1 else 0) + CountLen(rest, L);
      if Extendable(lens, avoid, ts) {
        var sid :| sid in Free(lens, avoid, L0) && Extendable(lens, avoid + {sid}, rest);
        ExtendableIffEnough(lens, avoid + {sid}, rest);
        forall L ensures CountLen(ts, L) <= |Free(lens, avoid, L)| {
          FreeWithout(lens, avoid, sid, L);
          assert CountLen(rest, L) <= |Free(lens, avoid + {sid}, L)|;
        }
      }
      if EnoughSlots(lens, avoid, ts) {
        assert CountLen(ts, L0) <= |Free(lens, avoid, L0)|;
        var sid :| sid in Free(lens, avoid, L0);
        forall L ensures CountLen(rest, L) <= |Free(lens, avoid + {sid}, L)| {
          FreeWithout(lens, avoid, sid, L);
          assert CountLen(ts, L) <= |Free(lens, avoid, L)|;
        }
        ExtendableIffEnough(lens, avoid + {sid}, rest);
      }
    }
  }

  /** Whether an answer set can be placed does not depend on the order the
      answers are taken in. */
  lemma ExtendableAnyOrder(lens: seq<nat>, avoid: set<nat>, a: seq<string>, b: seq<string>)
    requires multiset(a) == multiset(b)
    ensures Extendable(lens, avoid, a) <==> Extendable(lens, avoid, b)
  {
    ExtendableIffEnough(lens, avoid, a);
    ExtendableIffEnough(lens, avoid, b);
    forall L ensures CountLen(a, L) == CountLen(b, L) {
      CountLenPermutation(a, b, L);
    }
  }

  /** Sort key of an answer: how many slots have its length. */
  function Scarcity(byLen: map<nat, seq<nat>>, t: string): nat
  {
    |Bucket(byLen, |t|)|
  }

  predicate SortedByScarcity(byLen: map<nat, seq<nat>>, ts: seq<string>)
  {
    forall i, j :: 0 <= i < j < |ts| ==> Scarcity(byLen, ts[i]) <= Scarcity(byLen, ts[j])
  }

  /** Inserts t after the leading answers whose key is not larger. */
  function Insert(byLen: map<nat, seq<nat>>, t: string, ts: seq<string>): (r: seq<string>)
    requires SortedByScarcity(byLen, ts)
    ensures multiset(r) == multiset(ts) + multiset{t}
    ensures SortedByScarcity(byLen, r)
  {
    if ts == [] || Scarcity(byLen, t) < Scarcity(byLen, ts[0]) then
      SortedCons(byLen, t, ts);
      [t] + ts
    else
      var tail := Insert(byLen, t, ts[1..]);
      assert ts == [ts[0]] + ts[1..];
      assert multiset([ts[0]] + tail) == multiset{ts[0]} + multiset(tail);
      HeadBound(byLen, t, ts, tail);
      SortedCons(byLen, ts[0], tail);
      [ts[0]] + tail
  }

  /** The head of a sorted sequence bounds the keys of any reordering of
      its tail with a larger-keyed answer added. */
  lemma HeadBound(byLen: map<nat, seq<nat>>, t: string, ts: seq<string>, tail: seq<string>)
    requires SortedByScarcity(byLen, ts) && ts != []
    requires Scarcity(byLen, ts[0]) <= Scarcity(byLen, t)
    requires multiset(tail) == multiset(ts[1..]) + multiset{t}
    ensures forall x :: x in tail ==> Scarcity(byLen, ts[0]) <= Scarcity(byLen, x)
  {
    forall x | x in tail ensures Scarcity(byLen, ts[0]) <= Scarcity(byLen, x) {
      assert x in multiset(tail);
      if x != t {
        assert x in multiset(ts[1..]);
        var k :| 0 <= k < |ts[1..]| && ts[1..][k] == x;
        assert ts[k + 1] == x;
      }
    }
  }

  lemma SortedCons(byLen: map<nat, seq<nat>>, t: string, ts: seq<string>)
    requires SortedByScarcity(byLen, ts)
    requires forall x :: x in ts ==> Scarcity(byLen, t) <= Scarcity(byLen, x)
    ensures SortedByScarcity(byLen, [t] + ts)
  {
    var r := [t] + ts;
    forall i, j | 0 <= i < j < |r| ensures Scarcity(byLen, r[i]) <= Scarcity(byLen, r[j]) {
      assert r[j] == ts[j - 1];
      if i > 0 {
        assert r[i] == ts[i - 1];
      }
    }
  }

  /** `sorted(THEME, key=...)` / `themes.sort(key=...)`: the answers,
      scarcest slot length first. */
  function SortByScarcity(byLen: map<nat, seq<nat>>, ts: seq<string>): (r: seq<string>)
    ensures multiset(r) == multiset(ts)
    ensures SortedByScarcity(byLen, r)
  {
    if ts == [] then []
    else
      assert ts == ts[..|ts| - 1] + [ts[|ts| - 1]];
      Insert(byLen, ts[|ts| - 1], SortByScarcity(byLen, ts[..|ts| - 1]))
  }

  /** byLen lists, for each length, exactly the sids of that length. */
  ghost predicate Indexes(byLen: map<nat, seq<nat>>, lens: seq<nat>)
  {
    && (forall L: nat, sid: nat :: sid in Bucket(byLen, L) ==> sid < |lens| && lens[sid] == L)
    && (forall sid: nat :: sid < |lens| ==> sid in Bucket(byLen, lens[sid]))
  }

  lemma BucketMember(byLen: map<nat, seq<nat>>, lens: seq<nat>, L: nat, sid: nat)
    requires Indexes(byLen, lens) && sid in multiset(Bucket(byLen, L))
    ensures sid < |lens| && lens[sid] == L
  {
  }

  /** The search state: chosen[j] is the slot of answer j, `used` holds
      exactly the chosen slots, each once, and `mapping` sends each to its
      answer. */
  ghost predicate Consistent(lens: seq<nat>, themes: seq<string>, chosen: seq<nat>, used: set<nat>, mapping: map<nat, string>)
  {
    && |chosen| <= |themes| && NoDup(chosen)
    && used == SetOf(chosen)
    && mapping.Keys == used
    && forall j :: 0 <= j < |chosen| ==>
         chosen[j] in mapping && chosen[j] < |lens| && lens[chosen[j]] == |themes[j]| && mapping[chosen[j]] == themes[j]
  }

  lemma ConsistentPush(lens: seq<nat>, themes: seq<string>, chosen: seq<nat>, used: set<nat>, mapping: map<nat, string>, sid: nat)
    requires Consistent(lens, themes, chosen, used, mapping) && |chosen| < |themes|
    requires sid !in used && sid < |lens| && lens[sid] == |themes[|chosen|]|
    ensures Consistent(lens, themes, chosen + [sid], used + {sid}, mapping[sid := themes[|chosen|]])
  {
    var c := chosen + [sid];
    assert SetOf(c) == SetOf(chosen) + {sid};
    forall j, k | 0 <= j < k < |c| ensures c[j] != c[k] {
      if k == |chosen| {
        assert c[j] == chosen[j] && chosen[j] in SetOf(chosen);
      }
    }
  }

  /** Undoing a push restores the state it was made from. */
  lemma ConsistentPop(lens: seq<nat>, themes: seq<string>, c0: seq<nat>, u0: set<nat>, m0: map<nat, string>, sid: nat)
    requires Consistent(lens, themes, c0, u0, m0) && |c0| < |themes|
    requires Consistent(lens, themes, c0 + [sid], u0 + {sid}, m0[sid := themes[|c0|]])
    ensures sid !in u0
    ensures u0 + {sid} - {sid} == u0
    ensures m0[sid := themes[|c0|]] - {sid} == m0
  {
    var c := c0 + [sid];
    assert c[|c0|] == sid;
    forall j | 0 <= j < |c0| ensures c0[j] != sid {
      assert c[j] == c0[j];
    }
  }

  /** shuffle only reorders. */
  ghost predicate Permutes(shuffle: seq<nat> -> seq<nat>)
  {
    forall s: seq<nat> :: multiset(shuffle(s)) == multiset(s)
  }

  /** The backtracking state of `theme_to_slots`: `used` and `mapping` of
      the source, with `chosen` recording the slot given to each answer so
      far. */
  class ThemeSearch {
    const lens: seq<nat>
    const byLen: map<nat, seq<nat>>
    const themes: seq<string>
    const shuffle: seq<nat> -> seq<nat>
    var used: set<nat>
    var mapping: map<nat, string>
    ghost var chosen: seq<nat>

    ghost predicate Valid()
      reads this
    {
      && Indexes(byLen, lens)
      && Permutes(shuffle)
      && Consistent(lens, themes, chosen, used, mapping)
    }

    constructor (lens: seq<nat>, byLen: map<nat, seq<nat>>, themes: seq<string>, shuffle: seq<nat> -> seq<nat>)
      requires Indexes(byLen, lens) && Permutes(shuffle)
      ensures Valid() && chosen == [] && used == {} && mapping == map[]
      ensures this.lens == lens && this.byLen == byLen && this.themes == themes
    {
      this.lens := lens;
      this.byLen := byLen;
      this.themes := themes;
      this.shuffle := shuffle;
      used := {};
      mapping := map[];
      chosen := [];
      new;
      assert SetOf(chosen) == {};
    }

    /** Gives answer themes[i] the free slot sid. */
    method Push(i: nat, sid: nat)
      requires Valid() && i == |chosen| < |themes|
      requires sid !in used && sid < |lens| && lens[sid] == |themes[i]|
      modifies this`used, this`mapping, this`chosen
      ensures Valid()
      ensures chosen == old(chosen) + [sid] && used == old(used) + {sid}
      ensures mapping == old(mapping)[sid := themes[i]]
    {
      ConsistentPush(lens, themes, chosen, used, mapping, sid);
      mapping := mapping[sid := themes[i]];
      used := used + {sid};
      chosen := chosen + [sid];
    }

    /** Takes back the slot sid of the last placed answer, returning to
        the state (c0, u0, m0) it was placed from. */
    method Pop(sid: nat, ghost c0: seq<nat>, ghost u0: set<nat>, ghost m0: map<nat, string>)
      requires Valid() && chosen == c0 + [sid] && used == u0 + {sid} && mapping == m0[sid := themes[|c0|]]
      requires Consistent(lens, themes, c0, u0, m0)
      modifies this`used, this`mapping, this`chosen
      ensures Valid()
      ensures chosen == c0 && used == u0 && mapping == m0
    {
      ConsistentPop(lens, themes, c0, u0, m0, sid);
      chosen := c0;
      used := used - {sid};
      mapping := mapping - {sid};
    }

    /** `bt(i)`: place themes[i..]. On success every answer has a slot; on
        failure nothing is changed and no placement of themes[i..] avoiding
        the used slots exists. */
    method Bt(i: nat) returns (ok: bool)
      requires Valid() && i == |chosen|
      modifies this`used, this`mapping, this`chosen
      decreases |themes| - i, 1
      ensures Valid()
      ensures ok ==> |chosen| == |themes| && chosen[..i] == old(chosen)
      ensures !ok ==> chosen == old(chosen) && used == old(used) && mapping == old(mapping)
      ensures !ok ==> !Extendable(lens, used, themes[i..])
    {
      if i == |themes| {
        return true;
      }
      var cands := shuffle(Bucket(byLen, |themes[i]|));
      for k := 0 to |cands|
        invariant Valid()
        invariant chosen == old(chosen) && used == old(used) && mapping == old(mapping)
        invariant DeadEnds(lens, used, cands[..k], themes[i + 1..])
      {
        if cands[k] !in used {
          assert cands[k] in multiset(Bucket(byLen, |themes[i]|));
          BucketMember(byLen, lens, |themes[i]|, cands[k]);
          ok := Try(i, cands[k]);
          if ok {
            return true;
          }
        }
        DeadEndsAppend(lens, used, cands[..k], cands[k], themes[i + 1..]);
        assert cands[..k + 1] == cands[..k] + [cands[k]];
      }
      assert cands[..|cands|] == cands;
      NoneFits(lens, byLen, used, themes[i..], cands);
      return false;
    }

    /** One iteration of the loop in `bt(i)`: answer i goes into the free
        slot sid, the rest is searched, and on failure the slot is freed
        again. */
    method Try(i: nat, sid: nat) returns (ok: bool)
      requires Valid() && i == |chosen| < |themes|
      requires sid !in used && sid < |lens| && lens[sid] == |themes[i]|
      modifies this`used, this`mapping, this`chosen
      decreases |themes| - i, 0
      ensures Valid()
      ensures ok ==> |chosen| == |themes| && chosen[..i] == old(chosen)
      ensures !ok ==> chosen == old(chosen) && used == old(used) && mapping == old(mapping)
      ensures !ok ==> !Extendable(lens, used + {sid}, themes[i + 1..])
    {
      Push(i, sid);
      ok := Bt(i + 1);
      if ok {
        assert chosen[..i] == old(chosen) by {
          assert chosen[..i + 1] == old(chosen) + [sid];
        }
        return;
      }
      Pop(sid, old(chosen), old(used), old(mapping));
    }
  }

  /** Each slot in cs is used already or leaves no placement of rest. */
  ghost predicate DeadEnds(lens: seq<nat>, used: set<nat>, cs: seq<nat>, rest: seq<string>)
  {
    forall j :: 0 <= j < |cs| ==> cs[j] in used || !Extendable(lens, used + {cs[j]}, rest)
  }

  lemma DeadEndsAppend(lens: seq<nat>, used: set<nat>, cs: seq<nat>, c: nat, rest: seq<string>)
    requires DeadEnds(lens, used, cs, rest)
    requires c in used || !Extendable(lens, used + {c}, rest)
    ensures DeadEnds(lens, used, cs + [c], rest)
  {
  }

  /** When every slot of the first answer's length is used or leads to a
      dead end, the answers cannot be placed. */
  lemma NoneFits(lens: seq<nat>, byLen: map<nat, seq<nat>>, used: set<nat>, ts: seq<string>, cands: seq<nat>)
    requires Indexes(byLen, lens) && ts != []
    requires multiset(cands) == multiset(Bucket(byLen, |ts[0]|))
    requires DeadEnds(lens, used, cands, ts[1..])
    ensures !Extendable(lens, used, ts)
  {
    forall sid | sid in Free(lens, used, |ts[0]|)
      ensures !Extendable(lens, used + {sid}, ts[1..])
    {
      assert sid in multiset(cands);
    }
  }

  /** Slot lengths indexed by sid. */
  function Lengths(slots: seq<Slot>): (lens: seq<nat>)
    ensures |lens| == |slots|
    ensures forall k :: 0 <= k < |slots| ==> lens[k] == |slots[k].cells|
  {
    seq(|slots|, k requires 0 <= k < |slots| => |slots[k].cells|)
  }

  /** The answers placed by a mapping from sids to answers: every answer on
      a slot of its length, no slot twice, nothing else. */
  predicate PlacesAnswers(m: map<nat, string>, slots: seq<Slot>, answers: seq<string>)
  {
    && |m| == |answers|
    && (forall sid :: sid in m ==> sid < |slots| && |slots[sid].cells| == |m[sid]|)
    && (forall t :: t in answers ==> t in m.Values)
    && (forall t :: t in m.Values ==> t in answers)
  }

  /** `theme_to_slots(slots)` / `assign_theme_slots(slots)`: Some mapping
      placing every answer, or None exactly when some slot length has fewer
      slots than answers. `shuffle` stands for the random order in which the
      slots of one length are tried. */
  method ThemeToSlots(slots: seq<Slot>, answers: seq<string>, shuffle: seq<nat> -> seq<nat>)
    returns (r: Option<map<nat, string>>)
    requires forall k :: 0 <= k < |slots| ==> slots[k].sid == k
    requires Permutes(shuffle)
    ensures r.Some? ==> PlacesAnswers(r.value, slots, answers)
    ensures r.None? <==> !EnoughSlots(Lengths(slots), {}, answers)
  {
    var byLen := BuildByLen(slots);
    var lens := Lengths(slots);
    forall L: nat, sid: nat | sid in Bucket(byLen, L) ensures sid < |lens| && lens[sid] == L {
    }
    forall sid: nat | sid < |lens| ensures sid in Bucket(byLen, lens[sid]) {
      assert slots[sid].sid == sid;
    }
    var themes := SortByScarcity(byLen, answers);
    var search := new ThemeSearch(lens, byLen, themes, shuffle);
    var ok := search.Bt(0);
    ExtendableIffEnough(lens, {}, themes);
    ExtendableAnyOrder(lens, {}, themes, answers);
    ExtendableIffEnough(lens, {}, answers);
    if ok {
      Placed(search.chosen, search.mapping, lens, themes);
      r := Some(search.mapping);
      assert forall t :: t in answers <==> t in multiset(themes);
      // a successful search also shows that enough slots exist
      ChosenExtendable(search.chosen, lens, themes);
    } else {
      assert themes[0..] == themes;
      r := None;
    }
  }

  /** The state a successful search ends in is a placement of the answers. */
  lemma Placed(chosen: seq<nat>, mapping: map<nat, string>, lens: seq<nat>, themes: seq<string>)
    requires |chosen| == |themes| && NoDup(chosen) && mapping.Keys == SetOf(chosen)
    requires forall j :: 0 <= j < |chosen| ==>
               chosen[j] < |lens| && lens[chosen[j]] == |themes[j]| && mapping[chosen[j]] == themes[j]
    ensures |mapping| == |themes|
    ensures forall t :: t in themes ==> t in mapping.Values
    ensures forall t :: t in mapping.Values ==> t in themes
    ensures forall sid :: sid in mapping ==> sid < |lens| && lens[sid] == |mapping[sid]|
  {
    NoDupCard(chosen);
    forall t | t in themes ensures t in mapping.Values {
      var j :| 0 <= j < |themes| && themes[j] == t;
      assert mapping[chosen[j]] == t;
    }
  }

  /** A search that found distinct slots for all answers witnesses
      Extendable. */
  lemma {:induction false} ChosenExtendable(chosen: seq<nat>, lens: seq<nat>, themes: seq<string>)
    requires |chosen| == |themes| && NoDup(chosen)
    requires forall j :: 0 <= j < |chosen| ==> chosen[j] < |lens| && lens[chosen[j]] == |themes[j]|
    ensures Extendable(lens, {}, themes)
  {
    ChosenExtendableFrom(chosen, lens, themes, 0);
    assert SetOf(chosen[..0]) == {} && themes[0..] == themes;
  }

  lemma {:induction false} ChosenExtendableFrom(chosen: seq<nat>, lens: seq<nat>, themes: seq<string>, i: nat)
    requires |chosen| == |themes| && NoDup(chosen) && i <= |themes|
    requires forall j :: 0 <= j < |chosen| ==> chosen[j] < |lens| && lens[chosen[j]] == |themes[j]|
    ensures Extendable(lens, SetOf(chosen[..i]), themes[i..])
    decreases |themes| - i
  {
    if i < |themes| {
      ChosenExtendableFrom(chosen, lens, themes, i + 1);
      var sid := chosen[i];
      assert chosen[..i + 1] == chosen[..i] + [sid];
      assert SetOf(chosen[..i + 1]) == SetOf(chosen[..i]) + {sid};
      assert sid !in SetOf(chosen[..i]);
      assert sid in Free(lens, SetOf(chosen[..i]), |themes[i..][0]|);
      assert themes[i..][1..] == themes[i + 1..];
    }
  }
}
