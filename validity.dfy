/** Pattern acceptance of the two fixed-size builders (`valid_pattern`). */
module Validity {
  import opened Common
  import opened Pattern
  import opened Connectivity
  import opened RunCheck
  import opened Slots

  /** The theme answers of both fixed-size builders (the `THEME` table,
      clues omitted). */
  const ThemeAnswers: seq<string> := [
    "BRICKLANE", "HINGE", "MANGOGREENTEA", "BOBBER", "STAIRCOUNT",
    "MAYTWENTYITH", "JORDANA", "GETRILED", "BEDTIMEDRINK", "UBEREAT"]

  /** Number of slots of length L. */
  function CountLength(slots: seq<Slot>, L: nat): (n: nat)
    ensures n <= |slots|
    ensures n > 0 <==> exists i :: 0 <= i < |slots| && |slots[i].cells| == L
  {
    if slots == [] then 0
    else (if |slots[0].cells| == L then 1 else 0) + CountLength(slots[1..], L)
  }

  /** A `defaultdict(int)` lookup. */
  function Get(m: map<nat, nat>, k: nat): nat
  {
    if k in m then m[k] else 0
  }

  /** The `lengths` table of `valid_pattern`: how many slots have each length. */
  method CountLengths(slots: seq<Slot>) returns (lengths: map<nat, nat>)
    ensures forall L :: Get(lengths, L) == CountLength(slots, L)
  {
    lengths := map[];
    for i := 0 to |slots|
      invariant forall L :: Get(lengths, L) + CountLength(slots[i..], L) == CountLength(slots, L)
    {
      assert slots[i..] == [slots[i]] + slots[i + 1..];
      var L := |slots[i].cells|;
      lengths := lengths[L := Get(lengths, L) + 1];
    }
    assert slots[|slots|..] == [];
  }

  /** Every answer has at least one slot of its length. */
  predicate LengthsAvailable(slots: seq<Slot>, answers: seq<string>)
  {
    forall t :: t in answers ==> CountLength(slots, |t|) > 0
  }

  /** What the 15x15 `valid_pattern` accepts. */
  ghost predicate Acceptable15(g: Grid, answers: seq<string>)
    requires Square(g)
  {
    var slots := ExtractedSlots(g);
    && 95 <= |WhiteSet(g)| <= 145
    && Connected(g)
    && AllRunsLong(g)
    && 38 <= |slots| <= 72
    && LengthsAvailable(slots, answers)
  }

  /** What the 13x13 `valid_pattern` accepts. */
  ghost predicate Acceptable13(g: Grid)
    requires Square(g)
  {
    && 70 <= |WhiteSet(g)| <= 110
    && Connected(g)
    && AllRunsLong(g)
    && 20 <= |SlotSegs(g)| <= 40
  }

  /** The numbered slots that `extract_slots` yields. */
  function ExtractedSlots(g: Grid): (slots: seq<Slot>)
    requires Square(g)
    ensures Numbered(slots, SlotSegs(g))
  {
    var segs := SlotSegs(g);
    seq(|segs|, i requires 0 <= i < |segs| => Slot(i, segs[i].dir, segs[i].cells))
  }

  lemma NumberedUnique(slots: seq<Slot>, slots': seq<Slot>, segs: seq<Seg>)
    requires Numbered(slots, segs) && Numbered(slots', segs)
    ensures slots == slots'
  {
  }

  /** `valid_pattern(b)` of the 15x15 builder: white count in [95, 145],
      connected, no run shorter than 3, between 38 and 72 slots, and a slot
      of every theme answer's length. */
  method ValidPattern15(g: Grid, answers: seq<string>) returns (ok: bool)
    requires Square(g)
    ensures ok <==> Acceptable15(g, answers)
  {
    WhiteListSpec(g);
    var nwhite := |WhiteList(g)|;
    if nwhite < 95 || nwhite > 145 {
      return false;
    }
    var conn := IsConnected(g);
    if !conn {
      return false;
    }
    var runs := RunsOk(g);
    if !runs {
      return false;
    }
    var slots := ExtractSlots(g);
    NumberedUnique(slots, ExtractedSlots(g), SlotSegs(g));
    if |slots| < 38 || |slots| > 72 {
      return false;
    }
    var lengths := CountLengths(slots);
    for t := 0 to |answers|
      invariant forall j :: 0 <= j < t ==> CountLength(slots, |answers[j]|) > 0
    {
      if Get(lengths, |answers[t]|) == 0 {
        return false;
      }
    }
    return true;
  }

  /** `valid_pattern(blocks)` of the 13x13 builder: white count in
      [70, 110], connected, every white cell on an across and a down run of
      length >= 3, and between 20 and 40 slots. */
  method ValidPattern13(g: Grid) returns (ok: bool)
    requires Square(g)
    ensures ok <==> Acceptable13(g)
  {
    WhiteListSpec(g);
    var nwhite := |WhiteList(g)|;
    if nwhite < 70 || nwhite > 110 {
      return false;
    }
    var conn := IsConnected(g);
    if !conn {
      return false;
    }
    var runs := MinRunOk(g);
    RunChecksAgree(g);
    if !runs {
      return false;
    }
    var slots := ExtractSlots(g);
    if |slots| < 20 || |slots| > 40 {
      return false;
    }
    return true;
  }

  /** A pattern without a slot of some theme answer's length is rejected,
      whatever else holds of it. */
  lemma MissingLengthRejected(g: Grid, answers: seq<string>, t: string)
    requires Square(g) && t in answers
    requires forall i :: 0 <= i < |SlotSegs(g)| ==> |SlotSegs(g)[i].cells| != |t|
    ensures !Acceptable15(g, answers)
  {
    var slots := ExtractedSlots(g);
    assert forall i :: 0 <= i < |slots| ==> slots[i].cells == SlotSegs(g)[i].cells;
    assert CountLength(slots, |t|) == 0;
  }
}
