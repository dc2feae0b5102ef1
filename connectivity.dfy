/** Connectivity of the white cells of a block pattern: the breadth-first
    search of `is_connected` / `connected`, proved to decide whether every
    white cell can reach every other one through edge-adjacent white cells. */
module Connectivity {
  import opened Common
  import opened Pattern

  /** The four unit steps, in the order the search tries them. */
  const Steps: seq<(int, int)> := [(1, 0), (-1, 0), (0, 1), (0, -1)]

  function Neighbour(x: Cell, i: nat): Cell
    requires i < |Steps|
  {
    (x.0 + Steps[i].0, x.1 + Steps[i].1)
  }

  /** x and y share an edge. */
  predicate Adjacent(x: Cell, y: Cell)
  {
    || (x.0 == y.0 && (x.1 == y.1 + 1 || y.1 == x.1 + 1))
    || (x.1 == y.1 && (x.0 == y.0 + 1 || y.0 == x.0 + 1))
  }

  /** Adjacency is exactly "one of the four steps away". */
  lemma AdjacentStep(x: Cell, y: Cell) returns (i: nat)
    requires Adjacent(x, y)
    ensures i < |Steps| && Neighbour(x, i) == y
  {
    if y.0 == x.0 + 1 {
      i := 0;
    } else if x.0 == y.0 + 1 {
      i := 1;
    } else if y.1 == x.1 + 1 {
      i := 2;
    } else {
      i := 3;
    }
  }

  /** A walk through white cells, each step to an edge-adjacent cell. */
  predicate IsPath(g: Grid, p: seq<Cell>)
    requires Square(g)
  {
    && |p| >= 1
    && (forall k :: 0 <= k < |p| ==> IsWhite(g, p[k]))
    && (forall k :: 0 < k < |p| ==> Adjacent(p[k - 1], p[k]))
  }

  ghost predicate Reachable(g: Grid, a: Cell, x: Cell)
    requires Square(g)
  {
    exists p :: IsPath(g, p) && p[0] == a && p[|p| - 1] == x
  }

  /** Every white cell reaches every white cell, and there is at least one. */
  ghost predicate Connected(g: Grid)
    requires Square(g)
  {
    && WhiteSet(g) != {}
    && forall x, y :: IsWhite(g, x) && IsWhite(g, y) ==> Reachable(g, x, y)
  }

  /** No white neighbour of a member of S lies outside S. */
  ghost predicate Closed(g: Grid, S: set<Cell>)
    requires Square(g)
  {
    forall x, i :: x in S && 0 <= i < |Steps| && IsWhite(g, Neighbour(x, i)) ==>
      Neighbour(x, i) in S
  }

  lemma ReachStep(g: Grid, a: Cell, x: Cell, y: Cell)
    requires Square(g)
    requires Reachable(g, a, x) && IsWhite(g, y) && Adjacent(x, y)
    ensures Reachable(g, a, y)
  {
    var p :| IsPath(g, p) && p[0] == a && p[|p| - 1] == x;
    var p' := p + [y];
    assert IsPath(g, p') && p'[0] == a && p'[|p'| - 1] == y;
  }

  /** A closed set that holds the start of a path holds the whole path. */
  lemma {:induction false} ClosedHoldsPath(g: Grid, S: set<Cell>, p: seq<Cell>)
    requires Square(g) && Closed(g, S)
    requires IsPath(g, p) && p[0] in S
    ensures p[|p| - 1] in S
    decreases |p|
  {
    if |p| > 1 {
      var p' := p[..|p| - 1];
      assert IsPath(g, p');
      ClosedHoldsPath(g, S, p');
      var i := AdjacentStep(p[|p| - 2], p[|p| - 1]);
      assert Neighbour(p[|p| - 2], i) in S;
    }
  }

  lemma ClosedHoldsReachable(g: Grid, S: set<Cell>, a: Cell, x: Cell)
    requires Square(g) && Closed(g, S) && a in S
    ensures Reachable(g, a, x) ==> x in S
  {
    if p :| IsPath(g, p) && p[0] == a && p[|p| - 1] == x {
      ClosedHoldsPath(g, S, p);
    }
  }

  function Reverse(p: seq<Cell>): (r: seq<Cell>)
    ensures |r| == |p|
    ensures forall k :: 0 <= k < |p| ==> r[k] == p[|p| - 1 - k]
  {
    if p == [] then [] else Reverse(p[1..]) + [p[0]]
  }

  /** Reachability between white cells is symmetric and transitive. */
  lemma ReachableSymmetric(g: Grid, a: Cell, x: Cell)
    requires Square(g) && Reachable(g, a, x)
    ensures Reachable(g, x, a)
  {
    var p :| IsPath(g, p) && p[0] == a && p[|p| - 1] == x;
    var r := Reverse(p);
    assert IsPath(g, r) && r[0] == x && r[|r| - 1] == a;
  }

  lemma ReachableTransitive(g: Grid, a: Cell, x: Cell, y: Cell)
    requires Square(g) && Reachable(g, a, x) && Reachable(g, x, y)
    ensures Reachable(g, a, y)
  {
    var p :| IsPath(g, p) && p[0] == a && p[|p| - 1] == x;
    var q :| IsPath(g, q) && q[0] == x && q[|q| - 1] == y;
    var pq := p + q[1..];
    forall k | 0 < k < |pq| ensures Adjacent(pq[k - 1], pq[k]) {
      if k >= |p| {
        assert pq[k - 1] == q[k - |p|] && pq[k] == q[k - |p| + 1];
      }
    }
    assert IsPath(g, pq) && pq[0] == a && pq[|pq| - 1] == y;
  }

  /** Reaching every white cell from one white cell is as good as reaching
      every white cell from every other one: the search only tries the first. */
  lemma ConnectedFromOne(g: Grid, s: Cell)
    requires Square(g) && IsWhite(g, s)
    ensures Connected(g) <==> forall x :: IsWhite(g, x) ==> Reachable(g, s, x)
  {
    WhiteListSpec(g);
    assert s in WhiteSet(g);
    if forall x :: IsWhite(g, x) ==> Reachable(g, s, x) {
      forall x, y | IsWhite(g, x) && IsWhite(g, y) ensures Reachable(g, x, y) {
        ReachableSymmetric(g, s, x);
        ReachableTransitive(g, x, s, y);
      }
    }
  }

  lemma SubsetSameCard<T>(A: set<T>, B: set<T>)
    requires A <= B && |A| == |B|
    ensures A == B
  {
    assert B == A + (B - A);
    assert |B - A| == 0;
  }

  /** The inner loop of the search: every white neighbour of x not yet seen
      is marked seen and queued. */
  method VisitNeighbours(g: Grid, ghost s: Cell, x: Cell, seen: set<Cell>, q: seq<Cell>)
    returns (seen': set<Cell>, q': seq<Cell>)
    requires Square(g) && Reachable(g, s, x)
    requires seen <= WhiteSet(g)
    requires forall z :: z in seen ==> Reachable(g, s, z)
    ensures seen <= seen' <= WhiteSet(g)
    ensures forall z :: z in q ==> z in q'
    ensures forall z :: z in q' ==> z in q || z in seen' - seen
    ensures forall z :: z in seen' - seen ==> z in q'
    ensures forall z :: z in seen' ==> Reachable(g, s, z)
    ensures forall j :: 0 <= j < |Steps| && IsWhite(g, Neighbour(x, j)) ==> Neighbour(x, j) in seen'
    ensures (seen' == seen && q' == q) || seen < seen'
  {
    seen', q' := seen, q;
    for i := 0 to 4
      invariant seen <= seen' <= WhiteSet(g)
      invariant forall z :: z in q ==> z in q'
      invariant forall z :: z in q' ==> z in q || z in seen' - seen
      invariant forall z :: z in seen' - seen ==> z in q'
      invariant forall z :: z in seen' ==> Reachable(g, s, z)
      invariant forall j :: 0 <= j < i && IsWhite(g, Neighbour(x, j)) ==> Neighbour(x, j) in seen'
      invariant (seen' == seen && q' == q) || seen < seen'
    {
      var y := Neighbour(x, i);
      if IsWhite(g, y) && y !in seen' {
        WhiteSetMember(g, y);
        ReachStep(g, s, x, y);
        seen' := seen' + {y};
        q' := q' + [y];
      }
    }
  }

  /** Once x has been dequeued and its neighbours visited, every seen cell
      outside the queue has all its white neighbours seen. */
  lemma ClosureKept(g: Grid, x: Cell, seen0: set<Cell>, q0: seq<Cell>, seen: set<Cell>, q: seq<Cell>)
    requires Square(g) && q0 != [] && x == q0[0]
    requires forall z, i :: z in seen0 && z !in q0 && 0 <= i < |Steps| && IsWhite(g, Neighbour(z, i)) ==>
               Neighbour(z, i) in seen0
    requires seen0 <= seen
    requires forall z :: z in q0[1..] ==> z in q
    requires forall z :: z in seen - seen0 ==> z in q
    requires forall j :: 0 <= j < |Steps| && IsWhite(g, Neighbour(x, j)) ==> Neighbour(x, j) in seen
    ensures forall z, i :: z in seen && z !in q && 0 <= i < |Steps| && IsWhite(g, Neighbour(z, i)) ==>
              Neighbour(z, i) in seen
  {
    forall z, i | z in seen && z !in q && 0 <= i < |Steps| && IsWhite(g, Neighbour(z, i))
      ensures Neighbour(z, i) in seen
    {
      if z != x {
        assert z in seen0;
        assert z !in q0 by {
          assert q0 == [x] + q0[1..];
        }
      }
    }
  }

  /** When the queue runs dry, the search has seen everything reachable from
      s, so it has seen every white cell exactly when the pattern is
      connected. */
  lemma SearchOutcome(g: Grid, s: Cell, seen: set<Cell>)
    requires Square(g) && IsWhite(g, s) && s in seen
    requires seen <= WhiteSet(g) && Closed(g, seen)
    requires forall z :: z in seen ==> Reachable(g, s, z)
    ensures |seen| == |WhiteList(g)| <==> Connected(g)
  {
    WhiteListSpec(g);
    var W := WhiteSet(g);
    ConnectedFromOne(g, s);
    if |seen| == |W| {
      SubsetSameCard(seen, W);
    } else {
      assert seen != W;
      var w :| w in W && w !in seen;
      ClosedHoldsReachable(g, seen, s, w);
    }
  }

  lemma FewerUnseen<T>(W: set<T>, a: set<T>, b: set<T>)
    requires a < b <= W
    ensures |W - b| < |W - a|
  {
    var x :| x in b && x !in a;
    assert W - a == (W - b) + (b - a);
    assert (W - b) * (b - a) == {};
    assert x in b - a;
  }

  /** The loop invariant of the search: the queue holds seen cells, every
      seen cell is white and reachable from s, and every seen cell that has
      left the queue has had its white neighbours seen. */
  ghost predicate SearchInv(g: Grid, s: Cell, seen: set<Cell>, q: seq<Cell>)
    requires Square(g)
  {
    && seen <= WhiteSet(g) && s in seen
    && (forall z :: z in q ==> z in seen)
    && (forall z :: z in seen ==> Reachable(g, s, z))
    && (forall z, i :: z in seen && z !in q && 0 <= i < |Steps| && IsWhite(g, Neighbour(z, i)) ==>
          Neighbour(z, i) in seen)
  }

  /** One turn of the outer loop: dequeue a cell and visit its neighbours. */
  method SearchStep(g: Grid, ghost s: Cell, seen: set<Cell>, q: seq<Cell>)
    returns (seen': set<Cell>, q': seq<Cell>)
    requires Square(g) && q != [] && SearchInv(g, s, seen, q)
    ensures SearchInv(g, s, seen', q')
    ensures seen < seen' || (seen' == seen && |q'| < |q|)
  {
    var x := q[0];
    seen', q' := VisitNeighbours(g, s, x, seen, q[1..]);
    ClosureKept(g, x, seen, q, seen', q');
  }

  /** `is_connected(b)` / `connected(blocks)`: breadth-first search from the
      first white cell in row-major order; the pattern passes when the search
      sees as many cells as there are white cells. */
  method IsConnected(g: Grid) returns (ok: bool)
    requires Square(g)
    ensures ok <==> Connected(g)
  {
    var whites := WhiteList(g);
    WhiteListSpec(g);
    if whites == [] {
      return false;
    }
    var s := whites[0];
    ghost var W := WhiteSet(g);
    var q := [s];
    var seen := {s};
    assert Reachable(g, s, s) by {
      assert IsPath(g, [s]);
    }
    while q != []
      invariant SearchInv(g, s, seen, q)
      decreases |W - seen|, |q|
    {
      ghost var seen0 := seen;
      seen, q := SearchStep(g, s, seen, q);
      if seen0 < seen {
        FewerUnseen(W, seen0, seen);
      }
    }
    ok := |seen| == |whites|;
    SearchOutcome(g, s, seen);
  }
}
