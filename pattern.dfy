/** Block patterns of the fixed-size builders: a square matrix in which
    `true` marks a block. Synthesis draws one random decision per cell of the
    upper half (plus the centre) and mirrors it through the centre. */
module Pattern {
  import opened Common
  import Runs

  type Grid = seq<seq<bool>>

  predicate Square(b: Grid)
  {
    forall r :: 0 <= r < |b| ==> |b[r]| == |b|
  }

  /** Cell (r, c) holds the same as its partner under rotation by 180 degrees. */
  predicate SymmetricAt(b: Grid, r: nat, c: nat)
    requires Square(b) && r < |b| && c < |b|
  {
    b[r][c] == b[|b| - 1 - r][|b| - 1 - c]
  }

  predicate PointSymmetric(b: Grid)
    requires Square(b)
  {
    forall r: nat, c: nat :: r < |b| && c < |b| ==> SymmetricAt(b, r, c)
  }

  predicate IsWhite(b: Grid, x: Cell)
    requires Square(b)
  {
    0 <= x.0 < |b| && 0 <= x.1 < |b| && !b[x.0][x.1]
  }

  function Column(b: Grid, c: nat): (col: seq<bool>)
    requires Square(b) && c < |b|
    ensures |col| == |b|
  {
    seq(|b|, r requires 0 <= r < |b| => b[r][c])
  }

  /** The partner of (r, c) under rotation by 180 degrees: `mirror` / `mirrored`. */
  function Mirror(n: int, r: int, c: int): Cell
  {
    (n - 1 - r, n - 1 - c)
  }

  /** (r, c) does not come after its mirror image in row-major order, so the
      synthesis loop draws for it instead of skipping it. */
  predicate Canonical(n: int, r: int, c: int)
  {
    r < n - 1 - r || (r == n - 1 - r && c <= n - 1 - c)
  }

  /** Index of the random draw that decides cell (r, c): the draw made for the
      cell itself when it is canonical, otherwise the one made for its mirror. */
  function DrawIndex(n: nat, r: nat, c: nat): nat
    requires r < n && c < n
  {
    if Canonical(n, r, c) then r * n + c else (n - 1 - r) * n + (n - 1 - c)
  }

  /** Draws made in row r of the scan before column c: the whole prefix in the
      upper half, at most up to the centre in the middle row. */
  function DrawsBefore(n: nat, r: nat, c: nat): nat
  {
    if r < n - 1 - r then c else Min(c, r + 1)
  }

  /** (r', c') comes strictly before (r, c) in row-major order. */
  predicate Before(r': int, c': int, r: int, c: int)
  {
    r' < r || (r' == r && c' < c)
  }

  /** Cell (r, c) and its mirror image both hold the decision of draw r * n + c. */
  ghost predicate Decided(b: array2<bool>, coin: nat -> bool, r: nat, c: nat)
    reads b
    requires b.Length0 == b.Length1 && r < b.Length0 && c < b.Length0
  {
    var n := b.Length0;
    b[r, c] == coin(r * n + c) && b[n - 1 - r, n - 1 - c] == coin(r * n + c)
  }

  /** Writing a canonical cell and its mirror never touches a canonical cell
      visited earlier, nor that cell's mirror. */
  lemma CanonicalCellsApart(n: nat, r: nat, c: nat, r': nat, c': nat)
    requires r < n && c < n && r' < n && c' < n
    requires Canonical(n, r, c) && Canonical(n, r', c') && Before(r', c', r, c)
    ensures (r', c') != (r, c) && (r', c') != Mirror(n, r, c)
    ensures Mirror(n, r', c') != (r as int, c as int) && Mirror(n, r', c') != Mirror(n, r, c)
  {
  }

  /** Every cell of b holds the decision of the draw that DrawIndex assigns it. */
  ghost predicate Synthesised(b: array2<bool>, coin: nat -> bool)
    reads b
  {
    && b.Length0 == b.Length1
    && forall r: nat, c: nat :: r < b.Length0 && c < b.Length0 ==>
         b[r, c] == coin(DrawIndex(b.Length0, r, c))
  }

  /** `rand_blocks(p)` / `build_random_grid(block_prob)`: the k-th call to the
      random source is `coin(k)` (true when the draw falls below the block
      probability). Every cell takes the decision drawn for its canonical
      representative, so the pattern is point-symmetric and no cell is left
      unwritten. */
  method RandBlocks(n: nat, coin: nat -> bool) returns (b: array2<bool>)
    ensures fresh(b) && b.Length0 == n && b.Length1 == n
    ensures Synthesised(b, coin)
  {
    b := new bool[n, n]((_, _) => false);
    var k := 0;
    var half := (n + 1) / 2;
    for r := 0 to half
      invariant r < half ==> k == r * n
      invariant DecidedBefore(b, coin, r, 0)
    {
      k := DrawRow(b, coin, r, k);
      assert DecidedBefore(b, coin, r + 1, 0);
    }
    AllDecided(b, coin);
  }

  /** Once the canonical cells of the upper half are decided, every cell
      holds the draw of its canonical representative. */
  lemma AllDecided(b: array2<bool>, coin: nat -> bool)
    requires b.Length0 == b.Length1 && DecidedBefore(b, coin, (b.Length0 + 1) / 2, 0)
    ensures Synthesised(b, coin)
  {
    var n := b.Length0;
    forall r: nat, c: nat | r < n && c < n
      ensures b[r, c] == coin(DrawIndex(n, r, c))
    {
      if Canonical(n, r, c) {
        CanonicalRow(n, r, c);
        assert Decided(b, coin, r, c);
      } else {
        var r', c' := n - 1 - r, n - 1 - c;
        CanonicalRow(n, r', c');
        assert Decided(b, coin, r', c');
        assert b[n - 1 - r', n - 1 - c'] == coin(r' * n + c');
      }
    }
  }

  /** Every canonical cell before (r, c) in row-major order is decided. */
  ghost predicate DecidedBefore(b: array2<bool>, coin: nat -> bool, r: nat, c: nat)
    reads b
    requires b.Length0 == b.Length1
  {
    var n := b.Length0;
    forall r': nat, c': nat ::
      (r' < n && c' < n && Canonical(n, r', c') && Before(r', c', r, c)) ==>
      Decided(b, coin, r', c')
  }

  /** One pass of the inner loop of the synthesis: draws for the canonical
      cells of row r, starting with draw number k. */
  method DrawRow(b: array2<bool>, coin: nat -> bool, r: nat, k: nat) returns (k': nat)
    requires b.Length0 == b.Length1 && r < (b.Length0 + 1) / 2
    requires k == r * b.Length0
    requires DecidedBefore(b, coin, r, 0)
    modifies b
    ensures k' == r * b.Length0 + DrawsBefore(b.Length0, r, b.Length0)
    ensures DecidedBefore(b, coin, r + 1, 0)
  {
    var n := b.Length0;
    k' := k;
    for c := 0 to n
      invariant k' == r * n + DrawsBefore(n, r, c)
      invariant DecidedBefore(b, coin, r, c)
    {
      var mr, mc := n - 1 - r, n - 1 - c;
      if r > mr || (r == mr && c > mc) {
        continue;
      }
      label Pre:
      var v := coin(k');
      b[r, c] := v;
      b[mr, mc] := v;
      forall r': nat, c': nat | r' < n && c' < n && Canonical(n, r', c') && Before(r', c', r, c + 1)
        ensures Decided(b, coin, r', c')
      {
        if Before(r', c', r, c) {
          CanonicalCellsApart(n, r, c, r', c');
          assert old@Pre(Decided(b, coin, r', c'));
        }
      }
      k' := k' + 1;
    }
    forall r': nat, c': nat | r' < n && c' < n && Canonical(n, r', c') && Before(r', c', r + 1, 0)
      ensures Decided(b, coin, r', c')
    {
      assert Before(r', c', r, n);
    }
  }

  /** Every canonical cell lies in the rows the synthesis loop visits. */
  lemma CanonicalRow(n: nat, r: nat, c: nat)
    requires r < n && c < n
    ensures Canonical(n, r, c) ==> r < (n + 1) / 2
    ensures !Canonical(n, r, c) ==> Canonical(n, n - 1 - r, n - 1 - c)
  {
  }

  /** The synthesised pattern is point-symmetric: a cell and its mirror are
      decided by the same draw. */
  lemma DrawIndexSymmetric(n: nat, r: nat, c: nat)
    requires r < n && c < n
    ensures DrawIndex(n, r, c) == DrawIndex(n, n - 1 - r, n - 1 - c)
  {
  }

  /** The pattern as a list of rows. */
  function ToGrid(b: array2<bool>): (g: Grid)
    reads b
    ensures |g| == b.Length0
    ensures forall r :: 0 <= r < |g| ==> |g[r]| == b.Length1
    ensures forall r, c :: 0 <= r < b.Length0 && 0 <= c < b.Length1 ==> g[r][c] == b[r, c]
  {
    seq(b.Length0, r requires 0 <= r < b.Length0 reads b =>
      seq(b.Length1, c requires 0 <= c < b.Length1 reads b => b[r, c]))
  }

  /** Whatever the random draws, a synthesised pattern is point-symmetric. */
  lemma SynthesisedSymmetric(b: array2<bool>, coin: nat -> bool)
    requires Synthesised(b, coin)
    ensures Square(ToGrid(b)) && PointSymmetric(ToGrid(b))
  {
    var g := ToGrid(b);
    var n := b.Length0;
    forall r: nat, c: nat | r < n && c < n
      ensures SymmetricAt(g, r, c)
    {
      DrawIndexSymmetric(n, r, c);
    }
  }

  /** White cells of rows r.. in row-major order: `white_list` / `white_cells`. */
  function WhitesFrom(b: Grid, r: nat, c: nat): seq<Cell>
    requires Square(b)
    decreases |b| - r, |b| - c
  {
    if r >= |b| then []
    else if c >= |b| then WhitesFrom(b, r + 1, 0)
    else (if !b[r][c] then [(r as int, c as int)] else []) + WhitesFrom(b, r, c + 1)
  }

  function WhiteList(b: Grid): seq<Cell>
    requires Square(b)
  {
    WhitesFrom(b, 0, 0)
  }

  /** Whether (r', c') comes at or after (r, c) in row-major order. */
  predicate AtOrAfter(r: int, c: int, x: Cell)
  {
    x.0 > r || (x.0 == r && x.1 >= c)
  }

  /** The list holds exactly the white cells at or after (r, c), each once,
      in row-major order. */
  lemma {:induction false} WhitesFromSpec(b: Grid, r: nat, c: nat)
    requires Square(b)
    ensures forall x :: x in WhitesFrom(b, r, c) <==> IsWhite(b, x) && AtOrAfter(r, c, x)
    ensures forall i, j :: 0 <= i < j < |WhitesFrom(b, r, c)| ==>
              !AtOrAfter(WhitesFrom(b, r, c)[j].0, WhitesFrom(b, r, c)[j].1, WhitesFrom(b, r, c)[i])
    decreases |b| - r, |b| - c
  {
    if r >= |b| {
    } else if c >= |b| {
      WhitesFromSpec(b, r + 1, 0);
    } else {
      WhitesFromSpec(b, r, c + 1);
      var rest := WhitesFrom(b, r, c + 1);
      var w := WhitesFrom(b, r, c);
      if !b[r][c] {
        assert w == [(r as int, c as int)] + rest;
        forall i, j | 0 <= i < j < |w|
          ensures !AtOrAfter(w[j].0, w[j].1, w[i])
        {
          assert w[j] == rest[j - 1] && w[j] in rest;
          if i > 0 {
            assert w[i] == rest[i - 1];
          }
        }
      }
    }
  }

  function WhiteSet(b: Grid): set<Cell>
    requires Square(b)
  {
    set r, c | 0 <= r < |b| && 0 <= c < |b| && !b[r][c] :: (r, c)
  }

  lemma WhiteSetMember(b: Grid, x: Cell)
    requires Square(b)
    ensures x in WhiteSet(b) <==> IsWhite(b, x)
  {
    if IsWhite(b, x) {
      var r, c := x.0, x.1;
      assert (r, c) in WhiteSet(b);
    }
  }

  /** `white_list(b)` lists every white cell exactly once, in row-major order;
      its first element is the row-major first white cell. */
  lemma WhiteListSpec(b: Grid)
    requires Square(b)
    ensures SetOf(WhiteList(b)) == WhiteSet(b)
    ensures NoDup(WhiteList(b))
    ensures |WhiteList(b)| == |WhiteSet(b)|
    ensures forall x :: x in WhiteList(b) <==> IsWhite(b, x)
    ensures WhiteList(b) != [] ==>
              forall x :: IsWhite(b, x) ==> AtOrAfter(WhiteList(b)[0].0, WhiteList(b)[0].1, x)
  {
    WhitesFromSpec(b, 0, 0);
    var w := WhiteList(b);
    forall x | x in WhiteSet(b) ensures x in SetOf(w) {
      assert IsWhite(b, x);
    }
    forall i, j | 0 <= i < j < |w| ensures w[i] != w[j] {
      assert !AtOrAfter(w[j].0, w[j].1, w[i]);
    }
    NoDupCard(w);
    if w != [] {
      forall x | IsWhite(b, x) ensures AtOrAfter(w[0].0, w[0].1, x) {
        assert x in w;
        var k :| 0 <= k < |w| && w[k] == x;
        if k > 0 {
          assert !AtOrAfter(w[k].0, w[k].1, w[0]);
        }
      }
    }
  }
}
