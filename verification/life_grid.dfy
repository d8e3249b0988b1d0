/** The toroidal board of the engine: its fixed size, coordinate wrapping,
    the Moore neighbourhood of a cell, and the two counts read off a board
    (the live neighbours of one cell, and all live cells). */
module LifeGrid {

  const WIDTH: nat := 100
  const HEIGHT: nat := 100

  /** A board is read row-major: board[y][x] is the cell in column x of row y. */
  type Board = seq<seq<bool>>

  /** HEIGHT rows of WIDTH cells each. */
  predicate IsBoard(g: Board) {
    |g| == HEIGHT && forall y :: 0 <= y < |g| ==> |g[y]| == WIDTH
  }

  /** The all-dead board the engine allocates for a fresh generation or a clear. */
  function EmptyBoard(): (g: Board)
    ensures IsBoard(g)
    ensures forall y, x :: 0 <= y < HEIGHT && 0 <= x < WIDTH ==> !g[y][x]
  {
    seq(HEIGHT, _ => seq(WIDTH, _ => false))
  }

  /** Reduce a coordinate onto 0..n-1: the torus has no edge. This is the
      Euclidean remainder v % n, written out on the three ranges the engine's
      coordinates fall in, one period below, on and one period above the
      board, where it removes or adds at most one n. */
  function Wrap(v: int, n: nat): (r: nat)
    requires n > 0
    ensures r < n
    ensures 0 <= v < n ==> r == v
    ensures n <= v < 2 * n ==> r == v - n
    ensures -(n as int) <= v < 0 ==> r == v + n
  {
    if 0 <= v < n then v
    else if n <= v < 2 * n then v - n
    else if -(n as int) <= v < 0 then v + n
    else v % n
  }

  /** On every input Wrap is the Euclidean remainder, which on the
      non-negative sums the engine wraps is the remainder of unsigned
      arithmetic. */
  lemma WrapIsMod(v: int, n: nat)
    requires n > 0
    ensures Wrap(v, n) == v % n
  {
  }

  /** Moving a coordinate forward by d and then wrapping is the same as
      wrapping it first. */
  lemma WrapShift(a: nat, d: nat)
    ensures Wrap(a + d, WIDTH) == Wrap(Wrap(a, WIDTH) + d, WIDTH)
    ensures Wrap(a + d, HEIGHT) == Wrap(Wrap(a, HEIGHT) + d, HEIGHT)
  {
  }

  // ---------------------------------------------------------------------
  // The Moore neighbourhood
  // ---------------------------------------------------------------------

  /** The eight offsets (dx, dy) around a cell, in the order the counting loop
      visits them: dy outer, dx inner, each from -1 to 1, skipping (0, 0). */
  const MOORE: seq<(int, int)> :=
    [(-1, -1), (0, -1), (1, -1), (-1, 0), (1, 0), (-1, 1), (0, 1), (1, 1)]

  /** The k-th neighbour of (x, y), wrapped onto the board, as (column, row). */
  function NeighbourAt(x: nat, y: nat, k: nat): (p: (nat, nat))
    requires k < |MOORE|
    ensures p.0 < WIDTH && p.1 < HEIGHT
  {
    (Wrap(x + MOORE[k].0, WIDTH), Wrap(y + MOORE[k].1, HEIGHT))
  }

  /** Number of live cells among the first k neighbours of (x, y). */
  function CountAmong(g: Board, x: nat, y: nat, k: nat): (n: nat)
    requires IsBoard(g) && k <= |MOORE|
    ensures n <= k
  {
    if k == 0 then 0
    else
      var p := NeighbourAt(x, y, k - 1);
      CountAmong(g, x, y, k - 1) + (if g[p.1][p.0] then 1 else 0)
  }

  /** Number of live cells among the eight wrapped neighbours of (x, y). */
  function NeighborCount(g: Board, x: nat, y: nat): (n: nat)
    requires IsBoard(g)
    ensures n <= 8
  {
    CountAmong(g, x, y, |MOORE|)
  }

  /** Distance between a and b on a cycle of length n. */
  function CycleDist(a: int, b: int, n: nat): nat
    requires n > 0
  {
    var d := Wrap(b - a, n);
    if d <= n - d then d else n - d
  }

  /** (c, r) is a neighbour of (x, y) on the torus: a different cell, at most
      one step away along each axis, counting across the wrap-around. */
  predicate IsNeighbour(x: nat, y: nat, c: nat, r: nat) {
    (c, r) != (x, y) && CycleDist(x, c, WIDTH) <= 1 && CycleDist(y, r, HEIGHT) <= 1
  }

  /** The live neighbours of (x, y), as a set of (column, row) positions. */
  function LiveNeighbours(g: Board, x: nat, y: nat): set<(nat, nat)>
    requires IsBoard(g)
  {
    set c: nat, r: nat | c < WIDTH && r < HEIGHT && IsNeighbour(x, y, c, r) && g[r][c] :: (c, r)
  }

  /** On a cycle of length at least 3, b is within one step of a exactly when
      it is a - 1, a or a + 1 after wrapping. */
  lemma NearIff(a: nat, b: nat, n: nat)
    requires 3 <= n && a < n && b < n
    ensures CycleDist(a, b, n) <= 1 <==> (b == Wrap(a - 1, n) || b == a || b == Wrap(a + 1, n))
    ensures CycleDist(a, b, n) == 0 <==> b == a
  {
  }

  /** The eight wrapped neighbours of (x, y), spelt out as (column, row). */
  lemma MooreUnfold(x: nat, y: nat)
    requires x < WIDTH && y < HEIGHT
    ensures
      var xl, xr, yu, yd := Wrap(x - 1, WIDTH), Wrap(x + 1, WIDTH), Wrap(y - 1, HEIGHT), Wrap(y + 1, HEIGHT);
      && NeighbourAt(x, y, 0) == (xl, yu) && NeighbourAt(x, y, 1) == (x, yu)
      && NeighbourAt(x, y, 2) == (xr, yu) && NeighbourAt(x, y, 3) == (xl, y)
      && NeighbourAt(x, y, 4) == (xr, y) && NeighbourAt(x, y, 5) == (xl, yd)
      && NeighbourAt(x, y, 6) == (x, yd) && NeighbourAt(x, y, 7) == (xr, yd)
  {
  }

  /** The eight wrapped neighbours of a cell are pairwise distinct and none of
      them is the cell itself. */
  lemma MooreDistinct(x: nat, y: nat)
    requires x < WIDTH && y < HEIGHT
    ensures forall j, k :: 0 <= j < k < |MOORE| ==> NeighbourAt(x, y, j) != NeighbourAt(x, y, k)
    ensures forall k :: 0 <= k < |MOORE| ==> NeighbourAt(x, y, k) != (x, y)
  {
    MooreUnfold(x, y);
  }

  /** The eight wrapped neighbours of a cell are exactly the cells one step
      away from it on the torus. */
  lemma MooreExact(x: nat, y: nat)
    requires x < WIDTH && y < HEIGHT
    ensures forall k :: 0 <= k < |MOORE| ==>
      IsNeighbour(x, y, NeighbourAt(x, y, k).0, NeighbourAt(x, y, k).1)
    ensures forall c: nat, r: nat :: c < WIDTH && r < HEIGHT && IsNeighbour(x, y, c, r) ==>
      exists k :: 0 <= k < |MOORE| && NeighbourAt(x, y, k) == (c, r)
  {
    MooreUnfold(x, y);
    var xl, xr := Wrap(x - 1, WIDTH), Wrap(x + 1, WIDTH);
    var yu, yd := Wrap(y - 1, HEIGHT), Wrap(y + 1, HEIGHT);
    forall k | 0 <= k < |MOORE|
      ensures IsNeighbour(x, y, NeighbourAt(x, y, k).0, NeighbourAt(x, y, k).1)
    {
      var p := NeighbourAt(x, y, k);
      NearIff(x, p.0, WIDTH);
      NearIff(y, p.1, HEIGHT);
    }
    forall c: nat, r: nat | c < WIDTH && r < HEIGHT && IsNeighbour(x, y, c, r)
      ensures exists k :: 0 <= k < |MOORE| && NeighbourAt(x, y, k) == (c, r)
    {
      NearIff(x, c, WIDTH);
      NearIff(y, r, HEIGHT);
      var k :=
        if r == yu then (if c == xl then 0 else if c == x then 1 else 2)
        else if r == y then (if c == xl then 3 else 4)
        else (if c == xl then 5 else if c == x then 6 else 7);
      assert NeighbourAt(x, y, k) == (c, r);
    }
  }

  /** The live cells among the first k neighbours, as a set of positions. */
  function LiveAmong(g: Board, x: nat, y: nat, k: nat): set<(nat, nat)>
    requires IsBoard(g) && k <= |MOORE|
  {
    set i | 0 <= i < k && g[NeighbourAt(x, y, i).1][NeighbourAt(x, y, i).0] :: NeighbourAt(x, y, i)
  }

  /** Visiting one more neighbour adds it to the live set exactly when it is alive. */
  lemma LiveAmongStep(g: Board, x: nat, y: nat, k: nat)
    requires IsBoard(g) && x < WIDTH && y < HEIGHT && 0 < k <= |MOORE|
    ensures var p := NeighbourAt(x, y, k - 1);
      LiveAmong(g, x, y, k) == LiveAmong(g, x, y, k - 1) + (if g[p.1][p.0] then {p} else {})
  {
    var p := NeighbourAt(x, y, k - 1);
    var before, after := LiveAmong(g, x, y, k - 1), LiveAmong(g, x, y, k);
    forall q | q in after
      ensures q in before || (g[p.1][p.0] && q == p)
    {
      var i :| 0 <= i < k && g[NeighbourAt(x, y, i).1][NeighbourAt(x, y, i).0] && q == NeighbourAt(x, y, i);
      if i < k - 1 {
        assert q in before;
      }
    }
  }

  /** The k-th neighbour is not among the first k: the loop never meets a
      cell twice. */
  lemma NotYetVisited(g: Board, x: nat, y: nat, k: nat)
    requires IsBoard(g) && x < WIDTH && y < HEIGHT && k < |MOORE|
    ensures NeighbourAt(x, y, k) !in LiveAmong(g, x, y, k)
  {
    MooreDistinct(x, y);
  }

  lemma {:induction false} CountAmongIsSize(g: Board, x: nat, y: nat, k: nat)
    requires IsBoard(g) && x < WIDTH && y < HEIGHT && k <= |MOORE|
    ensures CountAmong(g, x, y, k) == |LiveAmong(g, x, y, k)|
  {
    if k > 0 {
      var p := NeighbourAt(x, y, k - 1);
      var before := LiveAmong(g, x, y, k - 1);
      assert CountAmong(g, x, y, k) == CountAmong(g, x, y, k - 1) + (if g[p.1][p.0] then 1 else 0);
      CountAmongIsSize(g, x, y, k - 1);
      LiveAmongStep(g, x, y, k);
      if g[p.1][p.0] {
        NotYetVisited(g, x, y, k - 1);
        assert |before + {p}| == |before| + 1;
      }
    }
  }

  /** The neighbour count is the number of distinct live cells one toroidal
      step away from (x, y); in particular it does not depend on the order in
      which the eight neighbours are visited. */
  lemma NeighborCountIsLiveNeighbours(g: Board, x: nat, y: nat)
    requires IsBoard(g) && x < WIDTH && y < HEIGHT
    ensures NeighborCount(g, x, y) == |LiveNeighbours(g, x, y)|
  {
    CountAmongIsSize(g, x, y, |MOORE|);
    MooreExact(x, y);
    assert LiveAmong(g, x, y, |MOORE|) == LiveNeighbours(g, x, y);
  }

  lemma {:induction false} CountAmongIgnoresSelf(g: Board, x: nat, y: nat, b: bool, k: nat)
    requires IsBoard(g) && x < WIDTH && y < HEIGHT && k <= |MOORE|
    ensures IsBoard(g[y := g[y][x := b]])
    ensures CountAmong(g[y := g[y][x := b]], x, y, k) == CountAmong(g, x, y, k)
  {
    if k > 0 {
      CountAmongIgnoresSelf(g, x, y, b, k - 1);
      MooreDistinct(x, y);
    }
  }

  /** The cell itself is never among its neighbours: whatever (x, y) holds,
      its neighbour count is the same. */
  lemma NeighborCountIgnoresSelf(g: Board, x: nat, y: nat, b: bool)
    requires IsBoard(g) && x < WIDTH && y < HEIGHT
    ensures IsBoard(g[y := g[y][x := b]])
    ensures NeighborCount(g[y := g[y][x := b]], x, y) == NeighborCount(g, x, y)
  {
    CountAmongIgnoresSelf(g, x, y, b, |MOORE|);
  }

  // ---------------------------------------------------------------------
  // Counting live cells
  // ---------------------------------------------------------------------

  /** Number of live cells in one row. */
  function RowLive(row: seq<bool>): (n: nat)
    ensures n <= |row|
    ensures n == 0 <==> forall i :: 0 <= i < |row| ==> !row[i]
    ensures n == |row| <==> forall i :: 0 <= i < |row| ==> row[i]
  {
    if row == [] then 0
    else RowLive(row[..|row| - 1]) + (if row[|row| - 1] then 1 else 0)
  }

  /** Number of live cells on a board: every true cell of every row. */
  function LiveCells(g: Board): (n: nat)
    ensures (forall y :: 0 <= y < |g| ==> |g[y]| == WIDTH) ==> n <= |g| * WIDTH
    ensures n == 0 <==> forall y, x :: 0 <= y < |g| && 0 <= x < |g[y]| ==> !g[y][x]
  {
    if g == [] then 0
    else LiveCells(g[..|g| - 1]) + RowLive(g[|g| - 1])
  }

  /** The live cells of row y, as (column, row) positions. */
  function RowPositions(row: seq<bool>, y: nat): set<(nat, nat)> {
    set x: nat | x < |row| && row[x] :: (x, y)
  }

  /** The live cells of a board, as (column, row) positions. */
  function LivePositions(g: Board): set<(nat, nat)> {
    set y: nat, x: nat | y < |g| && x < |g[y]| && g[y][x] :: (x, y)
  }

  lemma {:induction false} RowLiveIsSize(row: seq<bool>, y: nat)
    ensures RowLive(row) == |RowPositions(row, y)|
  {
    if row != [] {
      var n := |row| - 1;
      RowLiveIsSize(row[..n], y);
      var before := RowPositions(row[..n], y);
      assert (n, y) !in before;
      if row[n] {
        assert RowPositions(row, y) == before + {(n, y)};
      } else {
        assert RowPositions(row, y) == before;
      }
    }
  }

  /** The live-cell count is the number of distinct live positions on the board. */
  lemma {:induction false} LiveCellsIsSize(g: Board)
    ensures LiveCells(g) == |LivePositions(g)|
  {
    if g != [] {
      var n := |g| - 1;
      LiveCellsIsSize(g[..n]);
      RowLiveIsSize(g[n], n);
      var before, last := LivePositions(g[..n]), RowPositions(g[n], n);
      assert LivePositions(g) == before + last;
      assert before * last == {};
    }
  }
}
