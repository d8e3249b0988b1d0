/** The transition rule of the engine (B3/S23) and one synchronous generation
    of the whole board. */
module Rules {
  import opened LifeGrid

  /** B3/S23: a live cell with two or three live neighbours survives, a dead
      cell with exactly three is born, every other cell is dead next. */
  predicate NextCell(alive: bool, n: nat) {
    (alive && (n == 2 || n == 3)) || (!alive && n == 3)
  }

  /** The rule case by case: a live cell with fewer than two live neighbours
      dies, one with two or three lives on, one with more than three dies,
      and a dead cell comes alive with exactly three. */
  lemma RuleCases(alive: bool, n: nat)
    ensures alive && n < 2 ==> !NextCell(alive, n)
    ensures alive && (n == 2 || n == 3) ==> NextCell(alive, n)
    ensures alive && n > 3 ==> !NextCell(alive, n)
    ensures !alive ==> (NextCell(alive, n) <==> n == 3)
  {
  }

  /** One generation: every cell of the new board is computed from the old
      board only. */
  function Step(g: Board): (h: Board)
    requires IsBoard(g)
    ensures IsBoard(h)
  {
    seq(HEIGHT, y requires 0 <= y < HEIGHT =>
      seq(WIDTH, x requires 0 <= x < WIDTH => NextCell(g[y][x], NeighborCount(g, x, y))))
  }

  /** One cell of the next generation: the rule applied to the cell and its
      neighbour count. */
  lemma StepCell(g: Board, x: nat, y: nat)
    requires IsBoard(g) && x < WIDTH && y < HEIGHT
    ensures Step(g)[y][x] == NextCell(g[y][x], NeighborCount(g, x, y))
  {
  }

  /** The rule read on the torus: a cell is alive in the next generation iff it
      is alive with two or three live cells one step away from it, or dead with
      exactly three. */
  lemma StepCellRule(g: Board, x: nat, y: nat)
    requires IsBoard(g) && x < WIDTH && y < HEIGHT
    ensures Step(g)[y][x] <==>
      var n := |LiveNeighbours(g, x, y)|;
      (g[y][x] && (n == 2 || n == 3)) || (!g[y][x] && n == 3)
  {
    NeighborCountIsLiveNeighbours(g, x, y);
  }

  /** The rule is local: two boards that agree on a cell and on its eight
      toroidal neighbours agree on that cell in the next generation. */
  lemma StepLocal(g: Board, h: Board, x: nat, y: nat)
    requires IsBoard(g) && IsBoard(h) && x < WIDTH && y < HEIGHT
    requires g[y][x] == h[y][x]
    requires forall c: nat, r: nat :: c < WIDTH && r < HEIGHT && IsNeighbour(x, y, c, r) ==> g[r][c] == h[r][c]
    ensures Step(g)[y][x] == Step(h)[y][x]
  {
    assert LiveNeighbours(g, x, y) == LiveNeighbours(h, x, y);
    StepCellRule(g, x, y);
    StepCellRule(h, x, y);
  }

  /** A board with no live cell stays empty. */
  lemma EmptyStaysEmpty()
    ensures Step(EmptyBoard()) == EmptyBoard()
  {
    var e := EmptyBoard();
    forall y, x | 0 <= y < HEIGHT && 0 <= x < WIDTH
      ensures !Step(e)[y][x]
    {
      assert LiveNeighbours(e, x, y) == {};
      StepCellRule(e, x, y);
    }
    forall y | 0 <= y < HEIGHT
      ensures Step(e)[y] == e[y]
    {
    }
  }
}
