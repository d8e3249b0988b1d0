/** Boards whose live cells form one wrapped rectangle, and the rule read
    relative to the rectangle's corner. */
module Rectangles {
  import opened LifeGrid
  import opened Rules

  /** v, wrapped onto a cycle of length n, falls in the first w positions. */
  predicate InBand(v: int, w: nat, n: nat)
    requires n > 0
  {
    Wrap(v, n) < w
  }

  /** The board whose live cells are the w x h rectangle with top-left cell
      (x0, y0), wrapping around both edges. */
  function Rect(x0: nat, y0: nat, w: nat, h: nat): (g: Board)
    ensures IsBoard(g)
  {
    seq(HEIGHT, r requires 0 <= r < HEIGHT =>
      seq(WIDTH, c requires 0 <= c < WIDTH => InBand(c - x0, w, WIDTH) && InBand(r - y0, h, HEIGHT)))
  }

  function Bit(b: bool): nat {
    if b then 1 else 0
  }

  /** Neighbour count, in the order of MOORE, of the cell u columns right of
      and v rows below the top-left corner of a w x h rectangle. */
  function RelCount(u: nat, v: nat, w: nat, h: nat): nat {
    var l, m, r := InBand(u - 1, w, WIDTH), InBand(u, w, WIDTH), InBand(u + 1, w, WIDTH);
    var a, b, d := InBand(v - 1, h, HEIGHT), InBand(v, h, HEIGHT), InBand(v + 1, h, HEIGHT);
    Bit(l && a) + Bit(m && a) + Bit(r && a) + Bit(l && b) + Bit(r && b) + Bit(l && d) + Bit(m && d) + Bit(r && d)
  }

  /** The neighbour count, one Moore offset at a time. */
  lemma NeighborCountUnfold(g: Board, x: nat, y: nat)
    requires IsBoard(g) && x < WIDTH && y < HEIGHT
    ensures NeighborCount(g, x, y) ==
      var xl, xr, yu, yd := Wrap(x - 1, WIDTH), Wrap(x + 1, WIDTH), Wrap(y - 1, HEIGHT), Wrap(y + 1, HEIGHT);
      Bit(g[yu][xl]) + Bit(g[yu][x]) + Bit(g[yu][xr]) + Bit(g[y][xl]) + Bit(g[y][xr])
        + Bit(g[yd][xl]) + Bit(g[yd][x]) + Bit(g[yd][xr])
  {
    MooreUnfold(x, y);
    var xl, xr, yu, yd := Wrap(x - 1, WIDTH), Wrap(x + 1, WIDTH), Wrap(y - 1, HEIGHT), Wrap(y + 1, HEIGHT);
    assert CountAmong(g, x, y, 1) == Bit(g[yu][xl]);
    assert CountAmong(g, x, y, 2) == CountAmong(g, x, y, 1) + Bit(g[yu][x]);
    assert CountAmong(g, x, y, 3) == CountAmong(g, x, y, 2) + Bit(g[yu][xr]);
    assert CountAmong(g, x, y, 4) == CountAmong(g, x, y, 3) + Bit(g[y][xl]);
    assert CountAmong(g, x, y, 5) == CountAmong(g, x, y, 4) + Bit(g[y][xr]);
    assert CountAmong(g, x, y, 6) == CountAmong(g, x, y, 5) + Bit(g[yd][xl]);
    assert CountAmong(g, x, y, 7) == CountAmong(g, x, y, 6) + Bit(g[yd][x]);
    assert CountAmong(g, x, y, 8) == CountAmong(g, x, y, 7) + Bit(g[yd][xr]);
  }

  /** Stepping to a neighbour and then measuring from x0 is measuring from x0
      and then stepping. */
  lemma ShiftWrap(c: nat, x0: nat, d: int, n: nat)
    requires 3 <= n && c < n && x0 < n && -1 <= d <= 1
    ensures Wrap(Wrap(c + d, n) - x0, n) == Wrap(Wrap(c - x0, n) + d, n)
  {
  }

  /** The neighbour (c + dc, r + dr) of a cell of a rectangle board is alive
      iff it lies in the rectangle, measured from the cell's own position
      relative to the corner. */
  lemma RectNeighbour(x0: nat, y0: nat, w: nat, h: nat, c: nat, r: nat, dc: int, dr: int)
    requires x0 < WIDTH && y0 < HEIGHT && c < WIDTH && r < HEIGHT && -1 <= dc <= 1 && -1 <= dr <= 1
    ensures Rect(x0, y0, w, h)[Wrap(r + dr, HEIGHT)][Wrap(c + dc, WIDTH)] ==
      (InBand(Wrap(c - x0, WIDTH) + dc, w, WIDTH) && InBand(Wrap(r - y0, HEIGHT) + dr, h, HEIGHT))
  {
    RectCell(x0, y0, w, h, Wrap(c + dc, WIDTH), Wrap(r + dr, HEIGHT));
    ShiftWrap(c, x0, dc, WIDTH);
    ShiftWrap(r, y0, dr, HEIGHT);
  }

  /** On a rectangle board, the neighbour count of a cell depends only on the
      cell's position relative to the rectangle's corner. */
  lemma RectCount(x0: nat, y0: nat, w: nat, h: nat, c: nat, r: nat)
    requires x0 < WIDTH && y0 < HEIGHT && c < WIDTH && r < HEIGHT
    ensures NeighborCount(Rect(x0, y0, w, h), c, r) == RelCount(Wrap(c - x0, WIDTH), Wrap(r - y0, HEIGHT), w, h)
  {
    NeighborCountUnfold(Rect(x0, y0, w, h), c, r);
    RectNeighbour(x0, y0, w, h, c, r, -1, -1);
    RectNeighbour(x0, y0, w, h, c, r, 0, -1);
    RectNeighbour(x0, y0, w, h, c, r, 1, -1);
    RectNeighbour(x0, y0, w, h, c, r, -1, 0);
    RectNeighbour(x0, y0, w, h, c, r, 1, 0);
    RectNeighbour(x0, y0, w, h, c, r, -1, 1);
    RectNeighbour(x0, y0, w, h, c, r, 0, 1);
    RectNeighbour(x0, y0, w, h, c, r, 1, 1);
  }

  /** Measuring from a corner moved by d is measuring from the old corner
      and then moving back by d. */
  lemma BandShift(c: nat, x0: nat, d: int, w: nat, n: nat)
    requires 3 <= n && c < n && x0 < n && -1 <= d <= 1
    ensures InBand(c - Wrap(x0 + d, n), w, n) == InBand(Wrap(c - x0, n) - d, w, n)
  {
  }

  /** A cell of a rectangle board is alive iff it lies in the rectangle. */
  lemma RectCell(x0: nat, y0: nat, w: nat, h: nat, c: nat, r: nat)
    requires c < WIDTH && r < HEIGHT
    ensures Rect(x0, y0, w, h)[r][c] == (InBand(c - x0, w, WIDTH) && InBand(r - y0, h, HEIGHT))
  {
  }

  /** Two boards with the same cells are the same board. */
  lemma SameCells(g: Board, h: Board)
    requires IsBoard(g) && IsBoard(h)
    requires forall r, c :: 0 <= r < HEIGHT && 0 <= c < WIDTH ==> g[r][c] == h[r][c]
    ensures g == h
  {
    forall r | 0 <= r < HEIGHT
      ensures g[r] == h[r]
    {
    }
  }

  // ---------------------------------------------------------------------
  // The rule, relative to a rectangle
  // ---------------------------------------------------------------------

  /** Around a 2 x 2 square every cell keeps its state: the four cells of the
      square see three live neighbours, and no dead cell sees exactly three. */
  lemma SquareCell(u: nat, v: nat)
    requires u < WIDTH && v < HEIGHT
    ensures NextCell(u < 2 && v < 2, RelCount(u, v, 2, 2)) == (u < 2 && v < 2)
  {
  }

  /** Around a row of three, only the middle cell and the cells directly above
      and below it are alive in the next generation. */
  lemma RowCell(u: nat, v: nat)
    requires u < WIDTH && v < HEIGHT
    ensures NextCell(u < 3 && v < 1, RelCount(u, v, 3, 1)) == (u == 1 && (v == HEIGHT - 1 || v <= 1))
    ensures NextCell(u < 3 && v < 1, RelCount(u, v, 3, 1)) == (InBand(u - 1, 1, WIDTH) && InBand(v + 1, 3, HEIGHT))
  {
  }

  /** Around a column of three, only the middle cell and the cells directly
      left and right of it are alive in the next generation. */
  lemma ColumnCell(u: nat, v: nat)
    requires u < WIDTH && v < HEIGHT
    ensures NextCell(u < 1 && v < 3, RelCount(u, v, 1, 3)) == (v == 1 && (u == WIDTH - 1 || u <= 1))
    ensures NextCell(u < 1 && v < 3, RelCount(u, v, 1, 3)) == (InBand(u + 1, 3, WIDTH) && InBand(v - 1, 1, HEIGHT))
  {
  }

  // ---------------------------------------------------------------------
  // Whole boards
  // ---------------------------------------------------------------------

  /** One cell of the next generation of a rectangle board, read relative to
      the rectangle's corner. */
  lemma RectStepCell(x0: nat, y0: nat, w: nat, h: nat, c: nat, r: nat)
    requires x0 < WIDTH && y0 < HEIGHT && c < WIDTH && r < HEIGHT
    ensures var u, v := Wrap(c - x0, WIDTH), Wrap(r - y0, HEIGHT);
      Step(Rect(x0, y0, w, h))[r][c] == NextCell(u < w && v < h, RelCount(u, v, w, h))
  {
    StepCell(Rect(x0, y0, w, h), c, r);
    RectCount(x0, y0, w, h, c, r);
    RectCell(x0, y0, w, h, c, r);
  }
}

/** How two patterns of the library behave under the rule, wherever they are
    stamped on the torus: the block is a still life, and the blinker turns
    from a row of three into a column of three and back, with period 2. */
module Oscillators {
  import opened LifeGrid
  import opened Rules
  import opened Patterns
  import opened Rectangles

  /** The next state of a cell near a lone 2 x 2 square, relative to the
      square's top-left cell. */
  lemma SquareNext(x0: nat, y0: nat, c: nat, r: nat)
    requires x0 < WIDTH && y0 < HEIGHT && c < WIDTH && r < HEIGHT
    ensures var u, v := Wrap(c - x0, WIDTH), Wrap(r - y0, HEIGHT);
      Step(Rect(x0, y0, 2, 2))[r][c] == (u < 2 && v < 2)
  {
    RectStepCell(x0, y0, 2, 2, c, r);
    SquareCell(Wrap(c - x0, WIDTH), Wrap(r - y0, HEIGHT));
  }

  /** A cell near a lone 2 x 2 square keeps its state. */
  lemma SquareStepCell(x0: nat, y0: nat, c: nat, r: nat)
    requires x0 < WIDTH && y0 < HEIGHT && c < WIDTH && r < HEIGHT
    ensures Step(Rect(x0, y0, 2, 2))[r][c] == Rect(x0, y0, 2, 2)[r][c]
  {
    SquareNext(x0, y0, c, r);
    RectCell(x0, y0, 2, 2, c, r);
  }

  /** The next state of a cell near a lone row of three, relative to the
      row's leftmost cell. */
  lemma RowNext(x0: nat, y0: nat, c: nat, r: nat)
    requires x0 < WIDTH && y0 < HEIGHT && c < WIDTH && r < HEIGHT
    ensures var u, v := Wrap(c - x0, WIDTH), Wrap(r - y0, HEIGHT);
      Step(Rect(x0, y0, 3, 1))[r][c] == (InBand(u - 1, 1, WIDTH) && InBand(v + 1, 3, HEIGHT))
  {
    RectStepCell(x0, y0, 3, 1, c, r);
    RowCell(Wrap(c - x0, WIDTH), Wrap(r - y0, HEIGHT));
  }

  /** A cell near a lone row of three is alive next iff it is on the column
      of three through the row's middle cell. */
  lemma RowStepCell(x0: nat, y0: nat, c: nat, r: nat)
    requires x0 < WIDTH && y0 < HEIGHT && c < WIDTH && r < HEIGHT
    ensures Step(Rect(x0, y0, 3, 1))[r][c] == Rect(Wrap(x0 + 1, WIDTH), Wrap(y0 - 1, HEIGHT), 1, 3)[r][c]
  {
    var x1, y1 := Wrap(x0 + 1, WIDTH), Wrap(y0 - 1, HEIGHT);
    var u: int, v: int := Wrap(c - x0, WIDTH), Wrap(r - y0, HEIGHT);
    RowNext(x0, y0, c, r);
    RectCell(x1, y1, 1, 3, c, r);
    BandShift(c, x0, 1, 1, WIDTH);
    BandShift(r, y0, -1, 3, HEIGHT);
    assert InBand(v - -1, 3, HEIGHT) == InBand(v + 1, 3, HEIGHT);
  }

  /** The next state of a cell near a lone column of three, relative to the
      column's top cell. */
  lemma ColumnNext(x0: nat, y0: nat, c: nat, r: nat)
    requires x0 < WIDTH && y0 < HEIGHT && c < WIDTH && r < HEIGHT
    ensures var u, v := Wrap(c - x0, WIDTH), Wrap(r - y0, HEIGHT);
      Step(Rect(x0, y0, 1, 3))[r][c] == (InBand(u + 1, 3, WIDTH) && InBand(v - 1, 1, HEIGHT))
  {
    RectStepCell(x0, y0, 1, 3, c, r);
    ColumnCell(Wrap(c - x0, WIDTH), Wrap(r - y0, HEIGHT));
  }

  /** A cell near a lone column of three is alive next iff it is on the row
      of three through the column's middle cell. */
  lemma ColumnStepCell(x0: nat, y0: nat, c: nat, r: nat)
    requires x0 < WIDTH && y0 < HEIGHT && c < WIDTH && r < HEIGHT
    ensures Step(Rect(x0, y0, 1, 3))[r][c] == Rect(Wrap(x0 - 1, WIDTH), Wrap(y0 + 1, HEIGHT), 3, 1)[r][c]
  {
    var x1, y1 := Wrap(x0 - 1, WIDTH), Wrap(y0 + 1, HEIGHT);
    var u: int, v: int := Wrap(c - x0, WIDTH), Wrap(r - y0, HEIGHT);
    ColumnNext(x0, y0, c, r);
    RectCell(x1, y1, 3, 1, c, r);
    BandShift(c, x0, -1, 3, WIDTH);
    BandShift(r, y0, 1, 1, HEIGHT);
    assert InBand(u - -1, 3, WIDTH) == InBand(u + 1, 3, WIDTH);
  }

  /** A lone 2 x 2 square does not change. */
  lemma SquareStill(x0: nat, y0: nat)
    requires x0 < WIDTH && y0 < HEIGHT
    ensures Step(Rect(x0, y0, 2, 2)) == Rect(x0, y0, 2, 2)
  {
    var g := Rect(x0, y0, 2, 2);
    forall r, c | 0 <= r < HEIGHT && 0 <= c < WIDTH
      ensures Step(g)[r][c] == g[r][c]
    {
      SquareStepCell(x0, y0, c, r);
    }
    SameCells(Step(g), g);
  }

  /** A lone row of three becomes the column of three through its middle cell. */
  lemma RowTurns(x0: nat, y0: nat)
    requires x0 < WIDTH && y0 < HEIGHT
    ensures Step(Rect(x0, y0, 3, 1)) == Rect(Wrap(x0 + 1, WIDTH), Wrap(y0 - 1, HEIGHT), 1, 3)
  {
    var g, h := Rect(x0, y0, 3, 1), Rect(Wrap(x0 + 1, WIDTH), Wrap(y0 - 1, HEIGHT), 1, 3);
    forall r, c | 0 <= r < HEIGHT && 0 <= c < WIDTH
      ensures Step(g)[r][c] == h[r][c]
    {
      RowStepCell(x0, y0, c, r);
    }
    SameCells(Step(g), h);
  }

  /** A lone column of three becomes the row of three through its middle cell. */
  lemma ColumnTurns(x0: nat, y0: nat)
    requires x0 < WIDTH && y0 < HEIGHT
    ensures Step(Rect(x0, y0, 1, 3)) == Rect(Wrap(x0 - 1, WIDTH), Wrap(y0 + 1, HEIGHT), 3, 1)
  {
    var g, h := Rect(x0, y0, 1, 3), Rect(Wrap(x0 - 1, WIDTH), Wrap(y0 + 1, HEIGHT), 3, 1);
    forall r, c | 0 <= r < HEIGHT && 0 <= c < WIDTH
      ensures Step(g)[r][c] == h[r][c]
    {
      ColumnStepCell(x0, y0, c, r);
    }
    SameCells(Step(g), h);
  }

  // ---------------------------------------------------------------------
  // The library's block and blinker
  // ---------------------------------------------------------------------

  /** A cell of a rectangular pattern stamped on an empty board. */
  lemma StampRectCell(x0: nat, y0: nat, p: Offsets, w: nat, h: nat, c: nat, r: nat)
    requires x0 < WIDTH && y0 < HEIGHT && w <= WIDTH && h <= HEIGHT && c < WIDTH && r < HEIGHT
    requires forall o: (nat, nat) :: o in p <==> o.0 < w && o.1 < h
    ensures Stamp(EmptyBoard(), x0, y0, p)[r][c] == Rect(x0, y0, w, h)[r][c]
  {
    var rel: (nat, nat) := (Wrap(c - x0, WIDTH), Wrap(r - y0, HEIGHT));
    StampIff(EmptyBoard(), x0, y0, p, c, r);
    RectCell(x0, y0, w, h, c, r);
    forall o | o in p
      ensures Target(x0, y0, o) == (c, r) <==> o == rel
    {
      TargetRelative(x0, y0, o, c, r);
    }
    assert Covers(x0, y0, p, c, r) <==> rel in p;
  }

  /** On the board, an offset lands on (c, r) iff it is the position of
      (c, r) relative to the anchor. */
  lemma TargetRelative(x0: nat, y0: nat, o: (nat, nat), c: nat, r: nat)
    requires x0 < WIDTH && y0 < HEIGHT && o.0 < WIDTH && o.1 < HEIGHT && c < WIDTH && r < HEIGHT
    ensures Target(x0, y0, o) == (c, r) <==> o == (Wrap(c - x0, WIDTH), Wrap(r - y0, HEIGHT))
  {
  }

  /** Stamping, on an empty board, a pattern whose offsets are exactly the
      cells of a w x h rectangle draws that rectangle. */
  lemma StampRect(x0: nat, y0: nat, p: Offsets, w: nat, h: nat)
    requires x0 < WIDTH && y0 < HEIGHT && w <= WIDTH && h <= HEIGHT
    requires forall o: (nat, nat) :: o in p <==> o.0 < w && o.1 < h
    ensures Stamp(EmptyBoard(), x0, y0, p) == Rect(x0, y0, w, h)
  {
    forall r, c | 0 <= r < HEIGHT && 0 <= c < WIDTH
      ensures Stamp(EmptyBoard(), x0, y0, p)[r][c] == Rect(x0, y0, w, h)[r][c]
    {
      StampRectCell(x0, y0, p, w, h, c, r);
    }
    SameCells(Stamp(EmptyBoard(), x0, y0, p), Rect(x0, y0, w, h));
  }

  /** The block, stamped alone anywhere on the torus, is a still life: a
      generation leaves the board as it is. */
  lemma BlockIsStillLife(x: nat, y: nat)
    ensures var b := Stamp(EmptyBoard(), x, y, BLOCK); Step(b) == b
  {
    var x0, y0 := Wrap(x, WIDTH), Wrap(y, HEIGHT);
    StampAnchor(EmptyBoard(), x, y, BLOCK);
    StampRect(x0, y0, BLOCK, 2, 2);
    SquareStill(x0, y0);
  }

  /** The blinker stamped alone is a row of three; one generation turns it
      into the column of three through its middle cell, and a second one turns
      it back. */
  lemma BlinkerRect(x: nat, y: nat)
    ensures var x0: nat, y0: nat := Wrap(x, WIDTH), Wrap(y, HEIGHT);
      var x1, y1 := Wrap(x0 + 1, WIDTH), Wrap(y0 as int - 1, HEIGHT);
      var b := Stamp(EmptyBoard(), x, y, BLINKER);
      && b == Rect(x0, y0, 3, 1)
      && Step(b) == Rect(x1, y1, 1, 3)
      && Step(Step(b)) == b
  {
    var x0: nat, y0: nat := Wrap(x, WIDTH), Wrap(y, HEIGHT);
    var x1: nat, y1: nat := Wrap(x0 + 1, WIDTH), Wrap(y0 as int - 1, HEIGHT);
    StampAnchor(EmptyBoard(), x, y, BLINKER);
    StampRect(x0, y0, BLINKER, 3, 1);
    RowTurns(x0, y0);
    ColumnTurns(x1, y1);
    assert Wrap(x1 as int - 1, WIDTH) == x0 && Wrap(y1 + 1, HEIGHT) == y0;
  }

  /** The cells of the column of three whose middle cell is (xm, ym). */
  lemma ColumnAround(xm: nat, ym: nat)
    requires xm < WIDTH && ym < HEIGHT
    ensures var top := Wrap(ym as int - 1, HEIGHT);
      forall r, c :: 0 <= r < HEIGHT && 0 <= c < WIDTH ==>
        (Rect(xm, top, 1, 3)[r][c] <==> c == xm && (r == top || r == ym || r == Wrap(ym + 1, HEIGHT)))
  {
    var top := Wrap(ym as int - 1, HEIGHT);
    forall r, c | 0 <= r < HEIGHT && 0 <= c < WIDTH
      ensures Rect(xm, top, 1, 3)[r][c] <==> c == xm && (r == top || r == ym || r == Wrap(ym + 1, HEIGHT))
    {
      RectCell(xm, top, 1, 3, c, r);
    }
  }

  /** The blinker, stamped alone anywhere on the torus as a row of three,
      becomes the column of three through its middle cell, differs from the
      row, and is back to the row after two generations. */
  lemma BlinkerOscillates(x: nat, y: nat)
    ensures var b := Stamp(EmptyBoard(), x, y, BLINKER);
      var x0, y0 := Wrap(x, WIDTH), Wrap(y, HEIGHT);
      && (forall r, c :: 0 <= r < HEIGHT && 0 <= c < WIDTH ==>
            (Step(b)[r][c] <==> c == Wrap(x0 + 1, WIDTH) && (r == Wrap(y0 - 1, HEIGHT) || r == y0 || r == Wrap(y0 + 1, HEIGHT))))
      && Step(b) != b
      && Step(Step(b)) == b
  {
    var b := Stamp(EmptyBoard(), x, y, BLINKER);
    var x0: nat, y0: nat := Wrap(x, WIDTH), Wrap(y, HEIGHT);
    var x1: nat, y1: nat := Wrap(x0 + 1, WIDTH), Wrap(y0 as int - 1, HEIGHT);
    BlinkerRect(x, y);
    ColumnAround(x1, y0);
    assert b[y0][x0] && !Step(b)[y0][x0] by {
      RectCell(x0, y0, 3, 1, x0, y0);
      RectCell(x1, y1, 1, 3, x0, y0);
    }
  }
}
