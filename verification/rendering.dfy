/** How the board is drawn: every cell becomes a CELL_SIZE x CELL_SIZE block
    of one colour in a flat, row-major pixel buffer of the magnified canvas. */
module Rendering {
  import opened LifeGrid

  const CELL_SIZE: nat := 5

  /** A packed 0xRRGGBB pixel, held in an unsigned 32-bit word. */
  type u32 = x: int | 0 <= x < 0x1_0000_0000

  const COLORS: seq<u32> := [0xffd6ff, 0xe7c6ff, 0xc8b6ff, 0xb8c0ff, 0xbbd0ff]
  const BACKGROUND: u32 := 0x000000

  /** Width of the magnified canvas, in pixels. */
  const ROW_PIXELS: nat := WIDTH * CELL_SIZE

  /** Length of the pixel buffer. */
  const PIXELS: nat := WIDTH * HEIGHT * CELL_SIZE * CELL_SIZE

  /** Buffer index of pixel (dx, dy) inside the block of cell (x, y): canvas
      row y * CELL_SIZE + dy, canvas column x * CELL_SIZE + dx. */
  function PixelIndex(x: nat, y: nat, dx: nat, dy: nat): (i: nat)
    ensures x < WIDTH && y < HEIGHT && dx < CELL_SIZE && dy < CELL_SIZE ==> i < PIXELS
  {
    (y * CELL_SIZE + dy) * WIDTH * CELL_SIZE + (x * CELL_SIZE + dx)
  }

  /** The cell (column, row) whose block holds buffer index i. */
  function PixelCell(i: nat): (p: (nat, nat))
    requires i < PIXELS
    ensures p.0 < WIDTH && p.1 < HEIGHT
  {
    ((i % ROW_PIXELS) / CELL_SIZE, (i / ROW_PIXELS) / CELL_SIZE)
  }

  /** The position (dx, dy) of buffer index i inside its block. */
  function PixelOffset(i: nat): (d: (nat, nat))
    ensures d.0 < CELL_SIZE && d.1 < CELL_SIZE
  {
    ((i % ROW_PIXELS) % CELL_SIZE, (i / ROW_PIXELS) % CELL_SIZE)
  }

  /** Every pixel of every block lies inside the buffer, and the block layout
      can be read back from the index: no two (cell, offset) pairs share a
      pixel. */
  lemma PixelIndexRoundTrip(x: nat, y: nat, dx: nat, dy: nat)
    requires x < WIDTH && y < HEIGHT && dx < CELL_SIZE && dy < CELL_SIZE
    ensures PixelIndex(x, y, dx, dy) < PIXELS
    ensures PixelCell(PixelIndex(x, y, dx, dy)) == (x, y)
    ensures PixelOffset(PixelIndex(x, y, dx, dy)) == (dx, dy)
  {
    var i := PixelIndex(x, y, dx, dy);
    assert i == (y * CELL_SIZE + dy) * ROW_PIXELS + (x * CELL_SIZE + dx);
    assert i / ROW_PIXELS == y * CELL_SIZE + dy;
    assert i % ROW_PIXELS == x * CELL_SIZE + dx;
  }

  /** Every buffer index is a pixel of exactly the block its cell and offset
      name: the blocks cover the whole buffer. */
  lemma PixelSplit(i: nat)
    requires i < PIXELS
    ensures PixelIndex(PixelCell(i).0, PixelCell(i).1, PixelOffset(i).0, PixelOffset(i).1) == i
  {
    var q, r := i / ROW_PIXELS, i % ROW_PIXELS;
    assert i == q * ROW_PIXELS + r;
    assert q == (q / CELL_SIZE) * CELL_SIZE + q % CELL_SIZE;
    assert r == (r / CELL_SIZE) * CELL_SIZE + r % CELL_SIZE;
  }

  // ---------------------------------------------------------------------
  // Colours
  // ---------------------------------------------------------------------

  /** Palette slot of a live cell: it shifts every 20 columns, every 20 rows
      and every 10 generations, cycling through the palette. */
  function PaletteIndex(x: nat, y: nat, generation: nat): (k: nat)
    ensures k < |COLORS|
  {
    (x / 20 + y / 20 + generation / 10) % |COLORS|
  }

  /** Colour of cell (x, y): a palette colour when alive, the background when dead. */
  function CellColor(g: Board, generation: nat, x: nat, y: nat): (c: u32)
    requires IsBoard(g) && x < WIDTH && y < HEIGHT
    ensures g[y][x] <==> c != BACKGROUND
    ensures g[y][x] ==> c in COLORS
  {
    if g[y][x] then COLORS[PaletteIndex(x, y, generation)] else BACKGROUND
  }

  /** The whole buffer a render of board g at this generation produces: every
      pixel takes the colour of the cell whose block holds it. */
  function Frame(g: Board, generation: nat): (f: seq<u32>)
    requires IsBoard(g)
    ensures |f| == PIXELS
  {
    seq(PIXELS, i requires 0 <= i < PIXELS => CellColor(g, generation, PixelCell(i).0, PixelCell(i).1))
  }

  /** In a rendered frame every pixel of the block of a dead cell is the
      background, and every pixel of the block of a live cell is the palette
      colour COLORS[(x / 20 + y / 20 + generation / 10) % 5]. */
  lemma FrameBlock(g: Board, generation: nat, x: nat, y: nat, dx: nat, dy: nat)
    requires IsBoard(g) && x < WIDTH && y < HEIGHT && dx < CELL_SIZE && dy < CELL_SIZE
    ensures PixelIndex(x, y, dx, dy) < PIXELS
    ensures !g[y][x] ==> Frame(g, generation)[PixelIndex(x, y, dx, dy)] == BACKGROUND
    ensures g[y][x] ==>
      Frame(g, generation)[PixelIndex(x, y, dx, dy)] == COLORS[(x / 20 + y / 20 + generation / 10) % 5]
  {
    PixelIndexRoundTrip(x, y, dx, dy);
  }
}
