/** The engine object: it owns the board, the pixel buffer, the generation
    counter, the paused flag and the time of the last accepted generation,
    and updates them in place. */
module Engine {
  import opened LifeGrid
  import opened Rules
  import opened Patterns
  import opened Rendering

  /** Minimum time between two accepted generations, in milliseconds. */
  const TICK_RATE_MS: nat := 70

  /** Time passed since `since`, as a monotonic clock reports it: never negative. */
  function Elapsed(now: nat, since: nat): (e: nat)
    ensures since <= now ==> since + e == now
    ensures now <= since ==> e == 0
  {
    if now >= since then now - since else 0
  }

  /** Update computes a generation only when the engine is not paused and a
      full tick has passed since the last generation. */
  function Ticks(paused: bool, now: nat, lastUpdate: nat): (t: bool)
    ensures t <==> !paused && lastUpdate + TICK_RATE_MS <= now
  {
    !paused && Elapsed(now, lastUpdate) >= TICK_RATE_MS
  }

  /** How many of the eight Moore offsets the counting loop has visited when
      it reaches (dx, dy); dx == 2 stands for the end of row dy, and
      (-1, 2) for the end of the last row. */
  function Visited(dx: int, dy: int): (k: nat)
    requires (-1 <= dx <= 2 && -1 <= dy <= 1) || (dx == -1 && dy == 2)
    ensures k <= |MOORE|
  {
    var k := 3 * (dy + 1) + (dx + 1);
    if k > 4 then k - 1 else k
  }

  /** The offset the counting loop visits at (dx, dy) is the next one of MOORE. */
  lemma VisitedOffset(dx: int, dy: int)
    requires -1 <= dx <= 1 && -1 <= dy <= 1 && (dx, dy) != (0, 0)
    ensures Visited(dx, dy) < |MOORE| && MOORE[Visited(dx, dy)] == (dx, dy)
    ensures Visited(dx + 1, dy) == Visited(dx, dy) + 1
  {
  }

  /** One iteration of the counting loop adds the liveness of the cell it
      computes, (x + dx + WIDTH) % WIDTH and (y + dy + HEIGHT) % HEIGHT, which is
      the next Moore neighbour. */
  lemma CountStep(g: Board, x: nat, y: nat, dx: int, dy: int)
    requires IsBoard(g) && x < WIDTH && y < HEIGHT
    requires -1 <= dx <= 1 && -1 <= dy <= 1 && (dx, dy) != (0, 0)
    ensures Visited(dx, dy) < |MOORE| && Visited(dx + 1, dy) == Visited(dx, dy) + 1
    ensures var nx, ny := (x + dx + WIDTH) % WIDTH, (y + dy + HEIGHT) % HEIGHT;
      CountAmong(g, x, y, Visited(dx + 1, dy)) ==
        CountAmong(g, x, y, Visited(dx, dy)) + (if g[ny][nx] then 1 else 0)
  {
    VisitedOffset(dx, dy);
    var k := Visited(dx, dy);
    assert (x + dx + WIDTH) % WIDTH == Wrap(x + dx, WIDTH);
    assert (y + dy + HEIGHT) % HEIGHT == Wrap(y + dy, HEIGHT);
    assert NeighbourAt(x, y, k) == (Wrap(x + dx, WIDTH), Wrap(y + dy, HEIGHT));
  }

  class Game {
    var grid: Board
    const buffer: array<u32>
    var generation: nat
    var paused: bool
    var lastUpdate: nat

    ghost predicate Valid()
      reads this
    {
      IsBoard(grid) && buffer.Length == PIXELS
    }

    /** A fresh engine: generation 0, running, every pixel the background, and
        the start-up scene stamped on an empty board. `now` is the clock
        reading taken at construction. */
    constructor (now: nat)
      ensures Valid() && fresh(buffer)
      ensures generation == 0 && !paused && lastUpdate == now
      ensures forall i :: 0 <= i < buffer.Length ==> buffer[i] == BACKGROUND
      ensures grid == StampAll(EmptyBoard(), SCENE)
      ensures forall i :: 0 <= i < |SCENE| ==> PlacedAlive(grid, SCENE[i])
    {
      grid := EmptyBoard();
      buffer := new u32[PIXELS](_ => BACKGROUND);
      generation := 0;
      paused := false;
      lastUpdate := now;
      new;
      InitializeGrid();
      StampAllAlive(EmptyBoard(), SCENE);
    }

    /** Stamps the start-up scene, placement by placement. */
    method InitializeGrid()
      requires Valid()
      modifies this
      ensures Valid()
      ensures grid == StampAll(old(grid), SCENE)
      ensures generation == old(generation) && paused == old(paused) && lastUpdate == old(lastUpdate)
    {
      for i := 0 to |SCENE|
        invariant Valid()
        invariant grid == StampAll(old(grid), SCENE[..i])
        invariant generation == old(generation) && paused == old(paused) && lastUpdate == old(lastUpdate)
      {
        var pl := SCENE[i];
        SetCells(pl.x, pl.y, pl.pattern);
        assert SCENE[..i + 1][..i] == SCENE[..i];
      }
      assert SCENE[..|SCENE|] == SCENE;
    }

    /** Makes every cell the pattern covers from anchor (x, y) alive, wrapping
        around both edges; nothing else changes. */
    method SetCells(x: nat, y: nat, pattern: Offsets)
      requires Valid()
      modifies this
      ensures Valid()
      ensures grid == Stamp(old(grid), x, y, pattern)
      ensures generation == old(generation) && paused == old(paused) && lastUpdate == old(lastUpdate)
    {
      for k := 0 to |pattern|
        invariant Valid()
        invariant grid == Stamp(old(grid), x, y, pattern[..k])
        invariant generation == old(generation) && paused == old(paused) && lastUpdate == old(lastUpdate)
      {
        var (dx, dy) := pattern[k];
        var nx := (x + dx) % WIDTH;
        var ny := (y + dy) % HEIGHT;
        grid := grid[ny := grid[ny][nx := true]];
        assert pattern[..k + 1][..k] == pattern[..k];
      }
      assert pattern[..|pattern|] == pattern;
    }

    /** Counts the live cells among the eight wrapped neighbours of (x, y). */
    method CountLiveNeighbors(x: nat, y: nat) returns (count: nat)
      requires Valid() && x < WIDTH && y < HEIGHT
      ensures count == NeighborCount(grid, x, y)
      ensures count <= 8
    {
      count := 0;
      for dy := -1 to 2
        invariant count == CountAmong(grid, x, y, Visited(-1, dy))
      {
        for dx := -1 to 2
          invariant count == CountAmong(grid, x, y, Visited(dx, dy))
        {
          if dx == 0 && dy == 0 {
            continue;
          }
          var nx := (x + dx + WIDTH) % WIDTH;
          var ny := (y + dy + HEIGHT) % HEIGHT;
          CountStep(grid, x, y, dx, dy);
          if grid[ny][nx] {
            count := count + 1;
          }
        }
      }
    }

    /** Advances one generation at clock reading `now`, unless paused or less
        than a tick has passed; the new board is built from the old one only
        and then replaces it. */
    method Update(now: nat)
      requires Valid()
      modifies this
      ensures Valid()
      ensures paused == old(paused)
      ensures !Ticks(old(paused), now, old(lastUpdate)) ==>
        grid == old(grid) && generation == old(generation) && lastUpdate == old(lastUpdate)
      ensures Ticks(old(paused), now, old(lastUpdate)) ==>
        grid == Step(old(grid)) && generation == old(generation) + 1 && lastUpdate == now
    {
      if paused || Elapsed(now, lastUpdate) < TICK_RATE_MS {
        return;
      }
      ghost var next := Step(grid);
      var newGrid := EmptyBoard();
      for y := 0 to HEIGHT
        invariant Valid() && unchanged(this)
        invariant IsBoard(newGrid)
        invariant forall r :: 0 <= r < y ==> newGrid[r] == next[r]
      {
        for x := 0 to WIDTH
          invariant Valid() && unchanged(this)
          invariant IsBoard(newGrid)
          invariant forall r :: 0 <= r < y ==> newGrid[r] == next[r]
          invariant forall c :: 0 <= c < x ==> newGrid[y][c] == next[y][c]
        {
          var liveNeighbors := CountLiveNeighbors(x, y);
          var cell := match (grid[y][x], liveNeighbors)
            case (true, 2) | (true, 3) => true
            case (false, 3) => true
            case _ => false;
          StepCell(grid, x, y);
          assert cell == next[y][x];
          newGrid := newGrid[y := newGrid[y][x := cell]];
        }
        assert newGrid[y] == next[y];
      }
      assert newGrid == next;
      grid := newGrid;
      generation := generation + 1;
      lastUpdate := now;
    }

    /** Redraws the whole buffer from the board and the generation. */
    method Render()
      requires Valid()
      modifies buffer
      ensures buffer[..] == Frame(grid, generation)
    {
      for y := 0 to HEIGHT
        invariant forall i :: 0 <= i < PIXELS ==>
          buffer[i] == if PixelCell(i).1 < y then Frame(grid, generation)[i] else old(buffer[i])
      {
        for x := 0 to WIDTH
          invariant forall i :: 0 <= i < PIXELS ==>
            buffer[i] == if PixelCell(i).1 < y || (PixelCell(i).1 == y && PixelCell(i).0 < x)
                         then Frame(grid, generation)[i] else old(buffer[i])
        {
          var color := if grid[y][x] then COLORS[(x / 20 + y / 20 + generation / 10) % |COLORS|]
                       else BACKGROUND;
          DrawCell(x, y, color);
        }
      }
    }

    /** Paints the CELL_SIZE x CELL_SIZE block of cell (x, y) in `color`;
        every other pixel keeps its value. */
    method DrawCell(x: nat, y: nat, color: u32)
      requires Valid() && x < WIDTH && y < HEIGHT
      modifies buffer
      ensures forall i :: 0 <= i < PIXELS ==>
        buffer[i] == if PixelCell(i) == (x, y) then color else old(buffer[i])
      ensures forall dx, dy :: 0 <= dx < CELL_SIZE && 0 <= dy < CELL_SIZE ==>
        PixelIndex(x, y, dx, dy) < PIXELS && buffer[PixelIndex(x, y, dx, dy)] == color
    {
      for dy := 0 to CELL_SIZE
        invariant forall i :: 0 <= i < PIXELS ==>
          buffer[i] == if PixelCell(i) == (x, y) && PixelOffset(i).1 < dy then color else old(buffer[i])
      {
        for dx := 0 to CELL_SIZE
          invariant forall i :: 0 <= i < PIXELS ==>
            buffer[i] == if PixelCell(i) == (x, y) && (PixelOffset(i).1 < dy || (PixelOffset(i).1 == dy && PixelOffset(i).0 < dx))
                         then color else old(buffer[i])
        {
          var px := x * CELL_SIZE + dx;
          var py := y * CELL_SIZE + dy;
          var index := py * WIDTH * CELL_SIZE + px;
          PixelIndexRoundTrip(x, y, dx, dy);
          buffer[index] := color;
          forall i | 0 <= i < PIXELS
            ensures PixelIndex(PixelCell(i).0, PixelCell(i).1, PixelOffset(i).0, PixelOffset(i).1) == i
          {
            PixelSplit(i);
          }
        }
      }
      forall dx, dy | 0 <= dx < CELL_SIZE && 0 <= dy < CELL_SIZE
        ensures PixelIndex(x, y, dx, dy) < PIXELS && PixelCell(PixelIndex(x, y, dx, dy)) == (x, y)
      {
        PixelIndexRoundTrip(x, y, dx, dy);
      }
    }

    /** Flips the paused flag and nothing else. */
    method TogglePause()
      modifies this
      ensures paused == !old(paused)
      ensures grid == old(grid) && generation == old(generation) && lastUpdate == old(lastUpdate)
    {
      paused := !paused;
    }

    /** Kills every cell and resets the generation counter; the buffer keeps
        the last rendered frame. */
    method Clear()
      requires Valid()
      modifies this
      ensures Valid()
      ensures grid == EmptyBoard()
      ensures GetLiveCells() == 0 && GetGeneration() == 0
      ensures paused == old(paused) && lastUpdate == old(lastUpdate)
    {
      grid := EmptyBoard();
      generation := 0;
    }

    /** The number of generations since the engine was built or cleared. */
    function GetGeneration(): (n: nat)
      reads this
      ensures n == generation
    {
      generation
    }

    /** The number of live cells on the board. */
    function GetLiveCells(): (n: nat)
      reads this
      requires Valid()
      ensures n == |set y: nat, x: nat | y < HEIGHT && x < WIDTH && grid[y][x] :: (x, y)|
      ensures n <= WIDTH * HEIGHT
      ensures n == 0 <==> forall y, x :: 0 <= y < HEIGHT && 0 <= x < WIDTH ==> !grid[y][x]
    {
      LiveCellsIsSize(grid);
      assert LivePositions(grid) == set y: nat, x: nat | y < HEIGHT && x < WIDTH && grid[y][x] :: (x, y);
      LiveCells(grid)
    }
  }
}
