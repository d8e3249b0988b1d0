/** The pattern library: each named pattern is a fixed list of (dx, dy)
    offsets, stamped at an anchor through one wrapping write; the start-up
    scene is a fixed list of such stamps. */
module Patterns {
  import opened LifeGrid

  /** (dx, dy) offsets from the anchor of a pattern. */
  type Offsets = seq<(nat, nat)>

  const FLOWER: Offsets := [
    (0, 0), (0, 4), (1, 1), (1, 3), (2, 2),
    (3, 1), (3, 3), (4, 0), (4, 4),
    (1, 2), (2, 1), (2, 3), (3, 2)]

  const GLIDER: Offsets := [(1, 0), (2, 1), (0, 2), (1, 2), (2, 2)]

  /** Listed as two halves, the rows above and below the centre row. */
  const PULSAR: Offsets := [
    (2, 0), (3, 0), (4, 0), (8, 0), (9, 0), (10, 0),
    (0, 2), (5, 2), (7, 2), (12, 2),
    (0, 3), (5, 3), (7, 3), (12, 3),
    (0, 4), (5, 4), (7, 4), (12, 4),
    (2, 5), (3, 5), (4, 5), (8, 5), (9, 5), (10, 5)] + [
    (2, 7), (3, 7), (4, 7), (8, 7), (9, 7), (10, 7),
    (0, 8), (5, 8), (7, 8), (12, 8),
    (0, 9), (5, 9), (7, 9), (12, 9),
    (0, 10), (5, 10), (7, 10), (12, 10),
    (2, 12), (3, 12), (4, 12), (8, 12), (9, 12), (10, 12)]

  const PENTADECATHLON: Offsets := [
    (0, 0), (0, 1), (0, 2), (0, 3), (0, 4), (0, 5), (0, 6), (0, 7), (0, 8), (0, 9),
    (1, 0), (1, 9),
    (2, 0), (2, 1), (2, 2), (2, 3), (2, 4), (2, 5), (2, 6), (2, 7), (2, 8), (2, 9)]

  const BLINKER: Offsets := [(0, 0), (1, 0), (2, 0)]

  const BLOCK: Offsets := [(0, 0), (0, 1), (1, 0), (1, 1)]

  const BEEHIVE: Offsets := [(1, 0), (2, 0), (0, 1), (3, 1), (1, 2), (2, 2)]

  const LOAF: Offsets := [(1, 0), (2, 0), (0, 1), (3, 1), (1, 2), (3, 2), (2, 3)]

  const BOAT: Offsets := [(0, 0), (1, 0), (0, 1), (2, 1), (1, 2)]

  const TUB: Offsets := [(1, 0), (0, 1), (2, 1), (1, 2)]

  const TOAD: Offsets := [(1, 0), (2, 0), (3, 0), (0, 1), (1, 1), (2, 1)]

  const BEACON: Offsets := [(0, 0), (1, 0), (0, 1), (3, 2), (2, 3), (3, 3)]

  const LIGHTWEIGHT_SPACESHIP: Offsets :=
    [(1, 0), (4, 0), (0, 1), (0, 2), (4, 2), (0, 3), (1, 3), (2, 3), (3, 3)]

  const MIDDLEWEIGHT_SPACESHIP: Offsets :=
    [(2, 0), (4, 0), (1, 1), (5, 1), (0, 2), (0, 3), (5, 3), (0, 4), (1, 4), (2, 4), (3, 4), (4, 4)]

  const HEAVYWEIGHT_SPACESHIP: Offsets :=
    [(2, 0), (3, 0), (5, 0), (6, 0), (1, 1), (6, 1), (0, 2), (0, 3), (6, 3),
     (0, 4), (1, 4), (2, 4), (3, 4), (4, 4), (5, 4)]

  const HEART: Offsets := [
    (1, 0), (3, 0),
    (0, 1), (1, 1), (2, 1), (3, 1), (4, 1),
    (0, 2), (1, 2), (2, 2), (3, 2), (4, 2),
    (1, 3), (2, 3), (3, 3),
    (2, 4)]

  const STAR: Offsets := [
    (2, 0),
    (1, 1), (2, 1), (3, 1),
    (0, 2), (1, 2), (2, 2), (3, 2), (4, 2),
    (1, 3), (2, 3), (3, 3),
    (2, 4)]

  /** Every offset of p lies in a box of w columns and h rows from the anchor. */
  predicate Fits(p: Offsets, w: nat, h: nat) {
    forall i :: 0 <= i < |p| ==> p[i].0 < w && p[i].1 < h
  }

  // Each pattern lists its cells as offsets inside a small box: the lemmas
  // below give its cell count and the box (columns x rows) it fits in.

  /** The flower: 13 cells in a 5 x 5 box. */
  lemma FlowerShape()
    ensures |FLOWER| == 13 && Fits(FLOWER, 5, 5)
  {
  }

  /** The glider: 5 cells in a 3 x 3 box. */
  lemma GliderShape()
    ensures |GLIDER| == 5 && Fits(GLIDER, 3, 3)
  {
  }

  /** The pulsar: 48 cells in a 13 x 13 box. */
  lemma PulsarShape()
    ensures |PULSAR| == 48 && Fits(PULSAR, 13, 13)
  {
  }

  /** The pentadecathlon: 22 cells in a 3 x 10 box. */
  lemma PentadecathlonShape()
    ensures |PENTADECATHLON| == 22 && Fits(PENTADECATHLON, 3, 10)
  {
  }

  /** The blinker: 3 cells in a 3 x 1 box. */
  lemma BlinkerShape()
    ensures |BLINKER| == 3 && Fits(BLINKER, 3, 1)
  {
  }

  /** The block: 4 cells in a 2 x 2 box. */
  lemma BlockShape()
    ensures |BLOCK| == 4 && Fits(BLOCK, 2, 2)
  {
  }

  /** The beehive: 6 cells in a 4 x 3 box. */
  lemma BeehiveShape()
    ensures |BEEHIVE| == 6 && Fits(BEEHIVE, 4, 3)
  {
  }

  /** The loaf: 7 cells in a 4 x 4 box. */
  lemma LoafShape()
    ensures |LOAF| == 7 && Fits(LOAF, 4, 4)
  {
  }

  /** The boat: 5 cells in a 3 x 3 box. */
  lemma BoatShape()
    ensures |BOAT| == 5 && Fits(BOAT, 3, 3)
  {
  }

  /** The tub: 4 cells in a 3 x 3 box. */
  lemma TubShape()
    ensures |TUB| == 4 && Fits(TUB, 3, 3)
  {
  }

  /** The toad: 6 cells in a 4 x 2 box. */
  lemma ToadShape()
    ensures |TOAD| == 6 && Fits(TOAD, 4, 2)
  {
  }

  /** The beacon: 6 cells in a 4 x 4 box. */
  lemma BeaconShape()
    ensures |BEACON| == 6 && Fits(BEACON, 4, 4)
  {
  }

  /** The lightweight spaceship: 9 cells in a 5 x 4 box. */
  lemma LightweightSpaceshipShape()
    ensures |LIGHTWEIGHT_SPACESHIP| == 9 && Fits(LIGHTWEIGHT_SPACESHIP, 5, 4)
  {
  }

  /** The middleweight spaceship: 12 cells in a 6 x 5 box. */
  lemma MiddleweightSpaceshipShape()
    ensures |MIDDLEWEIGHT_SPACESHIP| == 12 && Fits(MIDDLEWEIGHT_SPACESHIP, 6, 5)
  {
  }

  /** The heavyweight spaceship: 15 cells in a 7 x 5 box. */
  lemma HeavyweightSpaceshipShape()
    ensures |HEAVYWEIGHT_SPACESHIP| == 15 && Fits(HEAVYWEIGHT_SPACESHIP, 7, 5)
  {
  }

  /** The heart: 16 cells in a 5 x 5 box. */
  lemma HeartShape()
    ensures |HEART| == 16 && Fits(HEART, 5, 5)
  {
  }

  /** The star: 13 cells in a 5 x 5 box. */
  lemma StarShape()
    ensures |STAR| == 13 && Fits(STAR, 5, 5)
  {
  }

  // ---------------------------------------------------------------------
  // Stamping
  // ---------------------------------------------------------------------

  /** The cell (column, row) that offset o lands on for the anchor (x, y). */
  function Target(x: nat, y: nat, o: (nat, nat)): (p: (nat, nat))
    ensures p.0 < WIDTH && p.1 < HEIGHT
  {
    (Wrap(x + o.0, WIDTH), Wrap(y + o.1, HEIGHT))
  }

  /** The one write primitive of the pattern library: make the cell at
      (column, row) p alive. */
  function SetAlive(g: Board, p: (nat, nat)): (h: Board)
    requires IsBoard(g) && p.0 < WIDTH && p.1 < HEIGHT
    ensures IsBoard(h)
  {
    g[p.1 := g[p.1][p.0 := true]]
  }

  /** Stamping writes the offsets one after the other. */
  function Stamp(g: Board, x: nat, y: nat, p: Offsets): (h: Board)
    requires IsBoard(g)
    ensures IsBoard(h)
  {
    if p == [] then g
    else SetAlive(Stamp(g, x, y, p[..|p| - 1]), Target(x, y, p[|p| - 1]))
  }

  /** Some offset of p, anchored at (x, y), lands on (c, r). */
  predicate Covers(x: nat, y: nat, p: Offsets, c: nat, r: nat) {
    exists o :: o in p && Target(x, y, o) == (c, r)
  }

  /** A stamp makes every target cell alive, never kills a cell, and leaves
      every cell that no offset lands on as it was. */
  lemma {:induction false} StampCells(g: Board, x: nat, y: nat, p: Offsets)
    requires IsBoard(g)
    ensures forall o :: o in p ==> Stamp(g, x, y, p)[Target(x, y, o).1][Target(x, y, o).0]
    ensures forall c, r :: 0 <= c < WIDTH && 0 <= r < HEIGHT && g[r][c] ==> Stamp(g, x, y, p)[r][c]
    ensures forall c, r :: 0 <= c < WIDTH && 0 <= r < HEIGHT && !Covers(x, y, p, c, r) ==>
      Stamp(g, x, y, p)[r][c] == g[r][c]
  {
    if p != [] {
      var q := p[..|p| - 1];
      StampCells(g, x, y, q);
      assert forall o :: o in p ==> o in q || o == p[|p| - 1];
      forall c, r | 0 <= c < WIDTH && 0 <= r < HEIGHT && !Covers(x, y, p, c, r)
        ensures Stamp(g, x, y, p)[r][c] == g[r][c]
      {
        assert !Covers(x, y, q, c, r);
      }
    }
  }

  /** Every cell after a stamp is alive exactly when it was alive before or
      some offset lands on it. */
  lemma StampIff(g: Board, x: nat, y: nat, p: Offsets, c: nat, r: nat)
    requires IsBoard(g) && c < WIDTH && r < HEIGHT
    ensures Stamp(g, x, y, p)[r][c] <==> g[r][c] || Covers(x, y, p, c, r)
  {
    StampCells(g, x, y, p);
    if Covers(x, y, p, c, r) {
      var o :| o in p && Target(x, y, o) == (c, r);
    }
  }

  /** Stamping the same pattern at the same anchor twice is the same as
      stamping it once. */
  lemma StampIdempotent(g: Board, x: nat, y: nat, p: Offsets)
    requires IsBoard(g)
    ensures Stamp(Stamp(g, x, y, p), x, y, p) == Stamp(g, x, y, p)
  {
    var once := Stamp(g, x, y, p);
    var twice := Stamp(once, x, y, p);
    forall r | 0 <= r < HEIGHT
      ensures twice[r] == once[r]
    {
      forall c | 0 <= c < WIDTH
        ensures twice[r][c] == once[r][c]
      {
        StampIff(g, x, y, p, c, r);
        StampIff(once, x, y, p, c, r);
      }
    }
  }

  /** Overlapping stamps only add liveness: the order of two stamps does not
      matter. */
  lemma StampCommutes(g: Board, x1: nat, y1: nat, p1: Offsets, x2: nat, y2: nat, p2: Offsets)
    requires IsBoard(g)
    ensures Stamp(Stamp(g, x1, y1, p1), x2, y2, p2) == Stamp(Stamp(g, x2, y2, p2), x1, y1, p1)
  {
    var a, b := Stamp(g, x1, y1, p1), Stamp(g, x2, y2, p2);
    var ab, ba := Stamp(a, x2, y2, p2), Stamp(b, x1, y1, p1);
    forall r | 0 <= r < HEIGHT
      ensures ab[r] == ba[r]
    {
      forall c | 0 <= c < WIDTH
        ensures ab[r][c] == ba[r][c]
      {
        StampIff(g, x1, y1, p1, c, r);
        StampIff(g, x2, y2, p2, c, r);
        StampIff(a, x2, y2, p2, c, r);
        StampIff(b, x1, y1, p1, c, r);
      }
    }
  }

  /** Anchors are read modulo the board size: an anchor and its wrapped copy
      land every offset on the same cell. */
  lemma TargetWraps(x: nat, y: nat, o: (nat, nat))
    ensures Target(x, y, o) == Target(Wrap(x, WIDTH), Wrap(y, HEIGHT), o)
  {
    WrapShift(x, o.0);
    WrapShift(y, o.1);
  }

  /** Stamping at an anchor off the board is stamping at its wrapped copy. */
  lemma {:induction false} StampAnchor(g: Board, x: nat, y: nat, p: Offsets)
    requires IsBoard(g)
    ensures Stamp(g, x, y, p) == Stamp(g, Wrap(x, WIDTH), Wrap(y, HEIGHT), p)
  {
    if p != [] {
      StampAnchor(g, x, y, p[..|p| - 1]);
      TargetWraps(x, y, p[|p| - 1]);
    }
  }

  // ---------------------------------------------------------------------
  // The start-up scene
  // ---------------------------------------------------------------------

  /** One stamp of the scene: a pattern's offsets and its anchor (x, y). */
  datatype Placement = Placement(pattern: Offsets, x: nat, y: nat)

  /** The fixed, deterministic scene stamped when the engine is built. */
  const SCENE: seq<Placement> := [
    // central patterns
    Placement(FLOWER, WIDTH / 2, HEIGHT / 2),
    Placement(PULSAR, WIDTH / 2, HEIGHT / 2 - 20),
    Placement(PULSAR, WIDTH / 2, HEIGHT / 2 + 20),
    Placement(PENTADECATHLON, WIDTH / 2 - 20, HEIGHT / 2),
    Placement(PENTADECATHLON, WIDTH / 2 + 20, HEIGHT / 2),
    // corners
    Placement(GLIDER, 5, 5),
    Placement(GLIDER, WIDTH - 10, 5),
    Placement(GLIDER, 5, HEIGHT - 10),
    Placement(GLIDER, WIDTH - 10, HEIGHT - 10),
    // edges
    Placement(BLINKER, WIDTH / 4, 5),
    Placement(BLINKER, 3 * WIDTH / 4, HEIGHT - 5),
    Placement(BLOCK, 5, HEIGHT / 2),
    Placement(BLOCK, WIDTH - 5, HEIGHT / 2),
    // scattered
    Placement(BEEHIVE, WIDTH / 3, HEIGHT / 3),
    Placement(BEEHIVE, 2 * WIDTH / 3, 2 * HEIGHT / 3),
    Placement(LOAF, WIDTH / 4, 3 * HEIGHT / 4),
    Placement(LOAF, 3 * WIDTH / 4, HEIGHT / 4),
    // further patterns
    Placement(BOAT, WIDTH / 5, HEIGHT / 5),
    Placement(TUB, 4 * WIDTH / 5, 4 * HEIGHT / 5),
    Placement(TOAD, WIDTH / 6, HEIGHT / 2),
    Placement(BEACON, 5 * WIDTH / 6, HEIGHT / 2),
    Placement(LIGHTWEIGHT_SPACESHIP, WIDTH / 2, HEIGHT / 6),
    Placement(MIDDLEWEIGHT_SPACESHIP, WIDTH / 2, 5 * HEIGHT / 6),
    Placement(HEAVYWEIGHT_SPACESHIP, WIDTH / 3, HEIGHT / 2),
    // shapes
    Placement(HEART, WIDTH / 4, HEIGHT / 4),
    Placement(STAR, 3 * WIDTH / 4, 3 * HEIGHT / 4),
    // more spaceships
    Placement(GLIDER, WIDTH / 3, HEIGHT / 4),
    Placement(GLIDER, 2 * WIDTH / 3, 3 * HEIGHT / 4),
    Placement(LIGHTWEIGHT_SPACESHIP, WIDTH / 4, 2 * HEIGHT / 3),
    Placement(MIDDLEWEIGHT_SPACESHIP, 3 * WIDTH / 4, HEIGHT / 3),
    // more still lifes
    Placement(BLOCK, WIDTH / 8, HEIGHT / 8),
    Placement(BLOCK, 7 * WIDTH / 8, 7 * HEIGHT / 8),
    Placement(BEEHIVE, 3 * WIDTH / 4, HEIGHT / 8),
    Placement(BEEHIVE, WIDTH / 8, 3 * HEIGHT / 4),
    Placement(LOAF, 5 * WIDTH / 6, HEIGHT / 6),
    Placement(LOAF, WIDTH / 6, 5 * HEIGHT / 6)]

  /** The scene has 36 placements, and every anchor lies on the board, so
      only a pattern's offsets ever wrap. */
  lemma SceneOnBoard()
    ensures |SCENE| == 36
    ensures forall i :: 0 <= i < |SCENE| ==> SCENE[i].x < WIDTH && SCENE[i].y < HEIGHT
  {
  }

  /** Stamps a list of placements in order. */
  function StampAll(g: Board, scene: seq<Placement>): (h: Board)
    requires IsBoard(g)
    ensures IsBoard(h)
  {
    if scene == [] then g
    else
      var pl := scene[|scene| - 1];
      Stamp(StampAll(g, scene[..|scene| - 1]), pl.x, pl.y, pl.pattern)
  }

  /** Stamping a list of placements never kills a cell. */
  lemma {:induction false} StampAllKeeps(g: Board, scene: seq<Placement>)
    requires IsBoard(g)
    ensures forall c, r :: 0 <= c < WIDTH && 0 <= r < HEIGHT && g[r][c] ==> StampAll(g, scene)[r][c]
  {
    if scene != [] {
      var n := |scene| - 1;
      var pl := scene[n];
      StampAllKeeps(g, scene[..n]);
      StampCells(StampAll(g, scene[..n]), pl.x, pl.y, pl.pattern);
    }
  }

  /** Every cell of the placed pattern is alive on board h. */
  predicate PlacedAlive(h: Board, pl: Placement)
    requires IsBoard(h)
  {
    forall o :: o in pl.pattern ==> h[Target(pl.x, pl.y, o).1][Target(pl.x, pl.y, o).0]
  }

  /** A placement stamped onto a board is alive there. */
  lemma StampPlacedAlive(g: Board, pl: Placement)
    requires IsBoard(g)
    ensures PlacedAlive(Stamp(g, pl.x, pl.y, pl.pattern), pl)
  {
    StampCells(g, pl.x, pl.y, pl.pattern);
  }

  /** A placement alive on g stays alive on any board that keeps g's live cells. */
  lemma PlacedAliveKept(g: Board, h: Board, pl: Placement)
    requires IsBoard(g) && IsBoard(h) && PlacedAlive(g, pl)
    requires forall c, r :: 0 <= c < WIDTH && 0 <= r < HEIGHT && g[r][c] ==> h[r][c]
    ensures PlacedAlive(h, pl)
  {
    forall o | o in pl.pattern
      ensures h[Target(pl.x, pl.y, o).1][Target(pl.x, pl.y, o).0]
    {
      var t := Target(pl.x, pl.y, o);
      assert g[t.1][t.0];
    }
  }

  /** After stamping a list of placements, every cell of every placed pattern
      is alive. */
  lemma {:induction false} StampAllAlive(g: Board, scene: seq<Placement>)
    requires IsBoard(g)
    ensures forall i :: 0 <= i < |scene| ==> PlacedAlive(StampAll(g, scene), scene[i])
  {
    if scene != [] {
      var n := |scene| - 1;
      var pl := scene[n];
      var before := StampAll(g, scene[..n]);
      var after := StampAll(g, scene);
      assert after == Stamp(before, pl.x, pl.y, pl.pattern);
      StampAllAlive(g, scene[..n]);
      StampPlacedAlive(before, pl);
      StampCells(before, pl.x, pl.y, pl.pattern);
      forall i | 0 <= i < n
        ensures PlacedAlive(after, scene[i])
      {
        assert scene[..n][i] == scene[i];
        PlacedAliveKept(before, after, scene[i]);
      }
    }
  }
}
