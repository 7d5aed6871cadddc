/**
 * Game-wide constants: screen and tile geometry, scoring, tile codes, the four
 * movement directions, and the top-left-corner grid/world conversion that the
 * collectibles use.  Durations are counted in ticks of the 60 Hz game loop.
 */
module Constants {
  const ScreenWidth: int := 500
  const ScreenHeight: int := 500

  const TileSize: int := 20
  const MazeWidth: int := 25
  const MazeHeight: int := 25

  const InitialLives: int := 3
  const DotPoints: int := 10
  const PowerPelletPoints: int := 50
  const GhostPoints: int := 200

  /** Ticks per second of the fixed-step game loop. */
  const TicksPerSecond: nat := 60
  /** Ten seconds of power mode. */
  const PowerPelletDuration: nat := 600

  // Maze tile codes.
  const EmptyTile: int := 0
  const WallTile: int := 1
  const DotTile: int := 2
  const PowerPelletTile: int := 3
  const GhostSpawnTile: int := 4
  const PacmanSpawnTile: int := 5

  /** A movement vector as the game stores it: (dx, dy) in grid cells. */
  type Vector = (int, int)

  const UpVector: Vector := (0, -1)
  const DownVector: Vector := (0, 1)
  const LeftVector: Vector := (-1, 0)
  const RightVector: Vector := (1, 0)

  /** The four movement directions; their vectors are the constants above. */
  datatype Dir = Up | Down | Left | Right

  function Vec(d: Dir): Vector
  {
    match d
    case Up => UpVector
    case Down => DownVector
    case Left => LeftVector
    case Right => RightVector
  }

  function Dx(d: Dir): int { Vec(d).0 }
  function Dy(d: Dir): int { Vec(d).1 }

  /** The enumeration order the ghost AI scans directions in. */
  const AllDirs: seq<Dir> := [Up, Down, Left, Right]

  /** Each direction is a unit step along exactly one axis, and the pairs
      Up/Down and Left/Right are negations of each other. */
  lemma DirectionVectors(d: Dir)
    ensures (Dx(d) == 0) != (Dy(d) == 0)
    ensures Dx(d) * Dx(d) + Dy(d) * Dy(d) == 1
    ensures Vec(Down) == (-Vec(Up).0, -Vec(Up).1)
    ensures Vec(Right) == (-Vec(Left).0, -Vec(Left).1)
    ensures d in AllDirs
  {
  }

  /** Vector lookup is injective, so a Dir stands for exactly one of the four constants. */
  lemma VecInjective(d: Dir, e: Dir)
    ensures Vec(d) == Vec(e) <==> d == e
  {
  }

  /** The screen is exactly as large as the maze in pixels. */
  lemma ScreenFitsMaze()
    ensures ScreenWidth == MazeWidth * TileSize && ScreenHeight == MazeHeight * TileSize
  {
  }

  /** Top-left pixel corner of a tile. */
  function GridToWorld(gx: int, gy: int): (w: (int, int))
    ensures w.0 % TileSize == 0 && w.1 % TileSize == 0
  {
    (gx * TileSize, gy * TileSize)
  }

  /** Tile that contains a pixel, by floor division (Python `//`; for the
      positive tile size this coincides with Dafny's Euclidean `/`). */
  function WorldToGrid(wx: int, wy: int): (g: (int, int))
    ensures g.0 * TileSize <= wx < g.0 * TileSize + TileSize
    ensures g.1 * TileSize <= wy < g.1 * TileSize + TileSize
  {
    (wx / TileSize, wy / TileSize)
  }

  /** Every pixel of the tile [x*20, x*20+20) maps back to column x (and likewise for rows). */
  lemma {:induction false} WorldToGridOfTile(gx: int, gy: int, wx: int, wy: int)
    requires gx * TileSize <= wx < gx * TileSize + TileSize
    requires gy * TileSize <= wy < gy * TileSize + TileSize
    ensures WorldToGrid(wx, wy) == (gx, gy)
  {
    FloorUnique(wx, gx);
    FloorUnique(wy, gy);
  }

  /** Converting a tile to its corner and back yields the same tile, for every integer tile. */
  lemma CornerRoundTrip(gx: int, gy: int)
    ensures WorldToGrid(GridToWorld(gx, gy).0, GridToWorld(gx, gy).1) == (gx, gy)
  {
    WorldToGridOfTile(gx, gy, gx * TileSize, gy * TileSize);
  }

  /** The quotient of floor division by the tile size is the unique q with q*20 <= w < q*20 + 20. */
  lemma FloorUnique(w: int, q: int)
    requires q * TileSize <= w < q * TileSize + TileSize
    ensures w / TileSize == q
  {
  }
}
