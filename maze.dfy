/**
 * The maze: a rectangular grid of tile codes.  Every query treats a cell
 * outside the grid as a wall; movement wraps around the left and right edges
 * but never the top and bottom ones.
 */
module MazeGrid {
  import opened Wrappers
  import opened Constants

  /** A grid cell (x, y): column, then row. */
  type Cell = (int, int)

  /** The layout with the width and height taken from it when it was loaded. */
  datatype Maze = Maze(layout: seq<seq<int>>, width: int, height: int)

  /** Shape invariant: the dimensions are those of the layout and every row is as wide as the first. */
  predicate Valid(m: Maze)
  {
    |m.layout| > 0 && m.height == |m.layout| && m.width == |m.layout[0]| &&
    forall y :: 0 <= y < |m.layout| ==> |m.layout[y]| == m.width
  }

  /** Installs a layout; the first row fixes the width (an empty layout has no first row). */
  function LoadMaze(layout: seq<seq<int>>): (m: Maze)
    requires |layout| > 0
    ensures m.layout == layout && m.width == |layout[0]| && m.height == |layout|
    ensures Valid(m) <==> forall y :: 0 <= y < |layout| ==> |layout[y]| == |layout[0]|
  {
    Maze(layout, |layout[0]|, |layout|)
  }

  /** The built-in 25 x 25 level. */
  const DefaultLayout: seq<seq<int>> := [
      [1, 1, 1, 1, 1, 1, 1, 1, 1, 1, 1, 1, 1, 1, 1, 1, 1, 1, 1, 1, 1, 1, 1, 1, 1],
      [1, 2, 2, 2, 2, 2, 2, 2, 2, 2, 2, 2, 1, 2, 2, 2, 2, 2, 2, 2, 2, 2, 2, 2, 1],
      [1, 3, 1, 1, 1, 2, 1, 1, 1, 1, 1, 2, 1, 2, 1, 1, 1, 1, 1, 2, 1, 1, 1, 3, 1],
      [1, 2, 2, 2, 2, 2, 2, 2, 2, 2, 2, 2, 2, 2, 2, 2, 2, 2, 2, 2, 2, 2, 2, 2, 1],
      [1, 2, 1, 1, 1, 2, 1, 2, 1, 1, 1, 1, 1, 1, 1, 1, 1, 2, 1, 2, 1, 1, 1, 2, 1],
      [1, 2, 2, 2, 2, 2, 1, 2, 2, 2, 2, 2, 1, 2, 2, 2, 2, 2, 1, 2, 2, 2, 2, 2, 1],
      [1, 1, 1, 1, 1, 2, 1, 1, 1, 1, 1, 0, 1, 0, 1, 1, 1, 1, 1, 2, 1, 1, 1, 1, 1],
      [0, 0, 0, 0, 1, 2, 1, 0, 0, 0, 0, 0, 0, 0, 0, 0, 0, 0, 1, 2, 1, 0, 0, 0, 0],
      [1, 1, 1, 1, 1, 2, 1, 0, 1, 1, 4, 4, 4, 4, 4, 1, 1, 0, 1, 2, 1, 1, 1, 1, 1],
      [0, 0, 0, 0, 0, 2, 0, 0, 1, 4, 4, 4, 4, 4, 4, 1, 0, 0, 2, 0, 0, 0, 0, 0, 0],
      [1, 1, 1, 1, 1, 2, 1, 0, 1, 4, 4, 4, 4, 4, 4, 1, 0, 1, 2, 1, 1, 1, 1, 1, 1],
      [0, 0, 0, 0, 1, 2, 1, 0, 1, 1, 1, 1, 1, 1, 1, 1, 0, 1, 2, 1, 0, 0, 0, 0, 0],
      [1, 1, 1, 1, 1, 2, 1, 0, 0, 0, 0, 0, 5, 0, 0, 0, 0, 0, 1, 2, 1, 1, 1, 1, 1],
      [0, 0, 0, 0, 1, 2, 1, 0, 1, 1, 1, 1, 1, 1, 1, 1, 0, 1, 2, 1, 0, 0, 0, 0, 0],
      [1, 1, 1, 1, 1, 2, 1, 0, 1, 4, 4, 4, 4, 4, 4, 1, 0, 1, 2, 1, 1, 1, 1, 1, 1],
      [0, 0, 0, 0, 0, 2, 0, 0, 1, 4, 4, 4, 4, 4, 4, 1, 0, 0, 2, 0, 0, 0, 0, 0, 0],
      [1, 1, 1, 1, 1, 2, 1, 0, 1, 1, 1, 1, 1, 1, 1, 1, 0, 1, 2, 1, 1, 1, 1, 1, 1],
      [0, 0, 0, 0, 1, 2, 1, 0, 0, 0, 0, 0, 0, 0, 0, 0, 0, 0, 1, 2, 1, 0, 0, 0, 0],
      [1, 1, 1, 1, 1, 2, 1, 1, 1, 1, 1, 0, 1, 0, 1, 1, 1, 1, 1, 2, 1, 1, 1, 1, 1],
      [1, 2, 2, 2, 2, 2, 1, 2, 2, 2, 2, 2, 1, 2, 2, 2, 2, 2, 1, 2, 2, 2, 2, 2, 1],
      [1, 2, 1, 1, 1, 2, 1, 2, 1, 1, 1, 1, 1, 1, 1, 1, 1, 2, 1, 2, 1, 1, 1, 2, 1],
      [1, 2, 2, 2, 2, 2, 2, 2, 2, 2, 2, 2, 2, 2, 2, 2, 2, 2, 2, 2, 2, 2, 2, 2, 1],
      [1, 3, 1, 1, 1, 2, 1, 1, 1, 1, 1, 2, 1, 2, 1, 1, 1, 1, 1, 2, 1, 1, 1, 3, 1],
      [1, 2, 2, 2, 2, 2, 2, 2, 2, 2, 2, 2, 1, 2, 2, 2, 2, 2, 2, 2, 2, 2, 2, 2, 1],
      [1, 1, 1, 1, 1, 1, 1, 1, 1, 1, 1, 1, 1, 1, 1, 1, 1, 1, 1, 1, 1, 1, 1, 1, 1]  ]

  /** The maze every game starts with. */
  function DefaultMaze(): Maze
  {
    LoadMaze(DefaultLayout)
  }

  /** The default level is 25 x 25 and its top and bottom rows are solid wall. */
  lemma DefaultMazeShape()
    ensures Valid(DefaultMaze())
    ensures DefaultMaze().width == MazeWidth && DefaultMaze().height == MazeHeight
    ensures forall x :: 0 <= x < MazeWidth ==> DefaultLayout[0][x] == WallTile
    ensures forall x :: 0 <= x < MazeWidth ==> DefaultLayout[24][x] == WallTile
  {
  }

  predicate InBounds(m: Maze, x: int, y: int)
  {
    0 <= x < m.width && 0 <= y < m.height
  }

  /** Tile code at a cell; any cell outside the grid reads as a wall. */
  function TileAt(m: Maze, x: int, y: int): int
    requires Valid(m)
  {
    if !InBounds(m, x, y) then WallTile else m.layout[y][x]
  }

  predicate IsWall(m: Maze, x: int, y: int)
    requires Valid(m)
  {
    if !InBounds(m, x, y) then true else m.layout[y][x] == WallTile
  }

  predicate CanMoveTo(m: Maze, x: int, y: int)
    requires Valid(m)
  {
    if !InBounds(m, x, y) then false else m.layout[y][x] != WallTile
  }

  /** The three cell queries agree with each other and are total: outside the
      grid a cell is a wall that cannot be entered. */
  lemma WallClosure(m: Maze, x: int, y: int)
    requires Valid(m)
    ensures !InBounds(m, x, y) ==> TileAt(m, x, y) == WallTile && IsWall(m, x, y) && !CanMoveTo(m, x, y)
    ensures IsWall(m, x, y) <==> TileAt(m, x, y) == WallTile
    ensures CanMoveTo(m, x, y) <==> 0 <= x < m.width && 0 <= y < m.height && TileAt(m, x, y) != WallTile
  {
  }

  /** Whether stepping from (x, y) in direction d hits a wall; this test does not wrap. */
  predicate CheckWallCollision(m: Maze, x: int, y: int, d: Dir)
    requires Valid(m)
  {
    !CanMoveTo(m, x + Dx(d), y + Dy(d))
  }

  /** Horizontal wrap-around; a row outside the grid yields no cell. */
  function HandleScreenWrapping(m: Maze, x: int, y: int): (r: Option<Cell>)
    requires Valid(m)
    ensures r.None? <==> !(0 <= y < m.height)
    ensures r.Some? ==> r.value.1 == y
    ensures r.Some? && 0 <= x < m.width ==> r.value.0 == x
    ensures r.Some? && x < 0 ==> r.value.0 == m.width - 1
    ensures r.Some? && x >= m.width ==> r.value.0 == 0
    ensures r.Some? && m.width > 0 ==> 0 <= r.value.0 < m.width
  {
    var wrappedX := if x < 0 then m.width - 1 else if x >= m.width then 0 else x;
    if y < 0 || y >= m.height then None else Some((wrappedX, y))
  }

  /** The single move resolver: the cell reached by one step in direction d
      from (x, y), wrapping horizontally, or None if that cell is a wall or
      the step leaves the grid vertically. */
  function GetValidMovePosition(m: Maze, x: int, y: int, d: Dir): (r: Option<Cell>)
    requires Valid(m)
    ensures r.Some? ==> CanMoveTo(m, r.value.0, r.value.1)
    ensures r.Some? ==> r.value.1 == y + Dy(d)
    ensures r.Some? ==>
      (r.value == (x + Dx(d), y + Dy(d)) ||
       (!(0 <= x + Dx(d) < m.width) &&
        r.value.0 == (if x + Dx(d) < 0 then m.width - 1 else 0)))
    ensures r.Some? && 0 <= x < m.width && r.value != (x + Dx(d), y + Dy(d)) ==> Dy(d) == 0
    ensures InBounds(m, x + Dx(d), y + Dy(d)) ==>
      r == (if CanMoveTo(m, x + Dx(d), y + Dy(d)) then Some((x + Dx(d), y + Dy(d))) else None)
    ensures !(0 <= y + Dy(d) < m.height) ==> r.None?
  {
    match HandleScreenWrapping(m, x + Dx(d), y + Dy(d))
    case None => None
    case Some(c) => if CanMoveTo(m, c.0, c.1) then Some(c) else None
  }

  /** Stepping off the left or right edge of a row wraps to the other end of
      the same row; stepping off the top or bottom never resolves. */
  lemma WrapInvariant(m: Maze, x: int, y: int)
    requires Valid(m) && m.width > 0
    ensures 0 <= y < m.height ==>
      GetValidMovePosition(m, 0, y, Left) == (if CanMoveTo(m, m.width - 1, y) then Some((m.width - 1, y)) else None)
    ensures 0 <= y < m.height ==>
      GetValidMovePosition(m, m.width - 1, y, Right) == (if CanMoveTo(m, 0, y) then Some((0, y)) else None)
    ensures GetValidMovePosition(m, x, 0, Up).None?
    ensures GetValidMovePosition(m, x, m.height - 1, Down).None?
  {
  }

  /** The wall-collision test agrees with the move resolver except for a
      horizontal step off the grid, which it always reports as a collision
      even where the resolver would wrap to the far edge. */
  lemma {:induction false} WallCollisionDoesNotWrap(m: Maze, x: int, y: int, d: Dir)
    requires Valid(m)
    ensures 0 <= x + Dx(d) < m.width ==> (CheckWallCollision(m, x, y, d) <==> GetValidMovePosition(m, x, y, d).None?)
    ensures !(0 <= x + Dx(d) < m.width) ==> CheckWallCollision(m, x, y, d)
  {
    if 0 <= x + Dx(d) < m.width && 0 <= y + Dy(d) < m.height {
      assert InBounds(m, x + Dx(d), y + Dy(d));
    }
  }

  /** In the default level the tunnel in row 9 is open at both ends: the
      resolver wraps from column 0 to column 24, while the wall test reports a
      collision for the same step. */
  lemma TunnelWrapsButCollides()
    ensures Valid(DefaultMaze())
    ensures GetValidMovePosition(DefaultMaze(), 0, 9, Left) == Some((24, 9))
    ensures CheckWallCollision(DefaultMaze(), 0, 9, Left)
  {
    DefaultMazeShape();
    assert DefaultLayout[9][24] == EmptyTile;
  }

  /** Every open cell of the default level lies strictly between its solid top
      and bottom rows, so a vertical step from it never leaves the grid. */
  lemma {:induction false} DefaultMazeNoVerticalExit(x: int, y: int, d: Dir)
    requires Valid(DefaultMaze()) && CanMoveTo(DefaultMaze(), x, y)
    ensures 0 <= y + Dy(d) < MazeHeight
  {
    DefaultMazeShape();
  }

  /** Whether (x, y) is on the border of the grid that direction d faces. */
  predicate IsAtMazeEdge(m: Maze, x: int, y: int, d: Dir)
  {
    match d
    case Left => x == 0
    case Right => x == m.width - 1
    case Up => y == 0
    case Down => y == m.height - 1
  }

  /** From a cell inside the grid, being at the edge that d faces is exactly
      "one step in direction d leaves the grid". */
  lemma EdgeMeansStepLeaves(m: Maze, x: int, y: int, d: Dir)
    requires InBounds(m, x, y)
    ensures IsAtMazeEdge(m, x, y, d) <==> !InBounds(m, x + Dx(d), y + Dy(d))
  {
  }

  /** Pixel centre of a tile; converting it back gives the same tile for every integer tile. */
  function GridToWorldCentre(gx: int, gy: int): (w: (int, int))
    ensures WorldToGrid(w.0, w.1) == (gx, gy)
    ensures w == (GridToWorld(gx, gy).0 + TileSize / 2, GridToWorld(gx, gy).1 + TileSize / 2)
  {
    WorldToGridOfTile(gx, gy, gx * TileSize + TileSize / 2, gy * TileSize + TileSize / 2);
    (gx * TileSize + TileSize / 2, gy * TileSize + TileSize / 2)
  }

  // ---------------------------------------------------------------------------
  // Row-major scans of the layout (the spawn search and collectible generation)
  // ---------------------------------------------------------------------------

  predicate HasTile(m: Maze, c: Cell, code: int)
    requires Valid(m)
  {
    InBounds(m, c.0, c.1) && m.layout[c.1][c.0] == code
  }

  /** a comes strictly before b when the grid is read row by row, left to right. */
  predicate RowMajorBefore(a: Cell, b: Cell)
  {
    a.1 < b.1 || (a.1 == b.1 && a.0 < b.0)
  }

  /** Cells of row y left of column x whose tile is code, left to right. */
  function RowCellsWith(m: Maze, code: int, y: int, x: int): seq<Cell>
    requires Valid(m) && 0 <= y < m.height && 0 <= x <= m.width
    decreases x
  {
    if x == 0 then []
    else RowCellsWith(m, code, y, x - 1) + (if m.layout[y][x - 1] == code then [(x - 1, y)] else [])
  }

  /** Cells of the rows above row y whose tile is code, in row-major order. */
  function CellsWith(m: Maze, code: int, y: int): seq<Cell>
    requires Valid(m) && 0 <= y <= m.height
    decreases y
  {
    if y == 0 then [] else CellsWith(m, code, y - 1) + RowCellsWith(m, code, y - 1, m.width)
  }

  /** The right-most cell of row y left of column x whose tile is code. */
  function LastInRow(m: Maze, code: int, y: int, x: int): Option<Cell>
    requires Valid(m) && 0 <= y < m.height && 0 <= x <= m.width
    decreases x
  {
    if x == 0 then None
    else if m.layout[y][x - 1] == code then Some((x - 1, y))
    else LastInRow(m, code, y, x - 1)
  }

  /** The last cell in row-major order above row y whose tile is code. */
  function LastCellWith(m: Maze, code: int, y: int): Option<Cell>
    requires Valid(m) && 0 <= y <= m.height
    decreases y
  {
    if y == 0 then None
    else
      match LastInRow(m, code, y - 1, m.width)
      case Some(c) => Some(c)
      case None => LastCellWith(m, code, y - 1)
  }

  /** The later of two scan results: a cell found later replaces an earlier one. */
  function Latest(earlier: Option<Cell>, later: Option<Cell>): Option<Cell>
  {
    if later.Some? then later else earlier
  }

  lemma {:induction false} RowCellsWithFacts(m: Maze, code: int, y: int, x: int)
    requires Valid(m) && 0 <= y < m.height && 0 <= x <= m.width
    ensures forall c :: c in RowCellsWith(m, code, y, x) <==> (c.1 == y && 0 <= c.0 < x && m.layout[y][c.0] == code)
    ensures forall i, j :: 0 <= i < j < |RowCellsWith(m, code, y, x)| ==>
      RowCellsWith(m, code, y, x)[i].0 < RowCellsWith(m, code, y, x)[j].0
    ensures forall i :: 0 <= i < |RowCellsWith(m, code, y, x)| ==> RowCellsWith(m, code, y, x)[i].1 == y
    decreases x
  {
    if x > 0 {
      RowCellsWithFacts(m, code, y, x - 1);
    }
  }

  lemma {:induction false} CellsWithFacts(m: Maze, code: int, y: int)
    requires Valid(m) && 0 <= y <= m.height
    ensures forall c :: c in CellsWith(m, code, y) <==> (0 <= c.1 < y && HasTile(m, c, code))
    ensures forall i, j :: 0 <= i < j < |CellsWith(m, code, y)| ==>
      RowMajorBefore(CellsWith(m, code, y)[i], CellsWith(m, code, y)[j])
    ensures forall i :: 0 <= i < |CellsWith(m, code, y)| ==> CellsWith(m, code, y)[i].1 < y
    decreases y
  {
    if y > 0 {
      CellsWithFacts(m, code, y - 1);
      RowCellsWithFacts(m, code, y - 1, m.width);
      var a, b := CellsWith(m, code, y - 1), RowCellsWith(m, code, y - 1, m.width);
      assert CellsWith(m, code, y) == a + b;
      RowAfterRows(a, b, y - 1);
    }
  }

  /** Cells of earlier rows in row-major order, followed by cells of row y
      from left to right, are in row-major order and lie above row y + 1. */
  lemma RowAfterRows(a: seq<Cell>, b: seq<Cell>, y: int)
    requires forall i, j :: 0 <= i < j < |a| ==> RowMajorBefore(a[i], a[j])
    requires forall i :: 0 <= i < |a| ==> a[i].1 < y
    requires forall i, j :: 0 <= i < j < |b| ==> b[i].0 < b[j].0
    requires forall i :: 0 <= i < |b| ==> b[i].1 == y
    ensures forall i, j :: 0 <= i < j < |a + b| ==> RowMajorBefore((a + b)[i], (a + b)[j])
    ensures forall i :: 0 <= i < |a + b| ==> (a + b)[i].1 < y + 1
  {
    forall i, j | 0 <= i < j < |a + b|
      ensures RowMajorBefore((a + b)[i], (a + b)[j])
    {
      if j < |a| {
      } else if i >= |a| {
        assert (a + b)[i] == b[i - |a|] && (a + b)[j] == b[j - |a|];
      } else {
        assert (a + b)[i] == a[i] && (a + b)[j] == b[j - |a|];
      }
    }
  }

  /** Exactly the cells holding code are listed, each once and in row-major order. */
  lemma ScanListsEveryMatchInOrder(m: Maze, code: int)
    requires Valid(m)
    ensures forall c :: c in CellsWith(m, code, m.height) <==> HasTile(m, c, code)
    ensures forall i, j :: 0 <= i < j < |CellsWith(m, code, m.height)| ==>
      RowMajorBefore(CellsWith(m, code, m.height)[i], CellsWith(m, code, m.height)[j])
  {
    CellsWithFacts(m, code, m.height);
  }

  lemma {:induction false} LastInRowFacts(m: Maze, code: int, y: int, x: int)
    requires Valid(m) && 0 <= y < m.height && 0 <= x <= m.width
    ensures LastInRow(m, code, y, x).None? <==> forall i :: 0 <= i < x ==> m.layout[y][i] != code
    ensures LastInRow(m, code, y, x).Some? ==>
      var c := LastInRow(m, code, y, x).value;
      c.1 == y && 0 <= c.0 < x && m.layout[y][c.0] == code &&
      forall i :: c.0 < i < x ==> m.layout[y][i] != code
    decreases x
  {
    if x > 0 {
      LastInRowFacts(m, code, y, x - 1);
    }
  }

  lemma {:induction false} LastCellWithFacts(m: Maze, code: int, y: int)
    requires Valid(m) && 0 <= y <= m.height
    ensures LastCellWith(m, code, y).None? <==> forall c: Cell :: 0 <= c.1 < y ==> !HasTile(m, c, code)
    ensures LastCellWith(m, code, y).Some? ==>
      var c := LastCellWith(m, code, y).value;
      0 <= c.1 < y && HasTile(m, c, code) &&
      forall c': Cell :: 0 <= c'.1 < y && HasTile(m, c', code) ==> c' == c || RowMajorBefore(c', c)
    decreases y
  {
    if y > 0 {
      LastCellWithFacts(m, code, y - 1);
      LastInRowFacts(m, code, y - 1, m.width);
    }
  }

  /** The scan result is the last matching cell in row-major order, or None
      exactly when no cell matches. */
  lemma LastMatchWins(m: Maze, code: int)
    requires Valid(m)
    ensures LastCellWith(m, code, m.height).None? <==> forall c :: !HasTile(m, c, code)
    ensures LastCellWith(m, code, m.height).Some? ==>
      var c := LastCellWith(m, code, m.height).value;
      HasTile(m, c, code) && forall c' :: HasTile(m, c', code) ==> c' == c || RowMajorBefore(c', c)
  {
    LastCellWithFacts(m, code, m.height);
  }

  /** Scans the layout row by row: the last Pacman spawn tile met and every
      ghost spawn tile in the order met. */
  method GetSpawnPositions(m: Maze) returns (pacmanSpawn: Option<Cell>, ghostSpawns: seq<Cell>)
    requires Valid(m)
    ensures pacmanSpawn == LastCellWith(m, PacmanSpawnTile, m.height)
    ensures ghostSpawns == CellsWith(m, GhostSpawnTile, m.height)
    ensures forall c :: c in ghostSpawns <==> HasTile(m, c, GhostSpawnTile)
    ensures pacmanSpawn.None? <==> forall c :: !HasTile(m, c, PacmanSpawnTile)
    ensures pacmanSpawn.Some? ==> HasTile(m, pacmanSpawn.value, PacmanSpawnTile)
  {
    pacmanSpawn, ghostSpawns := None, [];
    var y := 0;
    while y < m.height
      invariant 0 <= y <= m.height
      invariant pacmanSpawn == LastCellWith(m, PacmanSpawnTile, y)
      invariant ghostSpawns == CellsWith(m, GhostSpawnTile, y)
    {
      var x := 0;
      while x < m.width
        invariant 0 <= x <= m.width
        invariant pacmanSpawn == Latest(LastCellWith(m, PacmanSpawnTile, y), LastInRow(m, PacmanSpawnTile, y, x))
        invariant ghostSpawns == CellsWith(m, GhostSpawnTile, y) + RowCellsWith(m, GhostSpawnTile, y, x)
      {
        var tile := m.layout[y][x];
        if tile == PacmanSpawnTile {
          pacmanSpawn := Some((x, y));
        } else if tile == GhostSpawnTile {
          ghostSpawns := ghostSpawns + [(x, y)];
        }
        x := x + 1;
      }
      y := y + 1;
    }
    ScanListsEveryMatchInOrder(m, GhostSpawnTile);
    LastMatchWins(m, PacmanSpawnTile);
  }
}
