/**
 * The transit arithmetic Pacman and the ghosts share.  World positions are
 * kept in half-pixels, so both speeds (2.0 and 1.5 pixels per tick) are whole
 * numbers and every transit runs along one row or one column of the grid.
 */
module Mover {
  import opened Constants
  import opened MazeGrid

  /** A world position in half-pixels. */
  type Point = (int, int)

  /** Pacman advances 2.0 pixels per tick. */
  const PacmanSpeed: nat := 4
  /** A ghost advances 1.5 pixels per tick. */
  const GhostSpeed: nat := 3

  /** An entity at (x, y) can take one step in direction d (possibly
      wrapping sideways). */
  predicate CanMoveIn(m: Maze, x: int, y: int, d: Dir)
    requires Valid(m)
  {
    GetValidMovePosition(m, x, y, d).Some?
  }

  /** Half-pixel centre of a cell: the maze's pixel centre, doubled. */
  function CellCentre(c: Cell): (p: Point)
    ensures p == (2 * GridToWorldCentre(c.0, c.1).0, 2 * GridToWorldCentre(c.0, c.1).1)
  {
    (2 * (c.0 * TileSize + TileSize / 2), 2 * (c.1 * TileSize + TileSize / 2))
  }

  /** Distinct cells have distinct centres, so the centre identifies the cell. */
  lemma CellCentreInjective(c: Cell, d: Cell)
    ensures CellCentre(c) == CellCentre(d) <==> c == d
  {
  }

  /** Centres of distinct cells on one row or column are at least a tile
      apart, so no single step covers the way between them. */
  lemma CentresApart(c: Cell, d: Cell)
    requires c != d && Aligned(CellCentre(c), CellCentre(d))
    ensures Distance(CellCentre(c), CellCentre(d)) >= 2 * TileSize
  {
    if c.0 == d.0 {
      assert CellCentre(c).1 - CellCentre(d).1 == 2 * TileSize * (c.1 - d.1);
    } else {
      assert CellCentre(c).0 - CellCentre(d).0 == 2 * TileSize * (c.0 - d.0);
    }
  }

  function Abs(a: int): nat
  {
    if a < 0 then -a else a
  }

  function Sign(a: int): int
  {
    if a < 0 then -1 else if a > 0 then 1 else 0
  }

  /** Two points on one row or one column of the world. */
  predicate Aligned(p: Point, q: Point)
  {
    p.0 == q.0 || p.1 == q.1
  }

  /** Euclidean distance between aligned points, which is exact in integers. */
  function Distance(p: Point, q: Point): nat
    requires Aligned(p, q)
  {
    Abs(p.0 - q.0) + Abs(p.1 - q.1)
  }

  /** One tick of transit: within one step of the target the entity snaps onto
      it and stops; otherwise it advances exactly one step toward it.  The
      result is the new position and whether the entity is still moving. */
  function Approach(pos: Point, target: Point, speed: nat): (r: (Point, bool))
    requires Aligned(pos, target)
    ensures Aligned(r.0, target)
    ensures !r.1 <==> Distance(pos, target) <= speed
    ensures !r.1 ==> r.0 == target
    ensures r.1 ==> Aligned(pos, r.0) && Distance(pos, r.0) == speed
    ensures r.1 ==> Distance(r.0, target) == Distance(pos, target) - speed
  {
    var dx, dy := target.0 - pos.0, target.1 - pos.1;
    if Distance(pos, target) <= speed then (target, false)
    else ((pos.0 + Sign(dx) * speed, pos.1 + Sign(dy) * speed), true)
  }

  /** Position after n ticks of transit; a finished transit stays put. */
  function Transit(pos: Point, target: Point, speed: nat, n: nat): (p: Point)
    requires Aligned(pos, target)
    decreases n
  {
    if n == 0 then pos
    else
      var (next, moving) := Approach(pos, target, speed);
      if moving then Transit(next, target, speed, n - 1) else next
  }

  /** A transit of length D at positive speed s ends exactly on its target
      after any n ticks with n * s >= D: it never overshoots or oscillates. */
  lemma {:induction false} TransitArrives(pos: Point, target: Point, speed: nat, n: nat)
    requires Aligned(pos, target) && speed > 0
    requires n * speed >= Distance(pos, target)
    ensures Transit(pos, target, speed, n) == target
    decreases n
  {
    if n > 0 {
      var (next, moving) := Approach(pos, target, speed);
      if moving {
        assert (n - 1) * speed == n * speed - speed;
        TransitArrives(next, target, speed, n - 1);
      }
    } else {
      assert Distance(pos, target) == 0;
    }
  }
}
