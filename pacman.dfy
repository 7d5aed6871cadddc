/**
 * The player: a queued direction is taken as soon as Pacman rests on a cell
 * centre and the step is open; otherwise Pacman keeps going until a wall (by
 * the non-wrapping collision test) stops it.  After a respawn Pacman is
 * invincible for three seconds.
 */
module Player {
  import opened Wrappers
  import opened Constants
  import opened MazeGrid
  import opened Mover
  import opened Timers

  datatype PacmanState = Normal | Powered

  /** Three seconds of respawn protection. */
  const InvincibilityDuration: nat := 3 * TicksPerSecond

  /** Used when the layout has no Pacman spawn tile. */
  const FallbackPacmanSpawn: Cell := (12, 18)

  /** Pacman's spawn cell: the last Pacman spawn tile in row-major order, or
      the fallback when the layout has none. */
  function PacmanSpawn(m: Maze): Cell
    requires Valid(m)
  {
    match LastCellWith(m, PacmanSpawnTile, m.height)
    case Some(c) => c
    case None => FallbackPacmanSpawn
  }

  /** The spawn is a Pacman spawn tile that no other such tile follows in
      row-major order, and the fallback only when there is no such tile; in
      either case a grid that holds the fallback cell holds the spawn. */
  lemma PacmanSpawnFacts(m: Maze)
    requires Valid(m)
    ensures (exists c' :: HasTile(m, c', PacmanSpawnTile)) ==>
      HasTile(m, PacmanSpawn(m), PacmanSpawnTile) &&
      forall c' :: HasTile(m, c', PacmanSpawnTile) ==> c' == PacmanSpawn(m) || RowMajorBefore(c', PacmanSpawn(m))
    ensures (forall c' :: !HasTile(m, c', PacmanSpawnTile)) ==> PacmanSpawn(m) == FallbackPacmanSpawn
    ensures InBounds(m, FallbackPacmanSpawn.0, FallbackPacmanSpawn.1) ==> InBounds(m, PacmanSpawn(m).0, PacmanSpawn(m).1)
  {
    LastMatchWins(m, PacmanSpawnTile);
  }

  /** The spawn lookup Pacman performs on creation and on every reset. */
  method LocateSpawn(m: Maze) returns (cell: Cell)
    requires Valid(m)
    ensures cell == PacmanSpawn(m)
  {
    var spawn, _ := GetSpawnPositions(m);
    cell := if spawn.Some? then spawn.value else FallbackPacmanSpawn;
  }

  /** Everything about Pacman at one moment except its power state (which
      the game's power mode owns): the cell it occupies, its drawn position
      and transit target, heading, queued direction, whether it is in
      transit, facing, and the invincibility countdown. */
  datatype PacmanView = PacmanView(
    cell: Cell, world: Point, target: Point,
    currentDirection: Option<Dir>, nextDirection: Option<Dir>, moving: bool,
    facingDirection: Dir, invincible: bool, invincibilityTimer: nat)

  /** Pacman at rest on the centre of the spawn cell, facing right, with no
      heading and nothing queued; shielded says whether the three seconds of
      respawn protection have just started. */
  function Spawned(m: Maze, shielded: bool): PacmanView
    requires Valid(m)
  {
    var home := PacmanSpawn(m);
    PacmanView(home, CellCentre(home), CellCentre(home), None, None, false, Right,
      shielded, if shielded then InvincibilityDuration else 0)
  }

  /** A queued direction can be taken: Pacman rests and the step is open. */
  predicate CanTurn(m: Maze, v: PacmanView)
    requires Valid(m)
  {
    v.nextDirection.Some? && !v.moving && CanMoveIn(m, v.cell.0, v.cell.1, v.nextDirection.value)
  }

  /** The current heading is clear by the collision test, which does not
      wrap at the side edges. */
  predicate ClearAhead(m: Maze, v: PacmanView)
    requires Valid(m)
  {
    v.currentDirection.Some? && !CheckWallCollision(m, v.cell.0, v.cell.1, v.currentDirection.value)
  }

  /** Pacman's movement over one tick, from a to b.  A queued direction that
      can be taken becomes the heading and the facing, leaves the queue and
      leads into the neighbouring cell; one that cannot stays queued.
      Otherwise a resting Pacman goes on into the next cell while the
      collision test allows and drops its heading at a wall, and a
      travelling one keeps its cell and heading.  Every tick ends with one
      transit step toward the centre of the cell it is now in, so a transit
      started this tick is under way at its end. */
  ghost predicate PacmanMoved(m: Maze, a: PacmanView, b: PacmanView)
    requires Valid(m)
  {
    var (x, y) := a.cell;
    b.target == CellCentre(b.cell) &&
    Aligned(a.world, b.target) &&
    (b.world, b.moving) == Approach(a.world, b.target, PacmanSpeed) &&
    (b.cell != a.cell ==> b.moving) &&
    (CanTurn(m, a) ==>
      b.currentDirection == a.nextDirection && b.facingDirection == a.nextDirection.value &&
      b.nextDirection.None? &&
      GetValidMovePosition(m, x, y, a.nextDirection.value) == Some(b.cell)) &&
    (!CanTurn(m, a) ==>
      b.nextDirection == a.nextDirection && b.facingDirection == a.facingDirection) &&
    (!CanTurn(m, a) && !a.moving && a.currentDirection.Some? ==>
      if ClearAhead(m, a)
      then b.currentDirection == a.currentDirection &&
           b.cell == (x + Dx(b.currentDirection.value), y + Dy(b.currentDirection.value)) &&
           GetValidMovePosition(m, x, y, b.currentDirection.value) == Some(b.cell)
      else b.currentDirection.None? && b.cell == a.cell) &&
    (!CanTurn(m, a) && !a.moving && a.currentDirection.None? ==>
      b.currentDirection.None? && b.cell == a.cell) &&
    (a.moving ==> b.currentDirection == a.currentDirection && b.cell == a.cell)
  }

  /** Pacman changes cell only from rest, and only to the cell a resolved
      step (wrapping included) leads to. */
  lemma MovedOnlyByResolvedStep(m: Maze, a: PacmanView, b: PacmanView)
    requires Valid(m) && PacmanMoved(m, a, b)
    ensures b.cell != a.cell ==>
      !a.moving && exists d :: GetValidMovePosition(m, a.cell.0, a.cell.1, d) == Some(b.cell)
  {
  }

  class Pacman {
    const maze: Maze
    /** The cell Pacman occupies (during a transit: the cell it is entering). */
    var gridX: int
    var gridY: int
    /** Drawn position and transit target, in half-pixels. */
    var worldX: int
    var worldY: int
    var targetX: int
    var targetY: int
    var currentDirection: Option<Dir>
    /** The direction asked for by the player, waiting to be taken. */
    var nextDirection: Option<Dir>
    var moving: bool
    var state: PacmanState
    var invincible: bool
    /** Ticks of invincibility left. */
    var invincibilityTimer: nat
    var facingDirection: Dir

    /** Pacman sits in (or is entering) an in-grid cell whose centre is the
        transit target on the same row or column, rests on it when not
        moving, never travels into a wall, and is invincible exactly while
        the countdown is running. */
    ghost predicate Valid()
      reads this
    {
      MazeGrid.Valid(maze) &&
      InBounds(maze, PacmanSpawn(maze).0, PacmanSpawn(maze).1) &&
      InBounds(maze, gridX, gridY) &&
      (targetX, targetY) == CellCentre((gridX, gridY)) &&
      Aligned((worldX, worldY), (targetX, targetY)) &&
      (!moving ==> (worldX, worldY) == (targetX, targetY)) &&
      (moving ==> CanMoveTo(maze, gridX, gridY)) &&
      invincibilityTimer <= InvincibilityDuration &&
      (invincible <==> invincibilityTimer > 0)
    }

    /** Pacman as a value. */
    function View(): PacmanView
      reads this
    {
      PacmanView((gridX, gridY), (worldX, worldY), (targetX, targetY), currentDirection, nextDirection,
        moving, facingDirection, invincible, invincibilityTimer)
    }

    /** Pacman at rest on the spawn cell, facing right, with nothing queued. */
    constructor(maze: Maze)
      requires MazeGrid.Valid(maze)
      requires InBounds(maze, PacmanSpawn(maze).0, PacmanSpawn(maze).1)
      ensures Valid() && this.maze == maze
      ensures (gridX, gridY) == PacmanSpawn(maze) && !moving
      ensures AtSpawn() && state == Normal && !invincible
    {
      this.maze := maze;
      var cell := LocateSpawn(maze);
      gridX, gridY := cell.0, cell.1;
      var centre := CellCentre(cell);
      worldX, worldY := centre.0, centre.1;
      currentDirection, nextDirection := None, None;
      moving := false;
      targetX, targetY := centre.0, centre.1;
      state := Normal;
      invincible, invincibilityTimer := false, 0;
      facingDirection := Right;
    }

    /** Queues one of the four direction vectors; anything else is ignored. */
    method Move(direction: Vector)
      modifies this
      ensures forall d :: Vec(d) == direction ==> nextDirection == Some(d)
      ensures (forall d :: Vec(d) != direction) ==> nextDirection == old(nextDirection)
      ensures QueueOnly()
    {
      if direction == UpVector {
        nextDirection := Some(Up);
      } else if direction == DownVector {
        nextDirection := Some(Down);
      } else if direction == LeftVector {
        nextDirection := Some(Left);
      } else if direction == RightVector {
        nextDirection := Some(Right);
      }
    }

    /** Nothing but the queued direction differs from the previous state. */
    twostate predicate QueueOnly()
      reads this
    {
      gridX == old(gridX) && gridY == old(gridY) && worldX == old(worldX) && worldY == old(worldY) &&
      targetX == old(targetX) && targetY == old(targetY) && moving == old(moving) &&
      currentDirection == old(currentDirection) && facingDirection == old(facingDirection) &&
      state == old(state) && invincible == old(invincible) && invincibilityTimer == old(invincibilityTimer)
    }

    /** At rest on the centre of the spawn cell, facing right, with no
        heading and nothing queued, and either unprotected or at the very
        start of the respawn protection. */
    ghost predicate AtSpawn()
      reads this
      requires MazeGrid.Valid(maze)
    {
      View() == Spawned(maze, invincible)
    }

    /** Pacman's movement over one tick, judged against the state before it. */
    twostate predicate Moved()
      reads this
      requires MazeGrid.Valid(maze)
    {
      PacmanMoved(maze, old(View()), View())
    }

    /** A direction is queued, Pacman rests on a cell centre, and the
        resolver (wrap-around included) accepts a step that way. */
    predicate CanChangeDirection(): (r: bool)
      reads this
      requires MazeGrid.Valid(maze)
      ensures r <==> (nextDirection.Some? && !moving &&
                      GetValidMovePosition(maze, gridX, gridY, nextDirection.value).Some?)
    {
      CanTurn(maze, View())
    }

    /** A heading is set and the wall test, which does not wrap, finds the
        next cell open; such a step resolves to that very neighbour. */
    predicate ValidateMovementWithCollision(): (r: bool)
      reads this
      requires MazeGrid.Valid(maze)
      ensures r <==> (currentDirection.Some? &&
                      CanMoveTo(maze, gridX + Dx(currentDirection.value), gridY + Dy(currentDirection.value)))
      ensures r ==> (GetValidMovePosition(maze, gridX, gridY, currentDirection.value) ==
                     Some((gridX + Dx(currentDirection.value), gridY + Dy(currentDirection.value))))
    {
      if currentDirection.Some? then
        WallCollisionDoesNotWrap(maze, gridX, gridY, currentDirection.value);
        ClearAhead(maze, View())
      else false
    }

    /** From rest, starts a transit one cell along the current heading when
        that step is open; otherwise nothing changes. */
    method SetNewTarget()
      requires Valid() && !moving
      modifies this
      ensures Valid()
      ensures var next := if old(currentDirection).Some?
                          then GetValidMovePosition(maze, old(gridX), old(gridY), old(currentDirection).value)
                          else None;
        if next.Some? then (gridX, gridY) == next.value && moving else unchanged(this)
      ensures worldX == old(worldX) && worldY == old(worldY)
      ensures currentDirection == old(currentDirection) && nextDirection == old(nextDirection)
      ensures facingDirection == old(facingDirection)
      ensures state == old(state) && invincible == old(invincible) && invincibilityTimer == old(invincibilityTimer)
    {
      if currentDirection.None? {
        return;
      }
      var next := GetValidMovePosition(maze, gridX, gridY, currentDirection.value);
      if next.Some? {
        gridX, gridY := next.value.0, next.value.1;
        var centre := CellCentre(next.value);
        targetX, targetY := centre.0, centre.1;
        moving := true;
      }
    }

    /** One tick of transit at Pacman's speed. */
    method MoveTowardsTarget()
      requires Valid()
      modifies this
      ensures Valid()
      ensures gridX == old(gridX) && gridY == old(gridY) && targetX == old(targetX) && targetY == old(targetY)
      ensures ((worldX, worldY), moving) == Approach((old(worldX), old(worldY)), (targetX, targetY), PacmanSpeed)
      ensures currentDirection == old(currentDirection) && nextDirection == old(nextDirection)
      ensures facingDirection == old(facingDirection)
      ensures state == old(state) && invincible == old(invincible) && invincibilityTimer == old(invincibilityTimer)
    {
      var step := Approach((worldX, worldY), (targetX, targetY), PacmanSpeed);
      worldX, worldY := step.0.0, step.0.1;
      moving := step.1;
    }

    /** One tick of movement.  A queued direction that can be taken becomes
        the heading and the facing and starts a transit; one that cannot
        stays queued.  Otherwise a resting Pacman keeps its heading while the
        collision test allows and stops (loses its heading) at a wall. */
    method HandleSmoothMovement()
      requires Valid()
      modifies this
      ensures Valid()
      ensures Moved()
      ensures state == old(state) && invincible == old(invincible) && invincibilityTimer == old(invincibilityTimer)
    {
      TurnOrContinue();
      if (gridX, gridY) != old((gridX, gridY)) {
        CentresApart(old((gridX, gridY)), (gridX, gridY));
      }
      if moving {
        MoveTowardsTarget();
      }
    }

    /** The decision half of a movement tick, before any pixels move: take
        the queued turn, else keep going from rest, else stop at a wall. */
    method TurnOrContinue()
      requires Valid()
      modifies this
      ensures Valid()
      ensures old(moving) ==> unchanged(this)
      ensures worldX == old(worldX) && worldY == old(worldY)
      ensures old(CanChangeDirection()) ==>
        currentDirection == old(nextDirection) && facingDirection == old(nextDirection).value &&
        nextDirection.None? &&
        GetValidMovePosition(maze, old(gridX), old(gridY), old(nextDirection).value) == Some((gridX, gridY))
      ensures !old(CanChangeDirection()) ==>
        nextDirection == old(nextDirection) && facingDirection == old(facingDirection)
      ensures !old(CanChangeDirection()) && !old(moving) && old(currentDirection).Some? ==>
        if old(ValidateMovementWithCollision())
        then currentDirection == old(currentDirection) &&
             (gridX, gridY) == (old(gridX) + Dx(currentDirection.value), old(gridY) + Dy(currentDirection.value)) &&
             GetValidMovePosition(maze, old(gridX), old(gridY), currentDirection.value) == Some((gridX, gridY))
        else currentDirection.None? && gridX == old(gridX) && gridY == old(gridY) && !moving
      ensures !old(moving) && old(currentDirection).None? && !old(CanChangeDirection()) ==> unchanged(this)
      ensures state == old(state) && invincible == old(invincible) && invincibilityTimer == old(invincibilityTimer)
    {
      if nextDirection.Some? && CanChangeDirection() {
        currentDirection := nextDirection;
        facingDirection := nextDirection.value;
        nextDirection := None;
        SetNewTarget();
      } else if !moving && currentDirection.Some? {
        if ValidateMovementWithCollision() {
          WallCollisionDoesNotWrap(maze, gridX, gridY, currentDirection.value);
          SetNewTarget();
        } else {
          currentDirection := None;
        }
      }
    }

    /** One tick of the invincibility countdown. */
    method UpdateInvincibility()
      requires Valid()
      modifies this
      ensures Valid()
      ensures (invincible, invincibilityTimer) == Countdown(old(invincible), old(invincibilityTimer))
      ensures gridX == old(gridX) && gridY == old(gridY) && worldX == old(worldX) && worldY == old(worldY)
      ensures targetX == old(targetX) && targetY == old(targetY) && moving == old(moving)
      ensures currentDirection == old(currentDirection) && nextDirection == old(nextDirection)
      ensures facingDirection == old(facingDirection) && state == old(state)
    {
      if invincible {
        var remaining := invincibilityTimer - 1;
        if remaining <= 0 {
          invincible := false;
          invincibilityTimer := 0;
        } else {
          invincibilityTimer := remaining;
        }
      }
    }

    /** One frame: movement, then the invincibility countdown. */
    method Update()
      requires Valid()
      modifies this
      ensures Valid()
      ensures Moved()
      ensures (invincible, invincibilityTimer) == Countdown(old(invincible), old(invincibilityTimer))
      ensures state == old(state)
    {
      HandleSmoothMovement();
      UpdateInvincibility();
    }

    /** Back to the spawn cell at rest, facing right, with no heading, nothing
        queued and no invincibility; the power state is left alone. */
    method ResetPosition()
      requires Valid()
      modifies this
      ensures Valid()
      ensures AtSpawn()
      ensures !invincible && invincibilityTimer == 0
      ensures state == old(state)
    {
      var cell := LocateSpawn(maze);
      gridX, gridY := cell.0, cell.1;
      var centre := CellCentre(cell);
      worldX, worldY := centre.0, centre.1;
      targetX, targetY := worldX, worldY;
      currentDirection, nextDirection := None, None;
      moving := false;
      facingDirection := Right;
      invincible, invincibilityTimer := false, 0;
    }

    /** Starts the three-second invincibility countdown. */
    method ActivateInvincibility()
      requires Valid()
      modifies this
      ensures Valid()
      ensures invincible && invincibilityTimer == InvincibilityDuration
      ensures gridX == old(gridX) && gridY == old(gridY) && worldX == old(worldX) && worldY == old(worldY)
      ensures targetX == old(targetX) && targetY == old(targetY) && moving == old(moving)
      ensures currentDirection == old(currentDirection) && nextDirection == old(nextDirection)
      ensures facingDirection == old(facingDirection) && state == old(state)
    {
      invincible := true;
      invincibilityTimer := InvincibilityDuration;
    }

    /** A reset to the spawn cell followed by three seconds of invincibility. */
    method Respawn()
      requires Valid()
      modifies this
      ensures Valid()
      ensures AtSpawn()
      ensures invincible && invincibilityTimer == InvincibilityDuration
      ensures state == old(state)
    {
      ResetPosition();
      ActivateInvincibility();
    }
  }

  /** Respawn protection lasts exactly three seconds: invincible for the
      first 179 ticks after a respawn and vulnerable again from tick 180. */
  lemma InvincibilityWindow()
    ensures CountdownAfter(true, InvincibilityDuration, InvincibilityDuration - 1) == (true, 1)
    ensures CountdownAfter(true, InvincibilityDuration, InvincibilityDuration) == (false, 0)
  {
    CountdownLasts(InvincibilityDuration, InvincibilityDuration - 1);
    CountdownLasts(InvincibilityDuration, InvincibilityDuration);
  }
}
