# Pacman core, modelled in Dafny

This project models the rules of a single-maze Pacman game: the maze and its
move resolver, the collectible manager, the ghost AI, the Pacman controller and
the round coordinator that runs one tick of play and reacts to keys.

- **`Constants`** (constants.dfy): tile codes, point values, the four direction
  vectors, and the top-left-corner `grid_to_world`/`world_to_grid` pair.
- **`MazeGrid`** (maze.dfy): the maze as a value `Maze(layout, width,
  height)`, with these functions on it:
  - the tile queries, each treating cells outside the grid as walls;
  - horizontal-only screen wrapping;
  - the single move resolver `GetValidMovePosition`;
  - the non-wrapping wall-collision test.

  It also holds the row-major spawn scan, as a method specified by scan
  functions.
- **`Mover`** (mover.dfy): the transit arithmetic Pacman and the ghosts share.
  - World positions are in half-pixels, so both speeds are whole steps: Pacman
    moves 4 per tick (2.0 px) and a ghost 3 (1.5 px).
  - Every transit runs along one row or column, so the Euclidean distance is
    exact in integers.
- **`Timers`** (timers.dfy): the tick countdown shared by Pacman's
  invincibility and the power mode.
- **`Collectibles`** (collectibles.dfy): items are values with a collected
  flag. `CollectibleManager` is a class whose sequence fields its methods
  reassign.
- **`Ghosts`** (ghost.dfy): the `Ghost` class, which holds:
  - the Scatter/Chase/Vulnerable dwell-timer machine;
  - per-state targets;
  - the greedy no-reverse direction choice, gated by the direction-change
    timer;
  - transits and respawn.

  The `GhostManager` class owns the team.
- **`Player`** (pacman.dfy): the `Pacman` class. It covers:
  - the queued turn and stop-at-wall movement;
  - transits;
  - the invincibility countdown;
  - reset and respawn.
- **`Game`** (game.dfy): the `Round` class. It gathers the module-level game
  state and the phase manager in one object:
  - score, lives, phase, previous phase, per-phase timers and power mode.

  Its methods are the playing tick, the collisions, power-mode expiry, the
  frame dispatch, restart and the key handlers.

Time is counted in ticks of the 60 Hz loop:

- Scatter: 7 s, 420 ticks
- Chase: 20 s, 1200 ticks
- Vulnerable: 10 s, 600 ticks
- Direction-change gate: 0.5 s, 30 ticks
- Invincibility: 3 s, 180 ticks
- Power mode: 10 s, 600 ticks

The random choices come in as parameters:
- `pick` chooses among the open directions of a vulnerable ghost.
- `picks(i)` is ghost i's pick for the tick.
- `newDirections(i)` is the heading ghost i gets on a reset.
- `initialDirections(i)` is its heading at creation.

The model follows the code as written, including these quirks:
- An invincible Pacman skips all ghost contact, so it cannot eat vulnerable
  ghosts either (`Game.Round.HandleGhostCollisions`).
- The wall-collision test does not wrap, although the move resolver does
  (`MazeGrid.WallCollisionDoesNotWrap`, `MazeGrid.TunnelWrapsButCollides`).
- The last Pacman spawn tile in the scan wins (`MazeGrid.LastMatchWins`,
  `Player.PacmanSpawnFacts`).
- The victory check runs last in a playing tick, so it overrides a game over
  earned in the same tick (`Game.Round.FinishTick`, `Game.TickOutcome`).

## Model

| member | source | states |
|---|---|---|
| Constants.DirectionVectors | constants.py:43-46 | each direction is a unit step along exactly one axis; Down negates Up and Right negates Left; every direction is in the scan list |
| Constants.VecInjective | constants.py:43-46 | the four direction vectors are pairwise distinct, so a vector names at most one direction |
| Constants.ScreenFitsMaze | constants.py:4-10 | screen width and height equal the maze size times the tile size (500 = 25 * 20) |
| Constants.GridToWorld | constants.py:61-63 | the result is a tile's top-left corner: both coordinates are multiples of the tile size |
| Constants.WorldToGrid | constants.py:65-67 | the result is the tile that contains the pixel: g*20 <= w < g*20 + 20 on each axis |
| Constants.WorldToGridOfTile | constants.py:65-67 | every pixel of [x*20, x*20 + 20) maps to column x, and likewise for rows (floor division) |
| Constants.CornerRoundTrip | constants.py:61-67 | world_to_grid(grid_to_world(x, y)) == (x, y) for every integer cell |
| Constants.FloorUnique | constants.py:65-67 | floor division by the tile size yields the unique q with q*20 <= w < q*20 + 20 |
| MazeGrid.LoadMaze | maze.py:49-53 | the loaded maze holds the layout, its width is the first row's length and its height the row count; it is well-shaped exactly when every row is as wide as the first |
| MazeGrid.DefaultMazeShape | maze.py:17-46 | the default level is a well-shaped 25 x 25 grid whose first and last rows are all wall |
| MazeGrid.WallClosure | maze.py:55-69 | tile lookup, is_wall and can_move_to are total: outside the grid the tile is WALL, is_wall holds and the cell cannot be entered; is_wall holds exactly when the tile is WALL; can_move_to (maze.py:111-119) holds exactly when the cell is in bounds and not a wall |
| MazeGrid.HandleScreenWrapping | maze.py:127-142 | None exactly when y is outside [0, height); otherwise y is kept, x < 0 becomes width-1, x >= width becomes 0 and an in-range x is kept |
| MazeGrid.GetValidMovePosition | maze.py:144-160 | a returned cell can be entered and lies on row y+dy; it is (x+dx, y+dy) or, for a horizontal step off an edge, the opposite edge cell of that row; inside the grid the answer is exactly "the neighbour if it is not a wall"; a vertical step off the grid gives None |
| MazeGrid.WrapInvariant | maze.py:127-160 | stepping Left from column 0 lands on column width-1 of the same row (Right from width-1 on column 0) when that cell is open; stepping Up from row 0 or Down from the last row gives None |
| MazeGrid.WallCollisionDoesNotWrap | maze.py:121-125 | for a step that stays within the columns, the wall test reports a collision exactly when the resolver gives None; a horizontal step off the grid is always a collision |
| MazeGrid.TunnelWrapsButCollides | maze.py:121-160 | in the default level, Left from (0, 9) resolves to (24, 9) while the wall test reports a collision for the same step |
| MazeGrid.DefaultMazeNoVerticalExit | maze.py:20-46 | from any open cell of the default level, a vertical step stays inside the grid |
| MazeGrid.EdgeMeansStepLeaves | maze.py:162-172 | for a cell in the grid, is_at_maze_edge(d) holds exactly when one step in d leaves the grid |
| MazeGrid.GridToWorldCentre | maze.py:71-78 | the maze's grid_to_world is the tile centre, TILE_SIZE//2 past the corner of constants.py's grid_to_world, and world_to_grid maps it back to the same cell |
| MazeGrid.RowCellsWithFacts | maze.py:96-109 | the cells of row y left of column x with a given tile are listed exactly, once each, left to right |
| MazeGrid.CellsWithFacts | maze.py:96-109 | the cells above row y with a given tile are listed exactly, once each, in row-major order |
| MazeGrid.ScanListsEveryMatchInOrder | maze.py:96-109 | the full scan lists exactly the cells with the tile, in row-major order |
| MazeGrid.LastInRowFacts | maze.py:96-109 | the row scan's last match is the right-most matching cell left of x, or None when there is none |
| MazeGrid.LastCellWithFacts | maze.py:96-109 | the scan's last match among the rows above y comes after every other match, or is None when there is none |
| MazeGrid.LastMatchWins | maze.py:96-109 | over the whole grid, the remembered cell is the last match in row-major order, and None exactly when nothing matches |
| MazeGrid.GetSpawnPositions | maze.py:96-109 | the Pacman spawn is the last PACMAN_SPAWN tile met (None exactly when there is none); the ghost spawns are exactly the GHOST_SPAWN tiles, in row-major order |
| Mover.CellCentre | maze.py:75-78 | a cell's half-pixel centre is twice the maze's pixel centre of that cell |
| Mover.CellCentreInjective | maze.py:75-78 | distinct cells have distinct centres |
| Mover.Approach | entities/pacman.py:138-154 | within one step of the target the entity snaps onto it and stops; otherwise it advances exactly one step, staying aligned, and the remaining distance drops by the speed |
| Mover.CentresApart | maze.py:75-78 | centres of distinct cells on one row or column lie at least a tile apart, so a transit into a new cell cannot finish in the tick it starts |
| Mover.TransitArrives | entities/pacman.py:138-154 | a transit at positive speed ends exactly on its target after any n ticks with n * speed >= the distance, so it never overshoots |
| Timers.Countdown | entities/pacman.py:200-206 | an inactive countdown does not move; an active one drops by one and switches off, at 0, when it reaches zero; it is active afterwards exactly when the remaining time is positive |
| Timers.CountdownLasts | entities/pacman.py:200-206 | a countdown started at t > 0 is active with t-n left after n < t ticks, and off at 0 from tick t on |
| Timers.StaysOff | entities/pacman.py:200-206 | a countdown that is off never moves again |
| Collectibles.WorldPosition | entities/collectibles.py:36-38 | an item's drawn corner lies in its own tile |
| Collectibles.Collect | entities/collectibles.py:21-26 | afterwards the item is collected and otherwise unchanged; it yields its points if it was not collected, else 0 |
| Collectibles.CollectTwice | entities/collectibles.py:21-26 | a second collect yields 0 and changes nothing |
| Collectibles.Place | entities/collectibles.py:101-118 | the generated list has one item per given cell, in order, of the given kind and value, none collected |
| Collectibles.CollectAt | entities/collectibles.py:125-146 | the same items in the same order: an item is collected afterwards exactly when it was before or lies on (x, y), and nothing else about any item changes |
| Collectibles.CountCollectedBounds | entities/collectibles.py:158-164 | the collected count is at most the list length, equals it exactly when every item is collected, and is 0 on a fresh list |
| Collectibles.SecondCollisionFindsNothing | entities/collectibles.py:125-146 | after a collision at (x, y), a second one there finds no points and no available item, and changes nothing |
| Collectibles.NothingAvailable | entities/collectibles.py:125-146 | with no item available at (x, y), a collision there gains no points and no items |
| Collectibles.CollectEach | entities/collectibles.py:125-146 | one loop over a list collects what is available at (x, y) and returns the points gained and the number of items that gave points |
| Collectibles.PointsAtSign | entities/collectibles.py:125-146 | with positive item values, the points gained are non-negative, and positive exactly when some item at (x, y) was available |
| Collectibles.CollectAtCount | entities/collectibles.py:125-136 | a collision raises the collected count by the number of items newly collected |
| Collectibles.CollectibleManager.constructor | entities/collectibles.py:91-99 | a collectible manager for the maze with one item per dot and pellet tile, none collected |
| Collectibles.CollectibleManager.GenerateCollectibles | entities/collectibles.py:101-118 | the dots and pellets are exactly the DOT and POWER_PELLET tiles in row-major order, none collected; total_dots is the number of DOT tiles and collected_dots is 0 |
| Collectibles.CollectibleManager.CheckCollision | entities/collectibles.py:125-146 | items on (x, y) become collected and no other item changes; the points returned are the values of the newly collected items; collected_dots rises by the number of dots newly collected; the pellet flag is set exactly when a pellet was newly collected; the manager invariant holds |
| Collectibles.CollectibleManager.GetRemainingDots | entities/collectibles.py:158-160 | between 0 and total_dots, and 0 exactly when every dot is collected |
| Collectibles.CollectibleManager.AreAllDotsCollected | entities/collectibles.py:162-164 | true exactly when every dot is collected, and at once when the maze has no dots; pellets do not matter |
| Collectibles.CollectibleManager.Reset | entities/collectibles.py:166-175 | every item is uncollected again, with the same items, cells and values; collected_dots is 0 and total_dots unchanged |
| Ghosts.Opposite | entities/ghost.py:244-254 | the opposite direction negates both vector components, and no direction stays none |
| Ghosts.OppositeInvolution | entities/ghost.py:244-254 | reversing twice gives the original direction |
| Ghosts.ScatterCornerSides | entities/ghost.py:122-133 | corner ghost_id % 4 of (1,1), (w-2,1), (1,h-2), (w-2,h-2): even ids take the left column and odd ids the right; ids 0 and 1 mod 4 take the top row and 2 and 3 the bottom |
| Ghosts.FleeTarget | entities/ghost.py:135-151 | the vulnerable target is (w-1-px, h-1-py) clamped into [1, w-2] x [1, h-2] |
| Ghosts.NextMode | entities/ghost.py:93-107 | the only switches are Scatter to Chase, Chase to Scatter and Vulnerable to Scatter, once the dwell time is reached, with the timer restarting at 0; otherwise the timer counts one tick |
| Ghosts.DwellWindowFrom | entities/ghost.py:93-107 | from timer k, a state keeps counting until its dwell time and then hands over to its successor with a fresh timer |
| Ghosts.DwellWindow | entities/ghost.py:93-107 | entered with a fresh timer, Scatter, Chase and Vulnerable last exactly their dwell time in ticks and then switch |
| Ghosts.VulnerabilityWindow | entities/ghost.py:93-107 | a ghost is vulnerable for 599 ticks after the switch and back in Scatter at tick 600 |
| Ghosts.AllDirsScanOrder | entities/ghost.py:190-202 | the scan order UP, DOWN, LEFT, RIGHT covers every direction once |
| Ghosts.PossibleFacts | entities/ghost.py:186-202 | the filtered list holds exactly the open directions (not the reverse, when asked), in scan order |
| Ghosts.BestIsUnique | entities/ghost.py:204-226 | at most one direction is the best toward a target |
| Ghosts.ScanOpen | entities/ghost.py:186-202 | one loop over the scan order collects the open directions (skipping the reverse when asked) |
| Ghosts.CollectCandidates | entities/ghost.py:186-202 | the open non-reverse directions, or all open ones when there are none |
| Ghosts.CandidatesFacts | entities/ghost.py:186-202 | candidates are open and in scan order; the list is empty only when the ghost is boxed in; it holds no reverse while another way is open, and only the reverse when that is the only way |
| Ghosts.PickNearest | entities/ghost.py:204-226 | the result is a candidate whose wrapped neighbour is nearest the target, every earlier candidate being strictly farther; None exactly when there are no candidates |
| Ghosts.DirectionTowardTarget | entities/ghost.py:184-226 | None exactly when no direction is open; otherwise the best candidate toward the target; never the reverse while another way is open, and the reverse when it is the only way |
| Ghosts.RandomValidDirection | entities/ghost.py:228-238 | an open direction, None exactly when none is open |
| Ghosts.GhostSpawn | entities/ghost.py:24-34 | the given spawn; else spawn tile number ghost_id of the scan (a GHOST_SPAWN tile); else the fallback (12, 10) |
| Ghosts.Ghost.constructor | entities/ghost.py:19-66 | a ghost at rest on its spawn cell's centre, heading as given, in Scatter with both timers 0 and its corner as target |
| Ghosts.Ghost.SetScatterTarget | entities/ghost.py:122-133 | the AI target is the ghost's corner and nothing else changes |
| Ghosts.Ghost.ReverseDirection | entities/ghost.py:256-259 | the heading is reversed and nothing else changes |
| Ghosts.Ghost.SetState | entities/ghost.py:109-120 | no-op for the current state; otherwise the new state with timer 0, the corner as target on entering Scatter and a reversed heading on entering Vulnerable; the position is untouched |
| Ghosts.Ghost.UpdateStateTimer | entities/ghost.py:93-107 | state and timer move as NextMode says; a switch into Scatter re-targets the corner |
| Ghosts.Ghost.UpdateAiTarget | entities/ghost.py:135-151 | Chase targets Pacman's cell and Vulnerable the flee target; Scatter (and no Pacman) leaves the target alone |
| Ghosts.Ghost.ChooseBestDirection | entities/ghost.py:175-182 | None exactly when no direction is open; otherwise an open direction, and for a non-vulnerable ghost the best toward its target |
| Ghosts.Ghost.SetNewTarget | entities/ghost.py:268-286 | from rest, the ghost moves into the resolved neighbour and starts a transit; when the step is blocked nothing changes |
| Ghosts.Ghost.MoveTowardsTarget | entities/ghost.py:288-304 | one transit tick at ghost speed, as Approach says; the cell is unchanged |
| Ghosts.Ghost.HandleMovement | entities/ghost.py:153-173 | the movement relation Moved, with the gate at the old direction-change timer. At rest with a decision due, the chosen open direction leads into its resolved neighbour and restarts the gate; a non-vulnerable ghost takes the best one toward its target; when boxed in nothing moves. At rest between decisions, an open heading is followed, otherwise the next decision is due at once. In transit, cell and heading are kept. Every tick ends with one Approach step toward the centre of the cell now entered, so a transit started this tick is under way at its end. State, timer and target are untouched |
| Ghosts.Ghost.Update | entities/ghost.py:85-91 | the frame relation Stepped: the mode timers move as NextMode says. The target becomes Pacman's cell in Chase, the flee target when vulnerable, the corner on returning to Scatter, and otherwise stays. The ghost then moves as Moved says, with the direction-change timer one tick on |
| Ghosts.Ghost.ResetToSpawn | entities/ghost.py:339-351 | AtSpawn: back on the spawn cell's centre at rest, in Scatter with both timers 0, the corner as target and the injected heading |
| Ghosts.Ghost.IsVulnerable | entities/ghost.py:365-367 | true exactly in Vulnerable |
| Ghosts.FrightenIdempotent | entities/ghost.py:109-120 | a ghost that is already vulnerable is untouched by a second pellet; a frightened ghost is vulnerable and keeps its cell |
| Ghosts.GhostManager.constructor | entities/ghost.py:514-526 | num_ghosts new ghosts numbered 0, 1, ..., each on the spawn tile of its number or the fallback, and each AtSpawn: at rest on its spawn centre, heading initialDirections(i), in Scatter with both timers 0 and its corner as target |
| Ghosts.GhostManager.Update | entities/ghost.py:528-531 | every ghost of the team takes its own frame as Stepped says, toward the same Pacman cell |
| Ghosts.GhostManager.SetAllVulnerable | entities/ghost.py:533-536 | every ghost is Vulnerable; one that already was is unchanged, the others restart the timer and reverse; nobody changes cell |
| Ghosts.GhostManager.ResetGhost | entities/ghost.py:339-351 | that ghost is back as ResetToSpawn leaves it (AtSpawn: spawn centre, at rest, Scatter, both timers 0, corner target, the given heading); no other ghost is in the frame |
| Ghosts.GhostManager.ResetAllGhosts | entities/ghost.py:538-541 | every ghost is back as ResetToSpawn leaves it: spawn centre, at rest, Scatter, both timers 0, corner target, heading newDirections(i) |
| Ghosts.GhostManager.CheckCollisionWithPacman | entities/ghost.py:543-554 | the first ghost in team order on Pacman's cell; None exactly when no ghost is there |
| Player.PacmanSpawnFacts | entities/pacman.py:21-27 | the spawn is a PACMAN_SPAWN tile with no other such tile after it in row-major order; it is the fallback (12, 18) only when there is no such tile |
| Player.LocateSpawn | entities/pacman.py:21-27 | the spawn lookup yields PacmanSpawn |
| Player.MovedOnlyByResolvedStep | entities/pacman.py:78-136 | Pacman changes cell only from rest, and only into the cell a resolved step (wrapping included) leads to |
| Player.Pacman.constructor | entities/pacman.py:17-62 | Pacman at rest on the spawn cell, facing right, with no heading, nothing queued, normal and not invincible |
| Player.Pacman.Move | entities/pacman.py:73-76 | one of the four direction vectors is queued; any other vector is ignored; QueueOnly: no other field changes |
| Player.Pacman.CanChangeDirection | entities/pacman.py:99-115 | true exactly when a direction is queued, Pacman is at rest, and the resolver (wrap-around included) gives a cell for that direction |
| Player.Pacman.ValidateMovementWithCollision | entities/pacman.py:156-164 | true exactly when a heading is set and the cell one step along it, without wrapping, is in the grid and not a wall; such a step is the one the resolver takes |
| Player.Pacman.SetNewTarget | entities/pacman.py:118-136 | from rest, grid_x and grid_y become the resolved cell and a transit starts; when the step is blocked or there is no heading nothing changes |
| Player.Pacman.MoveTowardsTarget | entities/pacman.py:138-154 | one transit tick at Pacman speed, as Approach says |
| Player.Pacman.TurnOrContinue | entities/pacman.py:80-94 | a queued direction that can be taken becomes heading and facing, clears the queue and starts the step into the resolved neighbour; one that cannot stays queued; otherwise from rest Pacman goes on when the wall test allows and loses its heading at a wall; no pixel moves yet |
| Player.Pacman.HandleSmoothMovement | entities/pacman.py:78-98 | the movement relation Moved: the turn-or-continue decision, then one Approach step at Pacman speed toward the centre of the cell now entered. A transit started this tick is under way at its end, one step past the old centre. The power and invincibility state is untouched |
| Player.Pacman.UpdateInvincibility | entities/pacman.py:200-206 | the invincibility countdown takes one tick, as Countdown says; the timer never goes negative |
| Player.Pacman.Update | entities/pacman.py:66-71 | movement as Moved says, then one Countdown tick of invincibility; the power state is untouched |
| Player.Pacman.ResetPosition | entities/pacman.py:213-237 | AtSpawn: back on the spawn cell's centre at rest, facing right, with no heading and nothing queued. Not invincible. The power state is untouched |
| Player.Pacman.ActivateInvincibility | entities/pacman.py:259-262 | invincible with the full three-second timer |
| Player.Pacman.Respawn | entities/pacman.py:264-267 | AtSpawn, with full invincibility; the power state is untouched |
| Player.InvincibilityWindow | entities/pacman.py:259-262 | after a respawn Pacman is invincible for 179 ticks and not from tick 180 |
| Game.DefaultMazeSpawnsInside | main.py:168-171 | the default maze is well-shaped and holds Pacman's spawn and the ghost fallback cell |
| Game.FirstGhostOn | entities/ghost.py:543-554 | the first ghost in team order on the cell: every earlier ghost is elsewhere, and None exactly when no ghost is there |
| Game.TickOutcome | main.py:238-248 | for the rest of a tick on a cell: the score never drops. A life is lost exactly when Pacman, not invincible, meets a ghost that is not vulnerable once the items are eaten, and never more than one. The phase is Victory when every dot is collected, else GameOver when that lost life was the last, else unchanged |
| Game.PelletTickIsSafe | main.py:250-327 | a tick in which Pacman eats a power pellet never costs a life, because every ghost is frightened before contact; a ghost met on that cell is eaten for 200 points |
| Game.TickLogFacts | main.py:126-136 | the bookkeeping of a Playing tick: unchanged when the game goes on; on GameOver the previous phase is Playing and only the GameOver timer restarts; on Victory the Victory timer restarts and the previous phase is GameOver when the last life went in that tick, else Playing; never Paused; the Playing timer is never reset |
| Game.NewEntities | main.py:168-171 | a valid Pacman, collectible manager and four-ghost team on one maze. Pacman AtSpawn, normal and not invincible; no item collected and collected_dots 0; ghost j numbered j and AtSpawn with heading initialDirections(j) |
| Game.Round.ValidIsWorthwhile | constants.py:14-15 | in every valid round each dot and power pellet is worth some points (10 and 50), so TickOutcome and PelletTickIsSafe apply to every Playing tick |
| Game.Round.constructor | main.py:168-178 | Restarted: Playing with score 0, three lives and power mode off, Pacman AtSpawn and vulnerable, nothing collected, every ghost AtSpawn; no previous phase, every phase timer 0, four ghosts numbered 0 to 3 |
| Game.Round.ChangeState | main.py:126-136 | the bookkeeping becomes EnterPhase of the old one: a no-op for the current phase; otherwise the previous phase is recorded and the new phase's timer restarts. Only the phase of the round changes, and the round invariant survives whenever the new phase allows the current lives |
| Game.Round.HandleCollectibleCollisions | main.py:250-279 | the round afterwards is EatAt of the round before: the items on Pacman's cell are collected and their points scored; a pellet starts power mode for 600 ticks, powers Pacman and frightens every ghost; without a pellet the power mode, Pacman and the ghosts are untouched |
| Game.Round.ScoreCollectibles | main.py:250-262 | the items on the cell are collected and the score rises by their points; nothing else in the round changes; the result is true exactly when a pellet was newly collected |
| Game.Round.CollectOn | main.py:254-257 | only the item lists change, as check_collision collects; the points returned are the newly collected items' values and never negative; the flag is set exactly when a pellet was newly collected |
| Game.Round.StartPowerMode | main.py:274-279 | power mode on for its full duration, Pacman powered, every ghost frightened as SetAllVulnerable describes; score, lives, phase, phase timers and Pacman's position unchanged |
| Game.Round.HandleGhostCollisions | main.py:281-327 | the round afterwards is Contact of the round before. Nothing happens while Pacman is invincible or no ghost is on the cell; otherwise the first ghost there decides as MeetGhost says. The phase bookkeeping is EnterPhase from Playing: kept while the game goes on; on GameOver the previous phase is Playing and only the GameOver timer restarts |
| Game.Round.MeetGhost | main.py:291-327 | a vulnerable ghost met: +200 points and that ghost alone goes home. Any other: exactly one life lost, then GameOver at zero lives with the entities untouched, else Pacman respawned invincible and normal, power mode off and every ghost home. The phase bookkeeping is EnterPhase from Playing: kept while the game goes on; on GameOver the previous phase is Playing and the GameOver timer restarts |
| Game.Round.LoseLife | main.py:305-327 | one life fewer; at zero the phase becomes GameOver and nothing else changes; otherwise Pacman is Spawned invincible and normal, power mode is off and every ghost is sent home with its new heading. The phase bookkeeping is EnterPhase from Playing: kept while the game goes on; on GameOver the previous phase is Playing and the GameOver timer restarts |
| Game.Round.EatGhost | main.py:291-296 | +200 points, and the eaten ghost alone is back as ResetToSpawn leaves it; everything else in the round is unchanged |
| Game.Round.RespawnAfterDeath | main.py:320-327 | Pacman Spawned invincible and normal; power mode off; every ghost home with its new heading; score, lives and phase unchanged |
| Game.Round.RespawnPacman | main.py:322-325 | Pacman Spawned invincible and normal and power mode off; the ghosts, score, lives and phase are unchanged |
| Game.Round.SendGhostsHome | main.py:326 | every ghost is sent home, ghost i heading newDirections(i); nothing else in the round changes |
| Game.Round.UpdatePowerMode | main.py:329-337 | PowerTick: power mode counts down one tick, as Countdown says; Pacman turns normal exactly when it ends; nothing else changes |
| Game.Round.MoveEntities | main.py:228-236 | EntitiesMoved: Pacman moves as PacmanMoved says and its invincibility counts one tick; then every ghost steps as GhostStepped says, toward the cell Pacman now stands on, which is returned; nothing else changes |
| Game.Round.MovePacman | main.py:228-229 | Pacman moves as PacmanMoved says and its invincibility counts one Countdown tick; nothing else in the round changes; its new cell is returned |
| Game.Round.MoveGhosts | main.py:234-236 | every ghost steps as GhostStepped says toward the given cell; nothing else in the round changes |
| Game.Round.HandleCollisions | main.py:238-240 | the round afterwards is Contact after EatAt on Pacman's cell: the items are eaten and scored first, then ghost contact is resolved with any ghosts a pellet frightened. The phase bookkeeping is EnterPhase from Playing: kept while the game goes on; on GameOver the previous phase is Playing and the GameOver timer restarts |
| Game.Round.ResolveCell | main.py:238-243 | collectibles, then ghost contact, then one PowerTick, on Pacman's cell. The phase bookkeeping is EnterPhase from Playing: kept while the game goes on; on GameOver the previous phase is Playing and the GameOver timer restarts |
| Game.Round.FinishTick | main.py:238-248 | Finish: EatAt, Contact, PowerTick, then Victory whenever every dot is collected, even over a game over from the same tick; the bookkeeping records each phase entered in turn: GameOver from contact, then Victory from whatever phase contact left, so a won game after a lost life records GameOver as the previous phase; the Playing timer is untouched |
| Game.Round.UpdatePlayingState | main.py:225-248 | PlayingTick: the entities move as EntitiesMoved says to the returned intermediate round, and the rest of the tick is Finish on the cell Pacman reached (consequences in TickOutcome and PelletTickIsSafe). The phase bookkeeping is TickLog of the bookkeeping before (consequences in TickLogFacts) |
| Game.Round.UpdateStateTimer | main.py:122-124 | the timer of the current phase grows by one tick and every other timer keeps its value; the rest of the round is unchanged |
| Game.Round.PlayingFrame | main.py:209-217 | the Playing timer counts one tick and the frame is a PlayingTick. The bookkeeping is TickLog of the bookkeeping with the Playing timer one tick on |
| Game.Round.Update | main.py:201-223 | the current phase's timer counts one tick. A Playing frame is a PlayingTick; outside Playing nothing else changes. After a Playing frame the bookkeeping is TickLog of the bookkeeping with the Playing timer one tick on |
| Game.Round.ResetEntities | main.py:530-537 | Pacman AtSpawn, normal and not invincible; every item back, uncollected, with collected_dots 0; every ghost AtSpawn with heading newDirections(j) |
| Game.Round.ResetPacman | main.py:530-534 | Pacman AtSpawn, normal and not invincible |
| Game.Round.ResetCounters | main.py:516-519 | score 0, three lives, power mode off; the phase and its timers are kept |
| Game.Round.RestartGame | main.py:507-537 | Restarted: Playing with score 0, three lives and power mode off; Pacman, the collectible manager and every ghost reset as ResetEntities says. The bookkeeping is EnterPhase into Playing: the phase left is recorded and Playing's timer restarts, unless the round was already Playing |
| Game.Round.HandlePlayingInput | main.py:555-569 | an arrow queues its direction and changes nothing else (QueueOnly); Escape switches to Paused as ChangeState does, entities untouched; every other key changes nothing |
| Game.Round.HandleEndGameInput | main.py:571-577 | R restarts (Restarted) and enters Playing as ChangeState does, recording the phase left and restarting the Playing timer; Escape asks to quit; no key but R changes anything |
| Game.Round.HandlePausedInput | main.py:579-584 | Escape switches to Playing as ChangeState does, entities untouched; R restarts (Restarted) and enters Playing as ChangeState does, recording the phase left and restarting the Playing timer; any other key changes nothing |
| Game.Round.OnKeyDown | main.py:542-553 | the phase at the press picks the handler, and each handler's outcome carries over. While Playing, an arrow only queues Pacman's direction, Escape pauses and any other key changes nothing. While Paused, Escape resumes. After the game, Escape only asks to quit. Outside Playing, R restarts and enters Playing as ChangeState does and any other key changes nothing |
| Game.PowerModeWindow | main.py:329-337 | power mode lasts 599 ticks after a pellet and ends at tick 600 when nothing cuts it short |

## Left out

- ui.py and audio.py are not part of this model. They only draw text and
  shapes and play sounds; sound events are no-ops here, and the M key's sound
  toggle changes no modelled state.
- Drawing, animation and sprites are left out: every draw method,
  `_update_animation`, the eye direction, the body bob and the `Actor`
  position updates. So is the pellet blink timer, which is all that
  `CollectibleManager.update` does.
- main.py's visual effects are left out: particles, screen shake and screen
  flash. So are the performance metrics, the high-score update and the
  state-change callbacks, which are never registered.
- Escape after the game has ended exits the program. Here
  `Game.Round.HandleEndGameInput` and `Game.Round.OnKeyDown` return
  `quit = true` instead.
- Timers are whole ticks, not accumulated floats. A float timer can switch
  one tick later than its integer counterpart, and that difference is not
  modelled.
- `random.choice` and `random.randint` are injected as parameters. The model
  states what holds for every choice, not the distribution.
- The Returning ghost state is kept in the datatype, but no code path enters
  it.
- Ghosts.Ghost.constructor: requires the resolved spawn cell to lie inside the
  grid. The code has no such check, but every spawn used by the game is inside
  the default maze (`Game.DefaultMazeSpawnsInside`).
- Ghosts.GhostManager.constructor: requires the fallback cell to lie inside
  the grid when there are fewer spawn tiles than ghosts, for the same reason.
- Player.Pacman.constructor: requires Pacman's spawn cell to lie inside the
  grid, for the same reason.
- Ghosts.Ghost.SetNewTarget and Player.Pacman.SetNewTarget: require the entity
  to be at rest. Both callers in the code call them only from rest.
- Game.Round.HandleGhostCollisions, Game.Round.MeetGhost, Game.Round.LoseLife,
  Game.Round.HandleCollisions, Game.Round.ResolveCell and Game.Round.FinishTick:
  require the Playing phase, which is the only phase they are called in.
- Game.TickOutcome and Game.PelletTickIsSafe: require every item to be worth
  some points. The game's items are worth 10 and 50, and
  `Game.Round.ValidIsWorthwhile` proves this for every valid round.
- Ghosts.StepDistance: a neighbour the wrap cannot place (a row outside the
  grid) scores 0 instead of raising. Only open neighbours are ever scored, and
  those always resolve.
- MazeGrid.LoadMaze: it returns a new maze value instead of overwriting the
  fields in place. The game never reloads a maze, and an empty layout, which
  the code rejects with an index error, is excluded by the precondition.
- MazeGrid.Valid: every maze query requires all rows to be as wide as the
  first, so ragged layouts are outside the model. The code accepts them: the
  width comes from row 0, a lookup in a shorter row raises IndexError, and the
  extra cells of a longer row are never read. The only layout the game loads
  is the rectangular default one.
- Game.Round.Update, Game.Round.PlayingFrame and Game.Round.UpdatePlayingState:
  they return, as a ghost result, the round right after the entities moved. It
  exists only so the contract can name that intermediate state; the code
  returns nothing.
- Game.Round.constructor: its contract does not say that the maze is the
  default one. The body builds it from `DefaultMaze()` (see
  `Game.NewEntities`), but keeping the 25 x 25 layout out of the contract
  keeps every proof about the round small.
- Game.Round.HandleCollectibleCollisions: the points come in one sum; which
  sound and particle effect the source picks for 10 or 50 points is not
  modelled.
- Item world positions use the corner conversion from constants.py; the float
  world positions of the original `Collectible` are only used for drawing.
