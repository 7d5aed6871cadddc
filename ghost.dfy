/**
 * Ghost AI: a per-ghost state machine (Scatter, Chase, Vulnerable) with
 * dwell timers, a target cell chosen per state, and a greedy direction choice
 * that never reverses while another way is open.  Random choices are taken
 * as parameters.
 */
module Ghosts {
  import opened Wrappers
  import opened Constants
  import opened MazeGrid
  import opened Mover

  /** Returning exists as a state name only: no code path enters it. */
  datatype GhostState = Scatter | Chase | Vulnerable | Returning

  /** Dwell times in ticks: 7 s, 20 s and 10 s. */
  const ScatterDuration: nat := 420
  const ChaseDuration: nat := 1200
  const VulnerableDuration: nat := 600
  /** Half a second between direction decisions. */
  const MinDirectionChangeInterval: nat := 30

  /** The reverse of a heading; no heading has no reverse. */
  function Opposite(d: Option<Dir>): (r: Option<Dir>)
    ensures r.Some? <==> d.Some?
    ensures d.Some? ==> Dx(r.value) == -Dx(d.value) && Dy(r.value) == -Dy(d.value)
  {
    match d
    case None => None
    case Some(Up) => Some(Down)
    case Some(Down) => Some(Up)
    case Some(Left) => Some(Right)
    case Some(Right) => Some(Left)
  }

  /** Reversing twice restores the heading, and no heading is its own reverse. */
  lemma OppositeInvolution(d: Option<Dir>)
    ensures Opposite(Opposite(d)) == d
    ensures d.Some? ==> Opposite(d) != d
  {
  }

  /** Scatter corner of a ghost: corner number id % 4 of top-left, top-right,
      bottom-left, bottom-right, one cell inside the border. */
  function ScatterCorner(m: Maze, ghostId: nat): Cell
  {
    var corners := [(1, 1), (m.width - 2, 1), (1, m.height - 2), (m.width - 2, m.height - 2)];
    corners[ghostId % 4]
  }

  /** Even-numbered ghosts scatter to the left column, odd ones to the right;
      ghosts 0 and 1 (mod 4) to the top row, 2 and 3 to the bottom. */
  lemma ScatterCornerSides(m: Maze, ghostId: nat)
    ensures ScatterCorner(m, ghostId).0 == (if ghostId % 2 == 0 then 1 else m.width - 2)
    ensures ScatterCorner(m, ghostId).1 == (if ghostId % 4 < 2 then 1 else m.height - 2)
  {
    var i := ghostId % 4;
    var k := ghostId / 4;
    assert ghostId == 4 * k + i;
    assert ghostId == 2 * (2 * k) + i;
    if i < 2 {
      assert ghostId % 2 == i;
    } else {
      assert ghostId == 2 * (2 * k + 1) + (i - 2);
      assert ghostId % 2 == i - 2;
    }
  }

  /** Target of a vulnerable ghost: the cell mirrored through the maze centre
      from Pacman, clamped into the interior [1, w-2] x [1, h-2]. */
  function FleeTarget(m: Maze, pacman: Cell): (t: Cell)
    ensures m.width >= 3 ==> 1 <= t.0 <= m.width - 2
    ensures m.height >= 3 ==> 1 <= t.1 <= m.height - 2
    ensures 1 <= m.width - 1 - pacman.0 <= m.width - 2 ==> t.0 == m.width - 1 - pacman.0
    ensures 1 <= m.height - 1 - pacman.1 <= m.height - 2 ==> t.1 == m.height - 1 - pacman.1
  {
    var mirroredX, mirroredY := m.width - 1 - pacman.0, m.height - 1 - pacman.1;
    (Max(1, Min(m.width - 2, mirroredX)), Max(1, Min(m.height - 2, mirroredY)))
  }

  function Max(a: int, b: int): int { if a < b then b else a }
  function Min(a: int, b: int): int { if a < b then a else b }

  // ---------------------------------------------------------------------------
  // The dwell-timer state machine
  // ---------------------------------------------------------------------------

  /** How long a state lasts before the automatic switch (Returning never switches). */
  function Dwell(s: GhostState): nat
  {
    match s
    case Scatter => ScatterDuration
    case Chase => ChaseDuration
    case Vulnerable => VulnerableDuration
    case Returning => 0
  }

  /** The state that follows when the dwell time is up. */
  function Successor(s: GhostState): GhostState
  {
    match s
    case Scatter => Chase
    case Chase => Scatter
    case Vulnerable => Scatter
    case Returning => Returning
  }

  /** One tick of the state timer: count the tick, then switch state (and
      restart the timer) once the dwell time is reached. */
  function NextMode(s: GhostState, timer: nat): (r: (GhostState, nat))
    ensures r.0 != s ==> r.1 == 0 && r.0 == Successor(s) && s != Returning && timer + 1 >= Dwell(s)
    ensures r.0 == s ==> r.1 == timer + 1
    ensures (s, r.0) in {(Scatter, Scatter), (Scatter, Chase), (Chase, Chase), (Chase, Scatter),
                         (Vulnerable, Vulnerable), (Vulnerable, Scatter), (Returning, Returning)}
  {
    var t := timer + 1;
    match s
    case Scatter => if t >= ScatterDuration then (Chase, 0) else (Scatter, t)
    case Chase => if t >= ChaseDuration then (Scatter, 0) else (Chase, t)
    case Vulnerable => if t >= VulnerableDuration then (Scatter, 0) else (Vulnerable, t)
    case Returning => (Returning, t)
  }

  /** The state and timer after n ticks. */
  function ModeAfter(s: GhostState, timer: nat, n: nat): (GhostState, nat)
    decreases n
  {
    if n == 0 then (s, timer) else ModeAfter(NextMode(s, timer).0, NextMode(s, timer).1, n - 1)
  }

  /** Entered with a fresh timer, Scatter, Chase and Vulnerable last exactly
      their dwell time in ticks and then hand over to their successor. */
  lemma {:induction false} DwellWindow(s: GhostState, n: nat)
    requires s != Returning && n <= Dwell(s)
    ensures n < Dwell(s) ==> ModeAfter(s, 0, n) == (s, n)
    ensures n == Dwell(s) ==> ModeAfter(s, 0, n) == (Successor(s), 0)
  {
    DwellWindowFrom(s, 0, n);
  }

  lemma {:induction false} DwellWindowFrom(s: GhostState, k: nat, n: nat)
    requires s != Returning && k + n <= Dwell(s) && (k < Dwell(s) || n == 0)
    ensures k + n < Dwell(s) || n == 0 ==> ModeAfter(s, k, n) == (s, k + n)
    ensures k + n == Dwell(s) && n > 0 ==> ModeAfter(s, k, n) == (Successor(s), 0)
    decreases n
  {
    if n > 0 {
      if k + 1 < Dwell(s) {
        assert NextMode(s, k) == (s, k + 1);
        DwellWindowFrom(s, k + 1, n - 1);
      } else {
        assert NextMode(s, k) == (Successor(s), 0);
        assert ModeAfter(Successor(s), 0, 0) == (Successor(s), 0);
      }
    }
  }

  /** A power pellet makes a ghost vulnerable for 600 ticks: it is still
      vulnerable 599 ticks after the switch and back in Scatter at tick 600. */
  lemma VulnerabilityWindow()
    ensures ModeAfter(Vulnerable, 0, VulnerableDuration - 1) == (Vulnerable, VulnerableDuration - 1)
    ensures ModeAfter(Vulnerable, 0, VulnerableDuration) == (Scatter, 0)
  {
    DwellWindow(Vulnerable, VulnerableDuration - 1);
    DwellWindow(Vulnerable, VulnerableDuration);
  }

  // ---------------------------------------------------------------------------
  // Direction choice
  // ---------------------------------------------------------------------------

  /** Position of a direction in the scan order Up, Down, Left, Right. */
  function DirIndex(d: Dir): nat
  {
    match d
    case Up => 0
    case Down => 1
    case Left => 2
    case Right => 3
  }

  lemma AllDirsScanOrder()
    ensures forall i :: 0 <= i < |AllDirs| ==> DirIndex(AllDirs[i]) == i
    ensures forall d: Dir :: d in AllDirs
  {
    forall d: Dir ensures d in AllDirs {
      assert AllDirs[DirIndex(d)] == d;
    }
  }

  predicate Ordered(s: seq<Dir>)
  {
    forall i, j :: 0 <= i < j < |s| ==> DirIndex(s[i]) < DirIndex(s[j])
  }

  /** The directions of ds, in order, that lead somewhere from (x, y) and,
      when forwardOnly holds, are not the reverse of the heading cur. */
  function Possible(m: Maze, x: int, y: int, cur: Option<Dir>, forwardOnly: bool, ds: seq<Dir>): seq<Dir>
    requires Valid(m)
    decreases |ds|
  {
    if ds == [] then []
    else
      var last := ds[|ds| - 1];
      Possible(m, x, y, cur, forwardOnly, ds[..|ds| - 1])
        + (if CanMoveIn(m, x, y, last) && (!forwardOnly || Some(last) != Opposite(cur)) then [last] else [])
  }

  /** The filter keeps exactly the open (and, if asked, non-reverse)
      directions and keeps them in their order. */
  lemma {:induction false} PossibleFacts(m: Maze, x: int, y: int, cur: Option<Dir>, forwardOnly: bool, ds: seq<Dir>)
    requires Valid(m)
    ensures forall d :: d in Possible(m, x, y, cur, forwardOnly, ds) <==>
      d in ds && CanMoveIn(m, x, y, d) && (!forwardOnly || Some(d) != Opposite(cur))
    ensures Ordered(ds) ==> Ordered(Possible(m, x, y, cur, forwardOnly, ds))
    decreases |ds|
  {
    if ds != [] {
      var last := ds[|ds| - 1];
      PossibleFacts(m, x, y, cur, forwardOnly, ds[..|ds| - 1]);
      assert forall d :: d in ds <==> d in ds[..|ds| - 1] || d == last;
      assert Ordered(ds) ==> forall d :: d in ds[..|ds| - 1] ==> DirIndex(d) < DirIndex(last);
    }
  }

  /** The directions the greedy choice considers: the open ones other than
      the reverse, or, when there are none, every open direction. */
  function Candidates(m: Maze, x: int, y: int, cur: Option<Dir>): seq<Dir>
    requires Valid(m)
  {
    var forward := Possible(m, x, y, cur, true, AllDirs);
    if forward != [] then forward else Possible(m, x, y, cur, false, AllDirs)
  }

  function Square(a: int): int { a * a }

  /** Squared distance from the (wrapped) neighbour in direction d to the target. */
  function StepDistance(m: Maze, x: int, y: int, d: Dir, tx: int, ty: int): int
    requires Valid(m)
  {
    match HandleScreenWrapping(m, x + Dx(d), y + Dy(d))
    case Some(c) => Square(c.0 - tx) + Square(c.1 - ty)
    case None => 0
  }

  /** d is a candidate whose neighbour is nearest the target, and every
      candidate earlier in the scan order is strictly farther. */
  predicate IsBestToward(m: Maze, x: int, y: int, cur: Option<Dir>, tx: int, ty: int, d: Dir)
    requires Valid(m)
  {
    var cands := Candidates(m, x, y, cur);
    d in cands &&
    (forall e :: e in cands ==> StepDistance(m, x, y, d, tx, ty) <= StepDistance(m, x, y, e, tx, ty)) &&
    (forall e :: e in cands && DirIndex(e) < DirIndex(d) ==> StepDistance(m, x, y, d, tx, ty) < StepDistance(m, x, y, e, tx, ty))
  }

  /** At most one direction is the best toward a target. */
  lemma BestIsUnique(m: Maze, x: int, y: int, cur: Option<Dir>, tx: int, ty: int, d: Dir, e: Dir)
    requires Valid(m)
    requires IsBestToward(m, x, y, cur, tx, ty, d) && IsBestToward(m, x, y, cur, tx, ty, e)
    ensures d == e
  {
  }

  /** One scan over Up, Down, Left, Right collecting the open directions
      (other than the reverse, when forwardOnly holds). */
  method ScanOpen(m: Maze, x: int, y: int, cur: Option<Dir>, forwardOnly: bool) returns (found: seq<Dir>)
    requires Valid(m)
    ensures found == Possible(m, x, y, cur, forwardOnly, AllDirs)
  {
    found := [];
    var i := 0;
    while i < |AllDirs|
      invariant 0 <= i <= |AllDirs|
      invariant found == Possible(m, x, y, cur, forwardOnly, AllDirs[..i])
    {
      var d := AllDirs[i];
      assert AllDirs[..i + 1][..i] == AllDirs[..i];
      if CanMoveIn(m, x, y, d) && (!forwardOnly || Some(d) != Opposite(cur)) {
        found := found + [d];
      }
      i := i + 1;
    }
    assert AllDirs[..i] == AllDirs;
  }

  /** Builds the candidate list the way the game does: first the open
      directions other than the reverse, then, if none, all open ones. */
  method CollectCandidates(m: Maze, x: int, y: int, cur: Option<Dir>) returns (possible: seq<Dir>)
    requires Valid(m)
    ensures possible == Candidates(m, x, y, cur)
  {
    possible := ScanOpen(m, x, y, cur, true);
    if possible == [] {
      possible := ScanOpen(m, x, y, cur, false);
    }
  }

  lemma HeadIsMember(s: seq<Dir>)
    ensures |s| > 0 ==> s[0] in s
  {
  }

  /** The candidates are open, in scan order, empty only when the ghost is
      boxed in, free of the reverse while another way is open, and nothing
      but the reverse when that is the only way. */
  lemma CandidatesFacts(m: Maze, x: int, y: int, cur: Option<Dir>)
    requires Valid(m)
    ensures forall d :: d in Candidates(m, x, y, cur) ==> CanMoveIn(m, x, y, d)
    ensures Ordered(Candidates(m, x, y, cur))
    ensures Candidates(m, x, y, cur) == [] <==> forall d :: !CanMoveIn(m, x, y, d)
    ensures (exists e :: CanMoveIn(m, x, y, e) && Some(e) != Opposite(cur)) ==>
      forall d :: d in Candidates(m, x, y, cur) ==> Some(d) != Opposite(cur)
    ensures (forall e :: CanMoveIn(m, x, y, e) ==> Some(e) == Opposite(cur)) ==>
      forall d :: d in Candidates(m, x, y, cur) ==> Some(d) == Opposite(cur)
  {
    AllDirsScanOrder();
    PossibleFacts(m, x, y, cur, true, AllDirs);
    PossibleFacts(m, x, y, cur, false, AllDirs);
    var forward := Possible(m, x, y, cur, true, AllDirs);
    if exists e :: CanMoveIn(m, x, y, e) && Some(e) != Opposite(cur) {
      var e :| CanMoveIn(m, x, y, e) && Some(e) != Opposite(cur);
      assert e in forward;
    }
    if exists e :: CanMoveIn(m, x, y, e) {
      var e :| CanMoveIn(m, x, y, e);
      assert e in Possible(m, x, y, cur, false, AllDirs);
      assert forward == [] ==> e in Candidates(m, x, y, cur);
    } else {
      HeadIsMember(Candidates(m, x, y, cur));
    }
  }

  /** The first direction of possible whose neighbour is nearest the target. */
  method PickNearest(m: Maze, x: int, y: int, possible: seq<Dir>, tx: int, ty: int) returns (best: Option<Dir>)
    requires Valid(m)
    requires Ordered(possible)
    requires forall d :: d in possible ==> CanMoveIn(m, x, y, d)
    ensures best.None? <==> possible == []
    ensures best.Some? ==> best.value in possible
    ensures best.Some? ==> forall e :: e in possible ==> StepDistance(m, x, y, best.value, tx, ty) <= StepDistance(m, x, y, e, tx, ty)
    ensures best.Some? ==> forall e :: e in possible && DirIndex(e) < DirIndex(best.value) ==>
      StepDistance(m, x, y, best.value, tx, ty) < StepDistance(m, x, y, e, tx, ty)
  {
    best := None;
    var bestDistance := 0;
    ghost var bestIndex := 0;
    var k := 0;
    while k < |possible|
      invariant 0 <= k <= |possible|
      invariant k > 0 ==> best.Some? && 0 <= bestIndex < k && best.value == possible[bestIndex]
      invariant k == 0 ==> best.None?
      invariant best.Some? ==> bestDistance == StepDistance(m, x, y, best.value, tx, ty)
      invariant best.Some? ==> forall j :: 0 <= j < k ==> bestDistance <= StepDistance(m, x, y, possible[j], tx, ty)
      invariant best.Some? ==> forall j :: 0 <= j < bestIndex ==> bestDistance < StepDistance(m, x, y, possible[j], tx, ty)
    {
      var d := possible[k];
      assert CanMoveIn(m, x, y, d);
      var wrapped := HandleScreenWrapping(m, x + Dx(d), y + Dy(d));
      if wrapped.Some? {
        var dx, dy := wrapped.value.0 - tx, wrapped.value.1 - ty;
        var distance := dx * dx + dy * dy;
        if best.None? || distance < bestDistance {
          best, bestDistance := Some(d), distance;
          bestIndex := k;
        }
      }
      k := k + 1;
    }
    if best.Some? {
      forall e | e in possible && DirIndex(e) < DirIndex(best.value)
        ensures StepDistance(m, x, y, best.value, tx, ty) < StepDistance(m, x, y, e, tx, ty)
      {
        var j :| 0 <= j < |possible| && possible[j] == e;
        assert j < bestIndex;
      }
    }
  }

  /** Greedy pathfinding: the candidate whose neighbour is nearest the target
      (first one wins a tie), or None when the ghost is boxed in.  It never
      takes the reverse while another way is open, and takes the reverse
      when that is the only way. */
  method DirectionTowardTarget(m: Maze, x: int, y: int, cur: Option<Dir>, tx: int, ty: int) returns (best: Option<Dir>)
    requires Valid(m)
    ensures best.None? <==> forall d :: !CanMoveIn(m, x, y, d)
    ensures best.Some? ==> CanMoveIn(m, x, y, best.value) && IsBestToward(m, x, y, cur, tx, ty, best.value)
    ensures best.Some? && Some(best.value) == Opposite(cur) ==>
      forall e :: CanMoveIn(m, x, y, e) ==> Some(e) == Opposite(cur)
    ensures cur.Some? && (forall e :: CanMoveIn(m, x, y, e) <==> Some(e) == Opposite(cur)) ==> best == Opposite(cur)
  {
    CandidatesFacts(m, x, y, cur);
    var possible := CollectCandidates(m, x, y, cur);
    best := PickNearest(m, x, y, possible, tx, ty);
    if cur.Some? && (forall e :: CanMoveIn(m, x, y, e) <==> Some(e) == Opposite(cur)) {
      assert CanMoveIn(m, x, y, Opposite(cur).value);
    }
  }

  /** Random movement of a vulnerable ghost: one of the open directions,
      the injected pick choosing which; None when none is open. */
  method RandomValidDirection(m: Maze, x: int, y: int, pick: nat) returns (r: Option<Dir>)
    requires Valid(m)
    ensures r.None? <==> forall d :: !CanMoveIn(m, x, y, d)
    ensures r.Some? ==> CanMoveIn(m, x, y, r.value)
  {
    var valid := ScanOpen(m, x, y, None, false);
    AllDirsScanOrder();
    PossibleFacts(m, x, y, None, false, AllDirs);
    if valid != [] {
      r := Some(valid[pick % |valid|]);
    } else {
      r := None;
    }
  }

  // ---------------------------------------------------------------------------
  // Spawn resolution
  // ---------------------------------------------------------------------------

  /** The ghost-house fallback used when the layout has too few spawn tiles. */
  const FallbackGhostSpawn: Cell := (12, 10)

  /** Where a ghost starts: the given cell, else spawn tile number ghostId of
      the row-major scan, else the fallback. */
  function GhostSpawn(m: Maze, ghostId: nat, given: Option<Cell>): (c: Cell)
    requires Valid(m)
    ensures given.Some? ==> c == given.value
    ensures given.None? && ghostId < |CellsWith(m, GhostSpawnTile, m.height)| ==> HasTile(m, c, GhostSpawnTile)
  {
    var spawns := CellsWith(m, GhostSpawnTile, m.height);
    CellsWithFacts(m, GhostSpawnTile, m.height);
    if given.Some? then given.value
    else if ghostId < |spawns| then spawns[ghostId]
    else FallbackGhostSpawn
  }

  // ---------------------------------------------------------------------------
  // One ghost as a value
  // ---------------------------------------------------------------------------

  /** Everything about one ghost at one moment: its number and spawn cell,
      the cell it occupies, its drawn position and transit target, heading,
      whether it is in transit, its state and state timer, the cell the AI
      steers toward and the ticks since the last direction decision. */
  datatype GhostView = GhostView(
    ghostId: nat, spawn: Cell,
    cell: Cell, world: Point, target: Point,
    currentDirection: Option<Dir>, moving: bool,
    state: GhostState, stateTimer: nat,
    targetGrid: Cell, directionChangeTimer: nat)

  /** The ghost v sent home: at rest on the centre of its spawn cell heading
      d, in Scatter with both timers restarted and the AI aimed at its corner. */
  function Home(m: Maze, v: GhostView, d: Dir): GhostView
  {
    v.(cell := v.spawn, world := CellCentre(v.spawn), target := CellCentre(v.spawn),
       currentDirection := Some(d), moving := false, state := Scatter, stateTimer := 0,
       targetGrid := ScatterCorner(m, v.ghostId), directionChangeTimer := 0)
  }

  /** Every ghost of a team sent home, ghost i heading newDirections(i). */
  function HomeAll(m: Maze, vs: seq<GhostView>, newDirections: nat -> Dir): (r: seq<GhostView>)
    ensures |r| == |vs| && forall i :: 0 <= i < |vs| ==> r[i] == Home(m, vs[i], newDirections(i))
  {
    seq(|vs|, i requires 0 <= i < |vs| => Home(m, vs[i], newDirections(i)))
  }

  /** What a power pellet does to a ghost: it turns Vulnerable; one that
      already was is untouched, any other restarts its state timer and turns
      around.  It stays where it is. */
  function Frighten(v: GhostView): GhostView
  {
    if v.state == Vulnerable then v
    else v.(state := Vulnerable, stateTimer := 0, currentDirection := Opposite(v.currentDirection))
  }

  /** A power pellet for the whole team. */
  function FrightenAll(vs: seq<GhostView>): (r: seq<GhostView>)
    ensures |r| == |vs| && forall i :: 0 <= i < |vs| ==> r[i] == Frighten(vs[i])
  {
    seq(|vs|, i requires 0 <= i < |vs| => Frighten(vs[i]))
  }

  /** A second power pellet neither restarts a vulnerable ghost's timer nor
      turns it around again. */
  lemma FrightenIdempotent(v: GhostView)
    ensures Frighten(Frighten(v)) == Frighten(v)
    ensures Frighten(v).state == Vulnerable && Frighten(v).cell == v.cell
  {
  }

  /** A ghost's movement over one tick, from a to b; gate is the
      direction-change timer the decision sees.  At rest with a decision
      due, the ghost takes the chosen open direction into the neighbouring
      cell and restarts the gate (a non-vulnerable ghost the best one toward
      its target), or stays put when boxed in.  At rest between decisions it
      goes on along an open heading and otherwise makes the next decision due
      at once.  A travelling ghost keeps its cell and heading.  Every tick
      ends with one transit step toward the centre of the cell it is now in,
      so a transit started this tick is under way at its end.  Number, spawn,
      state, state timer and AI target do not move. */
  ghost predicate GhostMoved(m: Maze, a: GhostView, b: GhostView, gate: int)
    requires Valid(m)
  {
    var (x, y) := a.cell;
    b.ghostId == a.ghostId && b.spawn == a.spawn &&
    b.state == a.state && b.stateTimer == a.stateTimer && b.targetGrid == a.targetGrid &&
    b.target == CellCentre(b.cell) &&
    Aligned(a.world, b.target) &&
    (b.world, b.moving) == Approach(a.world, b.target, GhostSpeed) &&
    (b.cell != a.cell ==> b.moving) &&
    (a.moving ==>
      b.cell == a.cell && b.currentDirection == a.currentDirection && b.directionChangeTimer == gate) &&
    (!a.moving && gate >= MinDirectionChangeInterval ==>
      if forall d :: !CanMoveIn(m, x, y, d)
      then b.cell == a.cell && b.currentDirection == a.currentDirection && b.directionChangeTimer == gate
      else
        b.directionChangeTimer == 0 && b.currentDirection.Some? &&
        GetValidMovePosition(m, x, y, b.currentDirection.value) == Some(b.cell) &&
        (b.state != Vulnerable ==>
          IsBestToward(m, x, y, a.currentDirection, b.targetGrid.0, b.targetGrid.1, b.currentDirection.value))) &&
    (!a.moving && gate < MinDirectionChangeInterval ==>
      b.currentDirection == a.currentDirection &&
      if b.currentDirection.Some? && CanMoveIn(m, x, y, b.currentDirection.value)
      then GetValidMovePosition(m, x, y, b.currentDirection.value) == Some(b.cell) &&
           b.directionChangeTimer == gate
      else b.cell == a.cell &&
           b.directionChangeTimer == if b.currentDirection.Some? then MinDirectionChangeInterval else gate)
  }

  /** One whole ghost frame, from a to b: the state machine takes its tick,
      the AI target follows the (new) state -- Pacman's cell in Chase, the
      mirrored cell when vulnerable, the corner on returning to Scatter,
      else unchanged -- and the ghost moves with the direction-change timer
      one tick further on. */
  ghost predicate GhostStepped(m: Maze, a: GhostView, b: GhostView, pacmanPosition: Option<Cell>)
    requires Valid(m)
  {
    var mode := NextMode(a.state, a.stateTimer);
    var aimed := a.(state := mode.0, stateTimer := mode.1,
      targetGrid :=
        if pacmanPosition.Some? && mode.0 == Chase then pacmanPosition.value
        else if pacmanPosition.Some? && mode.0 == Vulnerable then FleeTarget(m, pacmanPosition.value)
        else if mode.0 == Scatter && a.state != Scatter then ScatterCorner(m, a.ghostId)
        else a.targetGrid);
    GhostMoved(m, aimed, b, a.directionChangeTimer + 1)
  }

  // ---------------------------------------------------------------------------
  // One ghost
  // ---------------------------------------------------------------------------

  class Ghost {
    const maze: Maze
    const ghostId: nat
    /** Spawn cell, kept for respawning. */
    const spawnX: int
    const spawnY: int
    /** The cell the ghost occupies (during a transit: the cell it is entering). */
    var gridX: int
    var gridY: int
    /** Drawn position and transit target, in half-pixels. */
    var worldX: int
    var worldY: int
    var targetX: int
    var targetY: int
    var currentDirection: Option<Dir>
    var moving: bool
    var state: GhostState
    /** Ticks spent in the current state. */
    var stateTimer: nat
    /** The cell the AI steers toward. */
    var targetGridX: int
    var targetGridY: int
    /** Ticks since the last direction decision. */
    var directionChangeTimer: nat

    /** The ghost sits in (or is entering) an in-grid cell, its transit target
        is that cell's centre on the same row or column, it rests exactly on
        the centre when not moving, and it never travels into a wall. */
    ghost predicate Valid()
      reads this
    {
      MazeGrid.Valid(maze) &&
      InBounds(maze, spawnX, spawnY) &&
      InBounds(maze, gridX, gridY) &&
      (targetX, targetY) == CellCentre((gridX, gridY)) &&
      Aligned((worldX, worldY), (targetX, targetY)) &&
      (!moving ==> (worldX, worldY) == (targetX, targetY)) &&
      (moving ==> CanMoveTo(maze, gridX, gridY))
    }

    /** This ghost as a value. */
    function View(): GhostView
      reads this
    {
      GhostView(ghostId, (spawnX, spawnY), (gridX, gridY), (worldX, worldY), (targetX, targetY),
        currentDirection, moving, state, stateTimer, (targetGridX, targetGridY), directionChangeTimer)
    }

    /** At rest on the centre of the spawn cell, heading d, in Scatter with
        both timers restarted and the AI aimed at this ghost's corner. */
    ghost predicate AtSpawn(d: Dir)
      reads this
    {
      View() == Home(maze, View(), d)
    }

    /** The ghost's movement over one tick, judged against the state before
        it, with gate the direction-change timer the decision sees. */
    twostate predicate Moved(gate: int)
      reads this
      requires MazeGrid.Valid(maze)
    {
      GhostMoved(maze, old(View()), View(), gate)
    }

    /** One whole frame, judged against the state before it. */
    twostate predicate Stepped(pacmanPosition: Option<Cell>)
      reads this
      requires MazeGrid.Valid(maze)
    {
      GhostStepped(maze, old(View()), View(), pacmanPosition)
    }

    /** A ghost at rest on its spawn cell, in Scatter toward its corner. */
    constructor(maze: Maze, ghostId: nat, spawnPosition: Option<Cell>, initialDirection: Dir)
      requires MazeGrid.Valid(maze)
      requires InBounds(maze, GhostSpawn(maze, ghostId, spawnPosition).0, GhostSpawn(maze, ghostId, spawnPosition).1)
      ensures Valid()
      ensures this.maze == maze && this.ghostId == ghostId
      ensures (spawnX, spawnY) == GhostSpawn(maze, ghostId, spawnPosition) && (gridX, gridY) == (spawnX, spawnY)
      ensures AtSpawn(initialDirection)
    {
      var spawn: Cell;
      if spawnPosition.Some? {
        spawn := spawnPosition.value;
      } else {
        var _, ghostSpawns := GetSpawnPositions(maze);
        if ghostSpawns != [] && ghostId < |ghostSpawns| {
          spawn := ghostSpawns[ghostId];
        } else {
          spawn := FallbackGhostSpawn;
        }
      }
      this.maze := maze;
      this.ghostId := ghostId;
      spawnX, spawnY := spawn.0, spawn.1;
      gridX, gridY := spawn.0, spawn.1;
      var centre := CellCentre(spawn);
      worldX, worldY := centre.0, centre.1;
      currentDirection := Some(initialDirection);
      moving := false;
      targetX, targetY := centre.0, centre.1;
      state := Scatter;
      stateTimer := 0;
      var corner := ScatterCorner(maze, ghostId);
      targetGridX, targetGridY := corner.0, corner.1;
      directionChangeTimer := 0;
    }

    /** Points the AI at this ghost's scatter corner. */
    method SetScatterTarget()
      modifies this
      ensures (targetGridX, targetGridY) == ScatterCorner(maze, ghostId)
      ensures gridX == old(gridX) && gridY == old(gridY) && worldX == old(worldX) && worldY == old(worldY)
      ensures targetX == old(targetX) && targetY == old(targetY) && moving == old(moving)
      ensures currentDirection == old(currentDirection) && state == old(state) && stateTimer == old(stateTimer)
      ensures directionChangeTimer == old(directionChangeTimer)
    {
      var corner := ScatterCorner(maze, ghostId);
      targetGridX, targetGridY := corner.0, corner.1;
    }

    /** Turns the ghost around (no heading stays no heading). */
    method ReverseDirection()
      modifies this
      ensures currentDirection == Opposite(old(currentDirection))
      ensures gridX == old(gridX) && gridY == old(gridY) && worldX == old(worldX) && worldY == old(worldY)
      ensures targetX == old(targetX) && targetY == old(targetY) && moving == old(moving)
      ensures state == old(state) && stateTimer == old(stateTimer)
      ensures targetGridX == old(targetGridX) && targetGridY == old(targetGridY)
      ensures directionChangeTimer == old(directionChangeTimer)
    {
      if currentDirection.Some? {
        currentDirection := Opposite(currentDirection);
      }
    }

    /** What a power pellet does to one ghost: it ends up Vulnerable in
        the same cell; one that already was is untouched, any other has
        its mode timer restarted and its heading reversed. */
    twostate predicate Frightened()
      reads this
    {
      View() == Frighten(old(View()))
    }

    /** Switching to a different state restarts the state timer; Scatter
        re-targets the corner and Vulnerable reverses the ghost.  Asking for
        the current state changes nothing. */
    method SetState(newState: GhostState)
      requires Valid()
      modifies this
      ensures Valid()
      ensures newState == old(state) ==> unchanged(this)
      ensures state == newState
      ensures newState != old(state) ==> stateTimer == 0
      ensures newState != old(state) && newState == Scatter ==> (targetGridX, targetGridY) == ScatterCorner(maze, ghostId)
      ensures newState != Scatter ==> targetGridX == old(targetGridX) && targetGridY == old(targetGridY)
      ensures currentDirection == if newState != old(state) && newState == Vulnerable then Opposite(old(currentDirection)) else old(currentDirection)
      ensures gridX == old(gridX) && gridY == old(gridY) && worldX == old(worldX) && worldY == old(worldY)
      ensures targetX == old(targetX) && targetY == old(targetY) && moving == old(moving)
      ensures directionChangeTimer == old(directionChangeTimer)
    {
      if newState != state {
        state := newState;
        stateTimer := 0;
        if newState == Scatter {
          SetScatterTarget();
        } else if newState == Vulnerable {
          ReverseDirection();
        }
      }
    }

    /** One tick of the state timers; the state switches as NextMode says. */
    method UpdateStateTimer()
      requires Valid()
      modifies this
      ensures Valid()
      ensures (state, stateTimer) == NextMode(old(state), old(stateTimer))
      ensures directionChangeTimer == old(directionChangeTimer) + 1
      ensures state != old(state) && state == Scatter ==> (targetGridX, targetGridY) == ScatterCorner(maze, ghostId)
      ensures state != Scatter || state == old(state) ==> targetGridX == old(targetGridX) && targetGridY == old(targetGridY)
      ensures currentDirection == old(currentDirection)
      ensures gridX == old(gridX) && gridY == old(gridY) && worldX == old(worldX) && worldY == old(worldY)
      ensures targetX == old(targetX) && targetY == old(targetY) && moving == old(moving)
    {
      stateTimer := stateTimer + 1;
      directionChangeTimer := directionChangeTimer + 1;
      if state == Scatter {
        if stateTimer >= ScatterDuration {
          SetState(Chase);
        }
      } else if state == Chase {
        if stateTimer >= ChaseDuration {
          SetState(Scatter);
        }
      } else if state == Vulnerable {
        if stateTimer >= VulnerableDuration {
          SetState(Scatter);
        }
      }
    }

    /** Chase steers at Pacman's cell, Vulnerable at the mirrored cell;
        Scatter (and a missing Pacman) keeps the current target. */
    method UpdateAiTarget(pacmanPosition: Option<Cell>)
      modifies this
      ensures state == Chase && pacmanPosition.Some? ==> (targetGridX, targetGridY) == pacmanPosition.value
      ensures state == Vulnerable && pacmanPosition.Some? ==> (targetGridX, targetGridY) == FleeTarget(maze, pacmanPosition.value)
      ensures (state != Chase && state != Vulnerable) || pacmanPosition.None? ==>
        targetGridX == old(targetGridX) && targetGridY == old(targetGridY)
      ensures gridX == old(gridX) && gridY == old(gridY) && worldX == old(worldX) && worldY == old(worldY)
      ensures targetX == old(targetX) && targetY == old(targetY) && moving == old(moving)
      ensures currentDirection == old(currentDirection) && state == old(state) && stateTimer == old(stateTimer)
      ensures directionChangeTimer == old(directionChangeTimer)
    {
      if state == Chase && pacmanPosition.Some? {
        targetGridX, targetGridY := pacmanPosition.value.0, pacmanPosition.value.1;
      } else if state == Vulnerable {
        if pacmanPosition.Some? {
          var flee := FleeTarget(maze, pacmanPosition.value);
          targetGridX, targetGridY := flee.0, flee.1;
        }
      }
    }

    /** Vulnerable ghosts wander at random (pick chooses); the others steer
        greedily toward their target cell. */
    method ChooseBestDirection(pick: nat) returns (r: Option<Dir>)
      requires Valid()
      ensures r.None? <==> forall d :: !CanMoveIn(maze, gridX, gridY, d)
      ensures r.Some? ==> CanMoveIn(maze, gridX, gridY, r.value)
      ensures r.Some? && state != Vulnerable ==>
        IsBestToward(maze, gridX, gridY, currentDirection, targetGridX, targetGridY, r.value)
    {
      if state == Vulnerable {
        r := RandomValidDirection(maze, gridX, gridY, pick);
      } else {
        r := DirectionTowardTarget(maze, gridX, gridY, currentDirection, targetGridX, targetGridY);
      }
    }

    /** From rest, starts a transit one cell along the current heading when
        that step is open; otherwise nothing changes. */
    method SetNewTarget()
      requires Valid() && !moving
      modifies this
      ensures Valid()
      ensures var next := if old(currentDirection).Some?
                          then GetValidMovePosition(maze, old(gridX), old(gridY), old(currentDirection).value)
                          else None;
        if next.Some? then (gridX, gridY) == next.value && moving else unchanged(this)
      ensures worldX == old(worldX) && worldY == old(worldY) && currentDirection == old(currentDirection)
      ensures state == old(state) && stateTimer == old(stateTimer)
      ensures targetGridX == old(targetGridX) && targetGridY == old(targetGridY)
      ensures directionChangeTimer == old(directionChangeTimer)
    {
      if currentDirection.None? {
        return;
      }
      var next := GetValidMovePosition(maze, gridX, gridY, currentDirection.value);
      if next.Some? {
        gridX, gridY := next.value.0, next.value.1;
        var centre := CellCentre(next.value);
        targetX, targetY := centre.0, centre.1;
        moving := true;
      }
    }

    /** One tick of transit at ghost speed. */
    method MoveTowardsTarget()
      requires Valid()
      modifies this
      ensures Valid()
      ensures gridX == old(gridX) && gridY == old(gridY) && targetX == old(targetX) && targetY == old(targetY)
      ensures ((worldX, worldY), moving) == Approach((old(worldX), old(worldY)), (targetX, targetY), GhostSpeed)
      ensures currentDirection == old(currentDirection) && state == old(state) && stateTimer == old(stateTimer)
      ensures targetGridX == old(targetGridX) && targetGridY == old(targetGridY)
      ensures directionChangeTimer == old(directionChangeTimer)
    {
      var step := Approach((worldX, worldY), (targetX, targetY), GhostSpeed);
      worldX, worldY := step.0.0, step.0.1;
      moving := step.1;
    }

    /** Decides and moves for one tick.  At rest with a decision due, the
        ghost takes the chosen direction (and stays put when boxed in); at
        rest between decisions it keeps its heading while that is open and
        otherwise makes the next decision due at once; in transit it only
        advances. */
    method HandleMovement(pick: nat)
      requires Valid()
      modifies this
      ensures Valid()
      ensures Moved(old(directionChangeTimer))
      ensures state == old(state) && stateTimer == old(stateTimer)
      ensures targetGridX == old(targetGridX) && targetGridY == old(targetGridY)
    {
      if !moving && directionChangeTimer >= MinDirectionChangeInterval {
        var newDirection := ChooseBestDirection(pick);
        if newDirection.Some? {
          currentDirection := newDirection;
          directionChangeTimer := 0;
          SetNewTarget();
        }
      } else if !moving && currentDirection.Some? {
        if CanMoveIn(maze, gridX, gridY, currentDirection.value) {
          SetNewTarget();
        } else {
          directionChangeTimer := MinDirectionChangeInterval;
        }
      }
      if (gridX, gridY) != old((gridX, gridY)) {
        CentresApart(old((gridX, gridY)), (gridX, gridY));
      }
      if moving {
        MoveTowardsTarget();
      }
    }

    /** One frame: state timers, AI target, then movement. */
    method Update(pacmanPosition: Option<Cell>, pick: nat)
      requires Valid()
      modifies this
      ensures Valid()
      ensures Stepped(pacmanPosition)
    {
      UpdateStateTimer();
      UpdateAiTarget(pacmanPosition);
      HandleMovement(pick);
    }

    /** Back to the spawn cell at rest, in Scatter with fresh timers and a new
        (injected) heading. */
    method ResetToSpawn(newDirection: Dir)
      requires Valid()
      modifies this
      ensures Valid()
      ensures AtSpawn(newDirection)
    {
      gridX, gridY := spawnX, spawnY;
      var centre := CellCentre((gridX, gridY));
      worldX, worldY := centre.0, centre.1;
      targetX, targetY := worldX, worldY;
      currentDirection := Some(newDirection);
      moving := false;
      state := Scatter;
      stateTimer := 0;
      directionChangeTimer := 0;
      SetScatterTarget();
    }

    function IsVulnerable(): (r: bool)
      reads this
      ensures r <==> state == Vulnerable
    {
      state == Vulnerable
    }
  }

  // ---------------------------------------------------------------------------
  // The ghost team
  // ---------------------------------------------------------------------------

  class GhostManager {
    const maze: Maze
    const ghosts: seq<Ghost>

    /** Every ghost is valid, plays in this maze, and no ghost is listed twice. */
    ghost predicate Valid()
      reads this, ghosts
    {
      MazeGrid.Valid(maze) &&
      (forall i :: 0 <= i < |ghosts| ==> ghosts[i].maze == maze && ghosts[i].Valid()) &&
      (forall i, j :: 0 <= i < j < |ghosts| ==> ghosts[i] != ghosts[j])
    }

    /** numGhosts ghosts numbered 0, 1, ..., each on the spawn tile of its
        number (the fallback cell when the layout runs out), heading as
        initialDirections says. */
    constructor(maze: Maze, numGhosts: nat, initialDirections: nat -> Dir)
      requires MazeGrid.Valid(maze)
      requires numGhosts > |CellsWith(maze, GhostSpawnTile, maze.height)| ==>
        InBounds(maze, FallbackGhostSpawn.0, FallbackGhostSpawn.1)
      ensures Valid()
      ensures this.maze == maze && |ghosts| == numGhosts
      ensures forall i :: 0 <= i < |ghosts| ==>
        ghosts[i].ghostId == i && (ghosts[i].spawnX, ghosts[i].spawnY) == GhostSpawn(maze, i, None) &&
        ghosts[i].AtSpawn(initialDirections(i))
      ensures forall i :: 0 <= i < |ghosts| ==> fresh(ghosts[i])
    {
      var _, ghostSpawns := GetSpawnPositions(maze);
      var team: seq<Ghost> := [];
      var i := 0;
      while i < numGhosts
        invariant 0 <= i <= numGhosts && |team| == i
        invariant forall j :: 0 <= j < i ==>
          fresh(team[j]) && team[j].maze == maze && team[j].Valid() &&
          team[j].ghostId == j && (team[j].spawnX, team[j].spawnY) == GhostSpawn(maze, j, None) &&
          team[j].AtSpawn(initialDirections(j))
        invariant forall j, k :: 0 <= j < k < i ==> team[j] != team[k]
      {
        var member := NewMember(maze, i, ghostSpawns, initialDirections(i));
        team := team + [member];
        i := i + 1;
      }
      this.maze := maze;
      ghosts := team;
    }

    /** Ghost i of a new team: on the i-th ghost spawn tile of the layout,
        or on the fallback cell when the layout has fewer. */
    static method NewMember(maze: Maze, i: nat, ghostSpawns: seq<Cell>, d: Dir) returns (member: Ghost)
      requires MazeGrid.Valid(maze) && ghostSpawns == CellsWith(maze, GhostSpawnTile, maze.height)
      requires i >= |ghostSpawns| ==> InBounds(maze, FallbackGhostSpawn.0, FallbackGhostSpawn.1)
      ensures fresh(member) && member.maze == maze && member.Valid() && member.ghostId == i
      ensures (member.spawnX, member.spawnY) == GhostSpawn(maze, i, None) && member.AtSpawn(d)
    {
      CellsWithFacts(maze, GhostSpawnTile, maze.height);
      var spawn := if i < |ghostSpawns| then Some(ghostSpawns[i]) else None;
      member := new Ghost(maze, i, spawn, d);
    }

    /** The team as values, in order. */
    ghost function Views(): (vs: seq<GhostView>)
      reads ghosts
      ensures |vs| == |ghosts| && forall i :: 0 <= i < |ghosts| ==> vs[i] == ghosts[i].View()
    {
      seq(|ghosts|, i reads ghosts requires 0 <= i < |ghosts| => ghosts[i].View())
    }

    /** Every ghost takes one frame, in order, with its own random pick. */
    method Update(pacmanPosition: Option<Cell>, picks: nat -> nat)
      requires Valid()
      modifies ghosts
      ensures Valid()
      ensures forall i :: 0 <= i < |ghosts| ==> ghosts[i].Stepped(pacmanPosition)
    {
      var i := 0;
      while i < |ghosts|
        invariant 0 <= i <= |ghosts|
        invariant Valid()
        invariant forall j :: 0 <= j < i ==> ghosts[j].Stepped(pacmanPosition)
        invariant forall j :: i <= j < |ghosts| ==> unchanged(ghosts[j])
      {
        ghosts[i].Update(pacmanPosition, picks(i));
        i := i + 1;
      }
    }

    /** A power pellet: every ghost becomes vulnerable; those that were not
        restart their timer and turn around. */
    method SetAllVulnerable()
      requires Valid()
      modifies ghosts
      ensures Valid()
      ensures forall i :: 0 <= i < |ghosts| ==> ghosts[i].Frightened()
      ensures Views() == FrightenAll(old(Views()))
    {
      var i := 0;
      while i < |ghosts|
        invariant 0 <= i <= |ghosts|
        invariant Valid()
        invariant forall j :: 0 <= j < i ==> ghosts[j].Frightened()
        invariant forall j :: i <= j < |ghosts| ==> unchanged(ghosts[j])
      {
        ghosts[i].SetState(Vulnerable);
        i := i + 1;
      }
    }

    /** Ghost i alone goes back to its spawn cell in Scatter, heading d;
        the rest of the team is untouched. */
    method ResetGhost(i: nat, d: Dir)
      requires Valid() && i < |ghosts|
      modifies ghosts[i]
      ensures Valid()
      ensures ghosts[i].AtSpawn(d)
      ensures Views() == old(Views())[i := Home(maze, old(Views())[i], d)]
    {
      ghosts[i].ResetToSpawn(d);
    }

    /** Every ghost back to its spawn cell in Scatter, ghost i heading as
        newDirections(i) says. */
    method ResetAllGhosts(newDirections: nat -> Dir)
      requires Valid()
      modifies ghosts
      ensures Valid()
      ensures forall i :: 0 <= i < |ghosts| ==> ghosts[i].AtSpawn(newDirections(i))
      ensures Views() == HomeAll(maze, old(Views()), newDirections)
    {
      var i := 0;
      while i < |ghosts|
        invariant 0 <= i <= |ghosts|
        invariant Valid()
        invariant forall j :: 0 <= j < i ==> ghosts[j].AtSpawn(newDirections(j))
      {
        ResetGhost(i, newDirections(i));
        i := i + 1;
      }
    }

    /** The first ghost, in team order, standing on Pacman's cell. */
    method CheckCollisionWithPacman(pacmanPosition: Cell) returns (hit: Option<nat>)
      ensures hit.Some? ==> hit.value < |ghosts|
      ensures hit.Some? ==> (ghosts[hit.value].gridX, ghosts[hit.value].gridY) == pacmanPosition
      ensures hit.Some? ==> forall j :: 0 <= j < hit.value ==> (ghosts[j].gridX, ghosts[j].gridY) != pacmanPosition
      ensures hit.None? <==> forall j :: 0 <= j < |ghosts| ==> (ghosts[j].gridX, ghosts[j].gridY) != pacmanPosition
    {
      var i := 0;
      while i < |ghosts|
        invariant 0 <= i <= |ghosts|
        invariant forall j :: 0 <= j < i ==> (ghosts[j].gridX, ghosts[j].gridY) != pacmanPosition
      {
        if ghosts[i].gridX == pacmanPosition.0 && ghosts[i].gridY == pacmanPosition.1 {
          return Some(i);
        }
        i := i + 1;
      }
      return None;
    }
  }
}
