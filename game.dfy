/**
 * One game: the score, the lives, the phase (Playing, Paused, GameOver,
 * Victory), the power mode and the per-tick order of events, together with
 * the keyboard's phase transitions.  Random choices (ghost headings and the
 * vulnerable ghosts' wandering) arrive as parameters.
 */
module Game {
  import opened Wrappers
  import opened Constants
  import opened MazeGrid
  import opened Mover
  import opened Timers
  import opened Collectibles
  import opened Ghosts
  import opened Player

  datatype Phase = Playing | GameOver | Victory | Paused

  /** The keys the game reacts to; every other key is OtherKey. */
  datatype Key = UpKey | DownKey | LeftKey | RightKey | EscapeKey | MKey | RKey | OtherKey

  const GhostCount: nat := 4

  /** The direction an arrow key asks for; None for every other key. */
  function Arrow(key: Key): Option<Dir>
  {
    match key
    case UpKey => Some(Up)
    case DownKey => Some(Down)
    case LeftKey => Some(Left)
    case RightKey => Some(Right)
    case _ => None
  }

  /** The default maze leaves room for both fallback spawn cells, so every
      entity of a new game starts inside the grid. */
  lemma DefaultMazeSpawnsInside()
    ensures Valid(DefaultMaze())
    ensures InBounds(DefaultMaze(), PacmanSpawn(DefaultMaze()).0, PacmanSpawn(DefaultMaze()).1)
    ensures InBounds(DefaultMaze(), FallbackGhostSpawn.0, FallbackGhostSpawn.1)
  {
    DefaultMazeShape();
    PacmanSpawnFacts(DefaultMaze());
  }

  // ---------------------------------------------------------------------------
  // The Playing tick on values
  // ---------------------------------------------------------------------------

  /** Everything a Playing tick reads or writes: score, lives, phase, power
      mode, Pacman's power state and the rest of Pacman, both collectible
      lists, and the ghosts in team order. */
  datatype Snapshot = Snapshot(
    score: int, lives: int, phase: Phase,
    powerModeActive: bool, powerModeTimer: nat,
    pacmanState: PacmanState, pacman: PacmanView,
    dots: seq<Collectible>, powerPellets: seq<Collectible>,
    ghosts: seq<GhostView>)

  /** Whatever lies on cell c is eaten and its points scored; a power pellet
      starts power mode for its full duration, powers Pacman up and
      frightens every ghost. */
  function EatAt(s: Snapshot, c: Cell): Snapshot
  {
    var eaten := s.(score := s.score + PointsAt(s.dots, c.0, c.1) + PointsAt(s.powerPellets, c.0, c.1),
                    dots := CollectAt(s.dots, c.0, c.1),
                    powerPellets := CollectAt(s.powerPellets, c.0, c.1));
    if CountAt(s.powerPellets, c.0, c.1) > 0
    then eaten.(powerModeActive := true, powerModeTimer := PowerPelletDuration,
                pacmanState := Powered, ghosts := FrightenAll(s.ghosts))
    else eaten
  }

  /** The first ghost, in team order, standing on cell c; None when there is
      none. */
  function FirstGhostOn(gs: seq<GhostView>, c: Cell): (r: Option<nat>)
    ensures r.Some? ==>
      r.value < |gs| && gs[r.value].cell == c && forall j :: 0 <= j < r.value ==> gs[j].cell != c
    ensures r.None? ==> forall j :: 0 <= j < |gs| ==> gs[j].cell != c
    decreases |gs|
  {
    if gs == [] then None
    else if gs[0].cell == c then Some(0)
    else match FirstGhostOn(gs[1..], c)
      case Some(i) => Some(i + 1)
      case None => None
  }

  /** FirstGhostOn finds exactly the ghost the team-order scan stops at. */
  lemma FirstGhostOnIs(gs: seq<GhostView>, c: Cell, r: Option<nat>)
    requires r.Some? ==>
      r.value < |gs| && gs[r.value].cell == c && forall j :: 0 <= j < r.value ==> gs[j].cell != c
    requires r.None? ==> forall j :: 0 <= j < |gs| ==> gs[j].cell != c
    ensures FirstGhostOn(gs, c) == r
  {
  }

  /** The ghost Pacman meets on cell c: none while Pacman is invincible,
      otherwise the first one there. */
  function Met(s: Snapshot, c: Cell): Option<nat>
  {
    if s.pacman.invincible then None else FirstGhostOn(s.ghosts, c)
  }

  /** Ghost contact on cell c.  A vulnerable ghost met is eaten: 200 points
      and it alone goes home, heading newDirections(i).  Any other ghost met
      costs a life: with none left the game is over; otherwise Pacman
      respawns invincible and normal, power mode ends and every ghost goes
      home. */
  function Contact(m: Maze, s: Snapshot, c: Cell, newDirections: nat -> Dir): Snapshot
    requires Valid(m)
  {
    match Met(s, c)
    case None => s
    case Some(i) =>
      if s.ghosts[i].state == Vulnerable then
        s.(score := s.score + GhostPoints, ghosts := s.ghosts[i := Home(m, s.ghosts[i], newDirections(i))])
      else if s.lives - 1 <= 0 then
        s.(lives := s.lives - 1, phase := GameOver)
      else
        s.(lives := s.lives - 1, pacman := Spawned(m, true), pacmanState := Normal,
           powerModeActive := false, powerModeTimer := 0, ghosts := HomeAll(m, s.ghosts, newDirections))
  }

  /** Contact once ghost i has been met, spelt out case by case. */
  lemma ContactCases(m: Maze, s: Snapshot, c: Cell, newDirections: nat -> Dir, i: nat)
    requires Valid(m) && Met(s, c) == Some(i)
    ensures s.ghosts[i].state == Vulnerable ==>
      Contact(m, s, c, newDirections) ==
      s.(score := s.score + GhostPoints, ghosts := s.ghosts[i := Home(m, s.ghosts[i], newDirections(i))])
    ensures s.ghosts[i].state != Vulnerable && s.lives - 1 <= 0 ==>
      Contact(m, s, c, newDirections) == s.(lives := s.lives - 1, phase := GameOver)
    ensures s.ghosts[i].state != Vulnerable && s.lives - 1 > 0 ==>
      Contact(m, s, c, newDirections) ==
      s.(lives := s.lives - 1, pacman := Spawned(m, true), pacmanState := Normal,
         powerModeActive := false, powerModeTimer := 0, ghosts := HomeAll(m, s.ghosts, newDirections))
  {
  }

  /** One tick of power mode; Pacman is normal again when it runs out. */
  function PowerTick(s: Snapshot): Snapshot
  {
    var next := Countdown(s.powerModeActive, s.powerModeTimer);
    s.(powerModeActive := next.0, powerModeTimer := next.1,
       pacmanState := if s.powerModeActive && !next.0 then Normal else s.pacmanState)
  }

  /** Every dot and power pellet is worth some points, as the game's are. */
  predicate Worthwhile(s: Snapshot)
  {
    (forall i :: 0 <= i < |s.dots| ==> s.dots[i].points > 0) &&
    (forall i :: 0 <= i < |s.powerPellets| ==> s.powerPellets[i].points > 0)
  }

  /** Every dot has been collected; power pellets do not matter. */
  predicate AllDotsCollected(s: Snapshot)
  {
    forall i :: 0 <= i < |s.dots| ==> s.dots[i].collected
  }

  /** The rest of a Playing tick once Pacman stands on cell c: collectibles,
      then ghost contact, then power mode, and last the victory check, which
      wins even over a game over earned in the same tick. */
  function Finish(m: Maze, s: Snapshot, c: Cell, newDirections: nat -> Dir): Snapshot
    requires Valid(m)
  {
    var e := PowerTick(Contact(m, EatAt(s, c), c, newDirections));
    if AllDotsCollected(e) then e.(phase := Victory) else e
  }

  /** The movement half of a Playing tick, from s to t: Pacman moves and its
      invincibility counts down, then every ghost takes its frame toward the
      cell Pacman now stands on; nothing else changes. */
  ghost predicate EntitiesMoved(m: Maze, s: Snapshot, t: Snapshot)
    requires Valid(m)
  {
    t == s.(pacman := t.pacman, ghosts := t.ghosts) &&
    PacmanMoved(m, s.pacman, t.pacman) &&
    (t.pacman.invincible, t.pacman.invincibilityTimer) ==
      Countdown(s.pacman.invincible, s.pacman.invincibilityTimer) &&
    |t.ghosts| == |s.ghosts| &&
    forall i :: 0 <= i < |s.ghosts| ==> GhostStepped(m, s.ghosts[i], t.ghosts[i], Some(t.pacman.cell))
  }

  /** A whole Playing tick from s to e: the entities move to t, and the rest
      of the tick happens on the cell Pacman reached. */
  ghost predicate PlayingTick(m: Maze, s: Snapshot, t: Snapshot, e: Snapshot, newDirections: nat -> Dir)
    requires Valid(m)
  {
    EntitiesMoved(m, s, t) && e == Finish(m, t, t.pacman.cell, newDirections)
  }

  /** What the rest of a tick does to score, lives and phase.  The score
      never drops.  A life is lost exactly when Pacman, not invincible after
      its move, meets a ghost that is not vulnerable once the collectibles
      are eaten, and never more than one.  Eating the last dot wins;
      otherwise the game is over exactly when that lost life was the last. */
  lemma TickOutcome(m: Maze, s: Snapshot, c: Cell, newDirections: nat -> Dir)
    requires Valid(m) && Worthwhile(s)
    ensures var e := Finish(m, s, c, newDirections);
            var t := EatAt(s, c);
            var caught := Met(t, c).Some? && t.ghosts[Met(t, c).value].state != Vulnerable;
      e.score >= s.score &&
      (caught ==> e.lives == s.lives - 1) && (!caught ==> e.lives == s.lives) &&
      e.phase == (if AllDotsCollected(e) then Victory else if caught && s.lives <= 1 then GameOver else s.phase)
  {
    PointsAtSign(s.dots, c.0, c.1);
    PointsAtSign(s.powerPellets, c.0, c.1);
    var t := EatAt(s, c);
    assert t.score >= s.score && t.lives == s.lives && t.phase == s.phase;
    var k := Contact(m, t, c, newDirections);
    assert PowerTick(k).score == k.score && PowerTick(k).lives == k.lives && PowerTick(k).phase == k.phase;
  }

  /** A power pellet frightens every ghost before contact is checked, so a
      tick in which Pacman eats one never costs a life. */
  lemma PelletTickIsSafe(m: Maze, s: Snapshot, c: Cell, newDirections: nat -> Dir)
    requires Valid(m) && Worthwhile(s) && CountAt(s.powerPellets, c.0, c.1) > 0
    ensures Finish(m, s, c, newDirections).lives == s.lives
    ensures Finish(m, s, c, newDirections).score >= s.score + GhostPoints * (if Met(EatAt(s, c), c).Some? then 1 else 0)
  {
    var t := EatAt(s, c);
    PointsAtSign(s.dots, c.0, c.1);
    PointsAtSign(s.powerPellets, c.0, c.1);
    if Met(t, c).Some? {
      var i := Met(t, c).value;
      FrightenIdempotent(s.ghosts[i]);
      assert t.ghosts[i].state == Vulnerable;
    }
  }

  /** The phase bookkeeping: the phase last left, if any, and the ticks
      spent in each phase since it was last entered. */
  datatype PhaseLog = PhaseLog(previousPhase: Option<Phase>, stateTimers: map<Phase, nat>)

  /** Entering phase to from phase from: the phase left is recorded and the
      new phase's timer starts again; staying in the same phase records
      nothing. */
  function EnterPhase(log: PhaseLog, from: Phase, to: Phase): PhaseLog
  {
    if to == from then log else PhaseLog(Some(from), log.stateTimers[to := 0])
  }

  /** The bookkeeping of a Playing tick that moved the round to t and ended
      in e: ghost contact may enter GameOver, then the victory check may
      enter Victory. */
  function TickLog(m: Maze, log: PhaseLog, t: Snapshot, e: Snapshot, newDirections: nat -> Dir): PhaseLog
    requires Valid(m)
  {
    var reached := Contact(m, EatAt(t, t.pacman.cell), t.pacman.cell, newDirections).phase;
    EnterPhase(EnterPhase(log, Playing, reached), reached, e.phase)
  }

  /** What a Playing tick does to the bookkeeping.  A tick that goes on
      changes nothing; a lost game records Playing and restarts the GameOver
      timer; a won game restarts the Victory timer and records the phase it
      came from, GameOver when the last life went in the same tick.  The
      Playing timer is never reset. */
  lemma TickLogFacts(m: Maze, log: PhaseLog, s: Snapshot, t: Snapshot, e: Snapshot, newDirections: nat -> Dir)
    requires Valid(m) && s.phase == Playing && PlayingTick(m, s, t, e, newDirections)
    ensures var r := TickLog(m, log, t, e, newDirections);
      (e.phase == Playing ==> r == log) &&
      (e.phase == GameOver ==> r == PhaseLog(Some(Playing), log.stateTimers[GameOver := 0])) &&
      (e.phase == Victory ==>
        var caught := Contact(m, EatAt(t, t.pacman.cell), t.pacman.cell, newDirections).phase == GameOver;
        r.previousPhase == Some(if caught then GameOver else Playing) &&
        r.stateTimers == (if caught then log.stateTimers[GameOver := 0] else log.stateTimers)[Victory := 0]) &&
      e.phase != Paused &&
      (Playing in log.stateTimers ==> Playing in r.stateTimers && r.stateTimers[Playing] == log.stateTimers[Playing])
  {
    var c := t.pacman.cell;
    var k := Contact(m, EatAt(t, c), c, newDirections);
    assert EatAt(t, c).phase == Playing;
    assert k.phase == Playing || k.phase == GameOver;
    assert PowerTick(k).phase == k.phase;
  }

  /** Pacman, the collectibles and a team of GhostCount ghosts on the
      default maze, each in its starting state. */
  method NewEntities(initialDirections: nat -> Dir) returns (p: Pacman, l: CollectibleManager, g: GhostManager)
    ensures MazeGrid.Valid(p.maze)
    ensures l.maze == p.maze && g.maze == p.maze
    ensures p.Valid() && l.Valid() && g.Valid()
    ensures p.AtSpawn() && p.state == Normal && !p.invincible
    ensures NoneCollected(l.dots) && NoneCollected(l.powerPellets) && l.collectedDots == 0
    ensures |g.ghosts| == GhostCount &&
      forall j :: 0 <= j < GhostCount ==> g.ghosts[j].ghostId == j && g.ghosts[j].AtSpawn(initialDirections(j))
  {
    DefaultMazeSpawnsInside();
    var m := DefaultMaze();
    p := new Pacman(m);
    l := new CollectibleManager(m);
    g := new GhostManager(m, GhostCount, initialDirections);
  }

  class Round {
    const maze: Maze
    const pacman: Pacman
    const collectibleManager: CollectibleManager
    const ghostManager: GhostManager
    var score: int
    var lives: int
    var phase: Phase
    var previousPhase: Option<Phase>
    /** Ticks spent in each phase since it was last entered. */
    var stateTimers: map<Phase, nat>
    /** Ticks of power mode left. */
    var powerModeTimer: nat
    var powerModeActive: bool

    /** The entities are valid and share the maze; the score is never
        negative; lives never exceed the initial count, never go negative,
        and are positive whenever the game can go on; power mode is on
        exactly while its countdown runs and exactly while Pacman is powered. */
    ghost predicate Valid()
      reads this, pacman, collectibleManager, ghostManager, ghostManager.ghosts
    {
      pacman.maze == maze && collectibleManager.maze == maze && ghostManager.maze == maze &&
      pacman.Valid() && collectibleManager.Valid() && ghostManager.Valid() &&
      score >= 0 &&
      0 <= lives <= InitialLives &&
      (phase == Playing || phase == Paused ==> lives > 0) &&
      (powerModeActive <==> powerModeTimer > 0) &&
      powerModeTimer <= PowerPelletDuration &&
      (powerModeActive <==> pacman.state == Powered) &&
      stateTimers.Keys == {Playing, GameOver, Victory, Paused}
    }

    /** Pacman, the collectibles and every ghost are as they were before. */
    twostate predicate EntitiesUnchanged()
      reads pacman, collectibleManager, ghostManager.ghosts
    {
      unchanged(pacman) && unchanged(collectibleManager) &&
      forall j :: 0 <= j < |ghostManager.ghosts| ==> unchanged(ghostManager.ghosts[j])
    }

    /** Nothing at all has changed: neither the round nor any entity. */
    twostate predicate NothingChanged()
      reads this, pacman, collectibleManager, ghostManager.ghosts
    {
      unchanged(this) && EntitiesUnchanged()
    }

    /** The phase switched to p as ChangeState does it, and nothing else
        changed: score, lives, power mode and the entities are as before. */
    twostate predicate SwitchedTo(p: Phase)
      reads this, pacman, collectibleManager, ghostManager.ghosts
    {
      phase == p && previousPhase == Some(old(phase)) && stateTimers == old(stateTimers)[p := 0] &&
      score == old(score) && lives == old(lives) &&
      powerModeActive == old(powerModeActive) && powerModeTimer == old(powerModeTimer) &&
      EntitiesUnchanged()
    }

    /** The state right after a restart: Playing with no score, full lives
        and no power mode; Pacman home, normal and vulnerable; every item
        uncollected; ghost j home in Scatter heading newDirections(j). */
    ghost predicate Restarted(newDirections: nat -> Dir)
      reads this, pacman, collectibleManager, ghostManager.ghosts
    {
      phase == Playing && score == 0 && lives == InitialLives &&
      !powerModeActive && powerModeTimer == 0 &&
      MazeGrid.Valid(pacman.maze) && pacman.AtSpawn() && pacman.state == Normal && !pacman.invincible &&
      NoneCollected(collectibleManager.dots) && NoneCollected(collectibleManager.powerPellets) && collectibleManager.collectedDots == 0 &&
      forall j :: 0 <= j < |ghostManager.ghosts| ==> ghostManager.ghosts[j].AtSpawn(newDirections(j))
    }

    /** The phase bookkeeping as a value. */
    ghost function Log(): PhaseLog
      reads this
    {
      PhaseLog(previousPhase, stateTimers)
    }

    /** The round as a value. */
    ghost function Snap(): Snapshot
      reads this, pacman, collectibleManager, ghostManager.ghosts
    {
      Snapshot(score, lives, phase, powerModeActive, powerModeTimer, pacman.state, pacman.View(),
        collectibleManager.dots, collectibleManager.powerPellets, ghostManager.Views())
    }

    /** A dot is worth 10 points and a power pellet 50, so the tick
        theorems TickOutcome and PelletTickIsSafe apply to every valid round,
        and EntitiesMoved keeps the items, so also to the round after a move. */
    lemma ValidIsWorthwhile()
      requires Valid()
      ensures Worthwhile(Snap())
    {
    }

    /** A fresh game on the default maze: Playing, no score, three lives. */
    constructor(initialDirections: nat -> Dir)
      ensures Valid()
      ensures Restarted(initialDirections)
      ensures previousPhase.None? && stateTimers == map[Playing := 0, GameOver := 0, Victory := 0, Paused := 0]
      ensures |ghostManager.ghosts| == GhostCount &&
        forall j :: 0 <= j < GhostCount ==> ghostManager.ghosts[j].ghostId == j
    {
      var p, l, g := NewEntities(initialDirections);
      maze, pacman, collectibleManager, ghostManager := p.maze, p, l, g;
      score := 0;
      lives := InitialLives;
      phase := Playing;
      previousPhase := None;
      stateTimers := map[Playing := 0, GameOver := 0, Victory := 0, Paused := 0];
      powerModeTimer := 0;
      powerModeActive := false;
    }

    /** Entering a different phase records the one left and restarts the new
        phase's timer; asking for the current phase changes nothing. */
    method ChangeState(newPhase: Phase)
      modifies this
      ensures newPhase == old(phase) ==> unchanged(this)
      ensures phase == newPhase
      ensures Snap() == old(Snap()).(phase := newPhase)
      ensures old(Valid()) && (phase == Playing || phase == Paused ==> lives > 0) ==> Valid()
      ensures Log() == EnterPhase(old(Log()), old(phase), newPhase)
      ensures score == old(score) && lives == old(lives)
      ensures powerModeActive == old(powerModeActive) && powerModeTimer == old(powerModeTimer)
    {
      if newPhase != phase {
        previousPhase := Some(phase);
        phase := newPhase;
        stateTimers := stateTimers[newPhase := 0];
      }
    }

    /** Eats what lies on Pacman's cell.  The points go to the score; a power
        pellet starts power mode for its full duration, powers Pacman up and
        makes every ghost vulnerable. */
    method HandleCollectibleCollisions(position: Cell)
      requires Valid()
      modifies this, pacman, collectibleManager, ghostManager.ghosts
      ensures Valid()
      ensures Snap() == EatAt(old(Snap()), position)
      ensures stateTimers == old(stateTimers) && previousPhase == old(previousPhase)
    {
      var powerPelletCollected := ScoreCollectibles(position);
      if powerPelletCollected {
        StartPowerMode();
      }
    }

    /** The collectible manager collects what lies on Pacman's cell and the points go to
        the score; the result says whether a power pellet was among them. */
    method ScoreCollectibles(position: Cell) returns (powerPelletCollected: bool)
      requires Valid()
      modifies this, collectibleManager
      ensures Valid()
      ensures Snap() == old(Snap()).(
        score := old(score) + PointsAt(old(collectibleManager.dots), position.0, position.1)
                            + PointsAt(old(collectibleManager.powerPellets), position.0, position.1),
        dots := CollectAt(old(collectibleManager.dots), position.0, position.1),
        powerPellets := CollectAt(old(collectibleManager.powerPellets), position.0, position.1))
      ensures powerPelletCollected <==> CountAt(old(collectibleManager.powerPellets), position.0, position.1) > 0
      ensures stateTimers == old(stateTimers) && previousPhase == old(previousPhase)
    {
      var points;
      points, powerPelletCollected := CollectOn(position);
      ghost var collected := Snap();
      if points > 0 {
        score := score + points;
      }
      assert Snap() == collected.(score := score);
    }

    /** The collectible manager collects what lies on the cell; points is what they are
        worth and the result says whether a power pellet was among them. */
    method CollectOn(position: Cell) returns (points: int, powerPelletCollected: bool)
      requires Valid()
      modifies collectibleManager
      ensures Valid()
      ensures Snap() == old(Snap()).(
        dots := CollectAt(old(collectibleManager.dots), position.0, position.1),
        powerPellets := CollectAt(old(collectibleManager.powerPellets), position.0, position.1))
      ensures points == PointsAt(old(collectibleManager.dots), position.0, position.1)
                      + PointsAt(old(collectibleManager.powerPellets), position.0, position.1)
      ensures points >= 0
      ensures powerPelletCollected <==> CountAt(old(collectibleManager.powerPellets), position.0, position.1) > 0
    {
      points, powerPelletCollected := collectibleManager.CheckCollision(position.0, position.1);
    }

    /** A power pellet eaten: power mode runs for its full duration, Pacman
        is powered and every ghost is frightened. */
    method StartPowerMode()
      requires Valid()
      modifies this, pacman, ghostManager.ghosts
      ensures Valid()
      ensures powerModeActive && powerModeTimer == PowerPelletDuration && pacman.state == Powered
      ensures ghostManager.Views() == FrightenAll(old(ghostManager.Views()))
      ensures score == old(score) && lives == old(lives) && phase == old(phase)
      ensures stateTimers == old(stateTimers) && previousPhase == old(previousPhase)
      ensures pacman.View() == old(pacman.View())
    {
      powerModeActive := true;
      powerModeTimer := PowerPelletDuration;
      pacman.state := Powered;
      ghostManager.SetAllVulnerable();
    }

    /** Meets the first ghost on Pacman's cell, unless Pacman is invincible,
        with the outcome Contact describes: a vulnerable ghost is eaten, any
        other costs a life, and then either the game is over or Pacman and
        every ghost go home. */
    method HandleGhostCollisions(position: Cell, newDirections: nat -> Dir)
      requires Valid() && phase == Playing
      modifies this, pacman, ghostManager.ghosts
      ensures Valid()
      ensures Snap() == Contact(maze, old(Snap()), position, newDirections)
      ensures Log() == EnterPhase(old(Log()), Playing, phase)
    {
      if pacman.invincible {
        return;
      }
      var first := ghostManager.CheckCollisionWithPacman(position);
      FirstGhostOnIs(Snap().ghosts, position, first);
      if first.Some? {
        MeetGhost(position, first.value, newDirections);
      }
    }

    /** Pacman meets ghost i, the first one on its cell: a vulnerable ghost
        is eaten, any other costs a life. */
    method MeetGhost(position: Cell, i: nat, newDirections: nat -> Dir)
      requires Valid() && phase == Playing && Met(Snap(), position) == Some(i)
      modifies this, pacman, ghostManager.ghosts
      ensures Valid()
      ensures Snap() == Contact(maze, old(Snap()), position, newDirections)
      ensures Log() == EnterPhase(old(Log()), Playing, phase)
    {
      ghost var before := Snap();
      ContactCases(maze, before, position, newDirections, i);
      if ghostManager.ghosts[i].IsVulnerable() {
        assert before.ghosts[i].state == Vulnerable;
        EatGhost(i, newDirections(i));
      } else {
        assert before.ghosts[i].state != Vulnerable;
        LoseLife(newDirections);
      }
    }

    /** Pacman caught: one life fewer, and then either the game is over or
        Pacman and every ghost go home. */
    method LoseLife(newDirections: nat -> Dir)
      requires Valid() && phase == Playing
      modifies this, pacman, ghostManager.ghosts
      ensures Valid()
      ensures old(lives) - 1 <= 0 ==> Snap() == old(Snap()).(lives := old(lives) - 1, phase := GameOver)
      ensures old(lives) - 1 > 0 ==>
        Snap() == old(Snap()).(lives := old(lives) - 1, pacman := Spawned(maze, true), pacmanState := Normal,
          powerModeActive := false, powerModeTimer := 0, ghosts := HomeAll(maze, old(Snap()).ghosts, newDirections))
      ensures Log() == EnterPhase(old(Log()), Playing, phase)
    {
      ghost var before := Snap();
      lives := lives - 1;
      assert Snap() == before.(lives := before.lives - 1);
      if lives <= 0 {
        ChangeState(GameOver);
      } else {
        RespawnAfterDeath(newDirections);
      }
    }

    /** A vulnerable ghost eaten: its points go to the score and it alone
        goes home. */
    method EatGhost(i: nat, d: Dir)
      requires Valid() && i < |ghostManager.ghosts|
      modifies this, ghostManager.ghosts[i]
      ensures Valid()
      ensures Snap() == old(Snap()).(score := old(score) + GhostPoints,
        ghosts := old(Snap()).ghosts[i := Home(maze, old(Snap()).ghosts[i], d)])
      ensures stateTimers == old(stateTimers) && previousPhase == old(previousPhase)
    {
      score := score + GhostPoints;
      ghostManager.ResetGhost(i, d);
    }

    /** A life lost with lives to spare: Pacman respawns invincible and
        normal, power mode ends and every ghost goes home. */
    method RespawnAfterDeath(newDirections: nat -> Dir)
      requires Valid()
      modifies this, pacman, ghostManager.ghosts
      ensures Valid()
      ensures Snap() == old(Snap()).(pacman := Spawned(maze, true), pacmanState := Normal,
        powerModeActive := false, powerModeTimer := 0,
        ghosts := HomeAll(maze, old(Snap()).ghosts, newDirections))
      ensures stateTimers == old(stateTimers) && previousPhase == old(previousPhase)
    {
      RespawnPacman();
      SendGhostsHome(newDirections);
    }

    /** Pacman respawns invincible and normal, and power mode ends. */
    method RespawnPacman()
      requires Valid()
      modifies this, pacman
      ensures Valid()
      ensures Snap() == old(Snap()).(pacman := Spawned(maze, true), pacmanState := Normal,
        powerModeActive := false, powerModeTimer := 0)
      ensures stateTimers == old(stateTimers) && previousPhase == old(previousPhase)
    {
      pacman.Respawn();
      powerModeActive := false;
      powerModeTimer := 0;
      pacman.state := Normal;
    }

    /** Every ghost goes home, ghost i heading newDirections(i). */
    method SendGhostsHome(newDirections: nat -> Dir)
      requires Valid()
      modifies ghostManager.ghosts
      ensures Valid()
      ensures Snap() == old(Snap()).(ghosts := HomeAll(maze, old(Snap()).ghosts, newDirections))
    {
      ghostManager.ResetAllGhosts(newDirections);
    }

    /** One tick of power mode; when it runs out Pacman is normal again (the
        ghosts keep their own timers). */
    method UpdatePowerMode()
      requires Valid()
      modifies this, pacman
      ensures Valid()
      ensures Snap() == PowerTick(old(Snap()))
      ensures stateTimers == old(stateTimers) && previousPhase == old(previousPhase)
    {
      if powerModeActive {
        var remaining := powerModeTimer - 1;
        powerModeTimer := if remaining <= 0 then 0 else remaining;
        if remaining <= 0 {
          powerModeActive := false;
          pacman.state := Normal;
        }
      }
    }

    /** A Playing tick: Pacman moves, the ghosts move toward Pacman's new
        cell, then collectibles, then ghost contact, then power mode, and
        last the victory check.  moved is the round right after the move. */
    method UpdatePlayingState(picks: nat -> nat, newDirections: nat -> Dir) returns (ghost moved: Snapshot)
      requires Valid() && phase == Playing
      modifies this, pacman, collectibleManager, ghostManager.ghosts
      ensures Valid()
      ensures PlayingTick(maze, old(Snap()), moved, Snap(), newDirections)
      ensures Log() == TickLog(maze, old(Log()), moved, Snap(), newDirections)
    {
      var cell := MoveEntities(picks);
      moved := Snap();
      FinishTick(cell, newDirections);
    }

    /** The rest of a Playing tick on Pacman's new cell: collectibles, ghost
        contact, power mode, and last the victory check. */
    method FinishTick(position: Cell, newDirections: nat -> Dir)
      requires Valid() && phase == Playing
      modifies this, pacman, collectibleManager, ghostManager.ghosts
      ensures Valid()
      ensures Snap() == Finish(maze, old(Snap()), position, newDirections)
      ensures var reached := Contact(maze, EatAt(old(Snap()), position), position, newDirections).phase;
        Log() == EnterPhase(EnterPhase(old(Log()), Playing, reached), reached, phase)
    {
      ResolveCell(position, newDirections);
      if collectibleManager.AreAllDotsCollected() {
        ChangeState(Victory);
      }
    }

    /** Collectibles, ghost contact and power mode on Pacman's cell: the
        part of a Playing tick between the move and the victory check. */
    method ResolveCell(position: Cell, newDirections: nat -> Dir)
      requires Valid() && phase == Playing
      modifies this, pacman, collectibleManager, ghostManager.ghosts
      ensures Valid()
      ensures Snap() == PowerTick(Contact(maze, EatAt(old(Snap()), position), position, newDirections))
      ensures Log() == EnterPhase(old(Log()), Playing, phase)
    {
      HandleCollisions(position, newDirections);
      UpdatePowerMode();
    }

    /** Pacman takes its step, then every ghost takes its own toward the
        cell Pacman now stands on, which is returned. */
    method MoveEntities(picks: nat -> nat) returns (position: Cell)
      requires Valid()
      modifies pacman, ghostManager.ghosts
      ensures Valid()
      ensures position == Snap().pacman.cell
      ensures EntitiesMoved(maze, old(Snap()), Snap())
    {
      position := MovePacman();
      MoveGhosts(position, picks);
    }

    /** Pacman takes its step and its invincibility counts down; the cell it
        then stands on is returned. */
    method MovePacman() returns (position: Cell)
      requires Valid()
      modifies pacman
      ensures Valid()
      ensures position == Snap().pacman.cell
      ensures Snap() == old(Snap()).(pacman := Snap().pacman)
      ensures PacmanMoved(maze, old(Snap()).pacman, Snap().pacman)
      ensures (Snap().pacman.invincible, Snap().pacman.invincibilityTimer) ==
        Countdown(old(Snap()).pacman.invincible, old(Snap()).pacman.invincibilityTimer)
    {
      pacman.Update();
      position := (pacman.gridX, pacman.gridY);
    }

    /** Every ghost takes its frame toward the given cell. */
    method MoveGhosts(position: Cell, picks: nat -> nat)
      requires Valid()
      modifies ghostManager.ghosts
      ensures Valid()
      ensures Snap() == old(Snap()).(ghosts := Snap().ghosts)
      ensures |Snap().ghosts| == |old(Snap()).ghosts|
      ensures forall i :: 0 <= i < |old(Snap()).ghosts| ==>
        GhostStepped(maze, old(Snap()).ghosts[i], Snap().ghosts[i], Some(position))
    {
      ghostManager.Update(Some(position), picks);
    }

    /** Collectibles first, then ghost contact, on Pacman's cell. */
    method HandleCollisions(position: Cell, newDirections: nat -> Dir)
      requires Valid() && phase == Playing
      modifies this, pacman, collectibleManager, ghostManager.ghosts
      ensures Valid()
      ensures Snap() == Contact(maze, EatAt(old(Snap()), position), position, newDirections)
      ensures Log() == EnterPhase(old(Log()), Playing, phase)
    {
      HandleCollectibleCollisions(position);
      HandleGhostCollisions(position, newDirections);
    }

    /** One frame: the current phase's timer counts, and only a Playing
        frame changes anything else; moved is the round right after a
        Playing frame's move. */
    method Update(picks: nat -> nat, newDirections: nat -> Dir) returns (ghost moved: Snapshot)
      requires Valid()
      modifies this, pacman, collectibleManager, ghostManager.ghosts
      ensures Valid()
      ensures old(phase) != Playing ==>
        Snap() == old(Snap()) && previousPhase == old(previousPhase) &&
        stateTimers == old(stateTimers)[old(phase) := old(stateTimers)[old(phase)] + 1]
      ensures old(phase) == Playing ==>
        PlayingTick(maze, old(Snap()), moved, Snap(), newDirections) &&
        Log() == TickLog(maze, old(Log()).(stateTimers := old(stateTimers)[Playing := old(stateTimers)[Playing] + 1]),
                         moved, Snap(), newDirections)
    {
      if phase == Playing {
        moved := PlayingFrame(picks, newDirections);
      } else {
        moved := Snap();
        UpdateStateTimer();
      }
    }

    /** A frame while Playing: the Playing timer counts one tick, then the
        Playing update runs. */
    method PlayingFrame(picks: nat -> nat, newDirections: nat -> Dir) returns (ghost moved: Snapshot)
      requires Valid() && phase == Playing
      modifies this, pacman, collectibleManager, ghostManager.ghosts
      ensures Valid()
      ensures PlayingTick(maze, old(Snap()), moved, Snap(), newDirections)
      ensures Log() == TickLog(maze, old(Log()).(stateTimers := old(stateTimers)[Playing := old(stateTimers)[Playing] + 1]),
                               moved, Snap(), newDirections)
    {
      UpdateStateTimer();
      ghost var ticked := Log();
      assert ticked == old(Log()).(stateTimers := old(stateTimers)[Playing := old(stateTimers)[Playing] + 1]);
      moved := UpdatePlayingState(picks, newDirections);
    }

    /** The current phase's timer counts one tick; nothing else changes. */
    method UpdateStateTimer()
      requires Valid()
      modifies this
      ensures Valid()
      ensures stateTimers == old(stateTimers)[phase := old(stateTimers)[phase] + 1]
      ensures Snap() == old(Snap()) && previousPhase == old(previousPhase)
    {
      stateTimers := stateTimers[phase := stateTimers[phase] + 1];
    }

    /** Back to the start: Playing, no score, full lives, no power mode, all
        collectibles back, Pacman and the ghosts home. */
    method RestartGame(newDirections: nat -> Dir)
      requires Valid()
      modifies this, pacman, collectibleManager, ghostManager.ghosts
      ensures Valid()
      ensures Restarted(newDirections)
      ensures Log() == EnterPhase(old(Log()), old(phase), Playing)
      ensures |collectibleManager.dots| == |old(collectibleManager.dots)| && |collectibleManager.powerPellets| == |old(collectibleManager.powerPellets)|
    {
      ChangeState(Playing);
      ResetCounters();
      ResetEntities(newDirections);
    }

    /** No score, full lives, power mode off; the phase and its timers stay. */
    method ResetCounters()
      modifies this
      ensures score == 0 && lives == InitialLives && powerModeTimer == 0 && !powerModeActive
      ensures phase == old(phase) && previousPhase == old(previousPhase) && stateTimers == old(stateTimers)
    {
      score := 0;
      lives := InitialLives;
      powerModeTimer := 0;
      powerModeActive := false;
    }

    /** Pacman home, normal and vulnerable again; every collectible back;
        every ghost home. */
    method ResetEntities(newDirections: nat -> Dir)
      requires pacman.maze == maze && collectibleManager.maze == maze && ghostManager.maze == maze
      requires pacman.Valid() && collectibleManager.Valid() && ghostManager.Valid()
      modifies pacman, collectibleManager, ghostManager.ghosts
      ensures pacman.Valid() && collectibleManager.Valid() && ghostManager.Valid()
      ensures pacman.AtSpawn() && pacman.state == Normal && !pacman.invincible
      ensures NoneCollected(collectibleManager.dots) && NoneCollected(collectibleManager.powerPellets) && collectibleManager.collectedDots == 0
      ensures |collectibleManager.dots| == |old(collectibleManager.dots)| && |collectibleManager.powerPellets| == |old(collectibleManager.powerPellets)|
      ensures forall j :: 0 <= j < |ghostManager.ghosts| ==> ghostManager.ghosts[j].AtSpawn(newDirections(j))
    {
      ResetPacman();
      collectibleManager.Reset();
      ghostManager.ResetAllGhosts(newDirections);
    }

    /** Pacman home, normal and vulnerable again. */
    method ResetPacman()
      requires pacman.Valid()
      modifies pacman
      ensures pacman.Valid() && pacman.AtSpawn() && pacman.state == Normal && !pacman.invincible
    {
      pacman.ResetPosition();
      pacman.state := Normal;
      pacman.invincible := false;
      pacman.invincibilityTimer := 0;
    }

    /** Keys while Playing: arrows queue Pacman's direction, Escape pauses,
        M toggles the sound (not modelled); nothing else reacts. */
    method HandlePlayingInput(key: Key)
      requires Valid() && phase == Playing
      modifies this, pacman
      ensures Valid()
      ensures key == EscapeKey ==> SwitchedTo(Paused)
      ensures key != EscapeKey ==> unchanged(this)
      ensures Arrow(key).Some? ==> pacman.nextDirection == Arrow(key) && pacman.QueueOnly()
      ensures Arrow(key).None? ==> unchanged(pacman)
    {
      if key == UpKey {
        pacman.Move(UpVector);
      } else if key == DownKey {
        pacman.Move(DownVector);
      } else if key == LeftKey {
        pacman.Move(LeftVector);
      } else if key == RightKey {
        pacman.Move(RightVector);
      } else if key == EscapeKey {
        ChangeState(Paused);
      }
    }

    /** Keys after the game has ended: R restarts, Escape quits. */
    method HandleEndGameInput(key: Key, newDirections: nat -> Dir) returns (quit: bool)
      requires Valid() && (phase == GameOver || phase == Victory)
      modifies this, pacman, collectibleManager, ghostManager.ghosts
      ensures Valid()
      ensures quit <==> key == EscapeKey
      ensures key == RKey ==> Restarted(newDirections) && Log() == EnterPhase(old(Log()), old(phase), Playing)
      ensures key != RKey ==> NothingChanged()
    {
      quit := false;
      if key == RKey {
        RestartGame(newDirections);
      } else if key == EscapeKey {
        quit := true;
      }
    }

    /** Keys while Paused: Escape resumes, R restarts. */
    method HandlePausedInput(key: Key, newDirections: nat -> Dir)
      requires Valid() && phase == Paused
      modifies this, pacman, collectibleManager, ghostManager.ghosts
      ensures Valid()
      ensures key == EscapeKey ==> SwitchedTo(Playing)
      ensures key == RKey ==> Restarted(newDirections) && Log() == EnterPhase(old(Log()), old(phase), Playing)
      ensures key != EscapeKey && key != RKey ==> NothingChanged()
    {
      if key == EscapeKey {
        ChangeState(Playing);
      } else if key == RKey {
        RestartGame(newDirections);
      }
    }

    /** A key press goes to the handler of the phase current at the press.
        The result says whether the program quits. */
    method OnKeyDown(key: Key, newDirections: nat -> Dir) returns (quit: bool)
      requires Valid()
      modifies this, pacman, collectibleManager, ghostManager.ghosts
      ensures Valid()
      ensures quit <==> old(phase) in {GameOver, Victory} && key == EscapeKey
      ensures old(phase) == Playing && key == EscapeKey ==> SwitchedTo(Paused)
      ensures old(phase) == Playing && Arrow(key).Some? ==>
        unchanged(this) && pacman.nextDirection == Arrow(key) && pacman.QueueOnly() &&
        unchanged(collectibleManager) && forall j :: 0 <= j < |ghostManager.ghosts| ==> unchanged(ghostManager.ghosts[j])
      ensures old(phase) == Playing && key != EscapeKey && Arrow(key).None? ==> NothingChanged()
      ensures old(phase) == Paused && key == EscapeKey ==> SwitchedTo(Playing)
      ensures old(phase) != Playing && key == RKey ==>
        Restarted(newDirections) && Log() == EnterPhase(old(Log()), old(phase), Playing)
      ensures old(phase) != Playing && key != RKey && !(old(phase) == Paused && key == EscapeKey) ==> NothingChanged()
    {
      quit := false;
      if phase == Playing {
        HandlePlayingInput(key);
      } else if phase == GameOver || phase == Victory {
        quit := HandleEndGameInput(key, newDirections);
      } else if phase == Paused {
        HandlePausedInput(key, newDirections);
      }
    }
  }

  /** Power mode lasts exactly ten seconds when nothing cuts it short. */
  lemma PowerModeWindow()
    ensures CountdownAfter(true, PowerPelletDuration, PowerPelletDuration - 1) == (true, 1)
    ensures CountdownAfter(true, PowerPelletDuration, PowerPelletDuration) == (false, 0)
  {
    CountdownLasts(PowerPelletDuration, PowerPelletDuration - 1);
    CountdownLasts(PowerPelletDuration, PowerPelletDuration);
  }
}
