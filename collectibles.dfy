/**
 * The collectible manager: one record per dot and per power pellet of the
 * maze, each with a collected flag, and the count of dots collected so far.
 */
module Collectibles {
  import opened Constants
  import opened MazeGrid

  datatype Kind = DotKind | PowerPelletKind

  /** A dot or power pellet on a cell, worth points, and whether it has been eaten. */
  datatype Collectible = Collectible(gridX: int, gridY: int, points: int, kind: Kind, collected: bool)

  function NewDot(c: Cell): Collectible
  {
    Collectible(c.0, c.1, DotPoints, DotKind, false)
  }

  function NewPowerPellet(c: Cell): Collectible
  {
    Collectible(c.0, c.1, PowerPelletPoints, PowerPelletKind, false)
  }

  /** The pixel corner the item is drawn from; it lies in the item's own tile. */
  function WorldPosition(c: Collectible): (w: (int, int))
    ensures WorldToGrid(w.0, w.1) == (c.gridX, c.gridY)
  {
    CornerRoundTrip(c.gridX, c.gridY);
    GridToWorld(c.gridX, c.gridY)
  }

  /** Marks the item collected; it yields its points the first time only. */
  function Collect(c: Collectible): (r: (Collectible, int))
    ensures r.0.collected
    ensures r.0.(collected := c.collected) == c
    ensures r.1 == (if c.collected then 0 else c.points)
  {
    if !c.collected then (c.(collected := true), c.points) else (c, 0)
  }

  /** Collecting twice yields nothing the second time and changes nothing more. */
  lemma CollectTwice(c: Collectible)
    ensures Collect(Collect(c).0).1 == 0
    ensures Collect(Collect(c).0).0 == Collect(c).0
  {
  }

  predicate At(c: Collectible, x: int, y: int)
  {
    c.gridX == x && c.gridY == y
  }

  /** Still on the board at (x, y). */
  predicate Available(c: Collectible, x: int, y: int)
  {
    !c.collected && At(c, x, y)
  }

  /** The items of s, one per cell of cells in the same order, all of one kind and value. */
  predicate PlacedAt(s: seq<Collectible>, cells: seq<Cell>, kind: Kind, points: int)
  {
    |s| == |cells| &&
    forall i :: 0 <= i < |s| ==>
      s[i].gridX == cells[i].0 && s[i].gridY == cells[i].1 && s[i].kind == kind && s[i].points == points
  }

  /** A fresh item of the given kind on each of the cells, in their order. */
  function Place(cells: seq<Cell>, kind: Kind, points: int): (s: seq<Collectible>)
    ensures PlacedAt(s, cells, kind, points) && NoneCollected(s)
  {
    seq(|cells|, i requires 0 <= i < |cells| => Collectible(cells[i].0, cells[i].1, points, kind, false))
  }

  lemma PlaceAppend(cells: seq<Cell>, c: Cell, kind: Kind, points: int)
    ensures Place(cells + [c], kind, points) == Place(cells, kind, points) + [Collectible(c.0, c.1, points, kind, false)]
  {
  }

  predicate NoneCollected(s: seq<Collectible>)
  {
    forall i :: 0 <= i < |s| ==> !s[i].collected
  }

  /** Number of collected items. */
  function CountCollected(s: seq<Collectible>): nat
    decreases |s|
  {
    if s == [] then 0
    else CountCollected(s[..|s| - 1]) + (if s[|s| - 1].collected then 1 else 0)
  }

  /** Points of the items still available at (x, y). */
  function PointsAt(s: seq<Collectible>, x: int, y: int): int
    decreases |s|
  {
    if s == [] then 0
    else PointsAt(s[..|s| - 1], x, y) + (if Available(s[|s| - 1], x, y) then s[|s| - 1].points else 0)
  }

  /** Number of items still available at (x, y) that are worth any points. */
  function CountAt(s: seq<Collectible>, x: int, y: int): nat
    decreases |s|
  {
    if s == [] then 0
    else CountAt(s[..|s| - 1], x, y) + (if Available(s[|s| - 1], x, y) && s[|s| - 1].points > 0 then 1 else 0)
  }

  /** The items after every one available at (x, y) has been collected. */
  function CollectAt(s: seq<Collectible>, x: int, y: int): (r: seq<Collectible>)
    ensures |r| == |s|
    ensures forall i :: 0 <= i < |s| ==> r[i].(collected := s[i].collected) == s[i]
    ensures forall i :: 0 <= i < |s| ==> (r[i].collected <==> s[i].collected || At(s[i], x, y))
  {
    seq(|s|, i requires 0 <= i < |s| => if At(s[i], x, y) then s[i].(collected := true) else s[i])
  }

  lemma {:induction false} CountCollectedBounds(s: seq<Collectible>)
    ensures CountCollected(s) <= |s|
    ensures CountCollected(s) == |s| <==> forall i :: 0 <= i < |s| ==> s[i].collected
    ensures NoneCollected(s) ==> CountCollected(s) == 0
    decreases |s|
  {
    if s != [] {
      var p := s[..|s| - 1];
      CountCollectedBounds(p);
      assert forall i :: 0 <= i < |p| ==> p[i] == s[i];
    }
  }

  /** After a collision has collected everything at (x, y), a second one there
      finds nothing: no points, no item available, no change. */
  lemma {:induction false} SecondCollisionFindsNothing(s: seq<Collectible>, x: int, y: int)
    ensures PointsAt(CollectAt(s, x, y), x, y) == 0
    ensures CountAt(CollectAt(s, x, y), x, y) == 0
    ensures CollectAt(CollectAt(s, x, y), x, y) == CollectAt(s, x, y)
  {
    NothingAvailable(CollectAt(s, x, y), x, y);
  }

  lemma {:induction false} NothingAvailable(s: seq<Collectible>, x: int, y: int)
    requires forall i :: 0 <= i < |s| ==> !Available(s[i], x, y)
    ensures PointsAt(s, x, y) == 0 && CountAt(s, x, y) == 0
    decreases |s|
  {
    if s != [] {
      NothingAvailable(s[..|s| - 1], x, y);
    }
  }

  /** One pass over an item list: collects every item still available at
      (x, y), summing the points gained and counting the items that gave any. */
  method CollectEach(s: seq<Collectible>, x: int, y: int) returns (r: seq<Collectible>, points: int, gained: nat)
    ensures r == CollectAt(s, x, y)
    ensures points == PointsAt(s, x, y)
    ensures gained == CountAt(s, x, y)
  {
    r, points, gained := s, 0, 0;
    var i := 0;
    while i < |r|
      invariant 0 <= i <= |r| == |s|
      invariant forall j :: 0 <= j < i ==> r[j] == CollectAt(s, x, y)[j]
      invariant forall j :: i <= j < |r| ==> r[j] == s[j]
      invariant points == PointsAt(s[..i], x, y)
      invariant gained == CountAt(s[..i], x, y)
    {
      assert s[..i + 1][..i] == s[..i];
      var item := r[i];
      if !item.collected && item.gridX == x && item.gridY == y {
        var (collectedItem, p) := Collect(item);
        r := r[i := collectedItem];
        points := points + p;
        if p > 0 {
          gained := gained + 1;
        }
      }
      i := i + 1;
    }
    assert s[..i] == s;
  }

  /** When every item is worth something, the points found at (x, y) are
      positive exactly when some item there was still available. */
  lemma {:induction false} PointsAtSign(s: seq<Collectible>, x: int, y: int)
    requires forall i :: 0 <= i < |s| ==> s[i].points > 0
    ensures PointsAt(s, x, y) >= 0
    ensures PointsAt(s, x, y) > 0 <==> CountAt(s, x, y) > 0
    decreases |s|
  {
    if s != [] {
      PointsAtSign(s[..|s| - 1], x, y);
    }
  }

  /** Collecting at (x, y) raises the collected count by the number of items
      that were available there, when every item is worth something. */
  lemma {:induction false} CollectAtCount(s: seq<Collectible>, x: int, y: int)
    requires forall i :: 0 <= i < |s| ==> s[i].points > 0
    ensures CountCollected(CollectAt(s, x, y)) == CountCollected(s) + CountAt(s, x, y)
    decreases |s|
  {
    if s != [] {
      var p := s[..|s| - 1];
      assert CollectAt(s, x, y)[..|s| - 1] == CollectAt(p, x, y);
      CollectAtCount(p, x, y);
    }
  }

  /** The collectible manager.  Each item list is the maze's matching tiles in row-major
      order, and collectedDots is the number of collected dots. */
  class CollectibleManager {
    const maze: Maze
    var dots: seq<Collectible>
    var powerPellets: seq<Collectible>
    var totalDots: int
    var collectedDots: int

    ghost predicate Valid()
      reads this
    {
      MazeGrid.Valid(maze) &&
      PlacedAt(dots, CellsWith(maze, DotTile, maze.height), DotKind, DotPoints) &&
      PlacedAt(powerPellets, CellsWith(maze, PowerPelletTile, maze.height), PowerPelletKind, PowerPelletPoints) &&
      totalDots == |dots| &&
      collectedDots == CountCollected(dots)
    }

    constructor (maze: Maze)
      requires MazeGrid.Valid(maze)
      ensures Valid() && this.maze == maze
      ensures NoneCollected(dots) && NoneCollected(powerPellets) && collectedDots == 0
    {
      this.maze := maze;
      dots, powerPellets := [], [];
      totalDots, collectedDots := 0, 0;
      new;
      GenerateCollectibles();
    }

    /** One dot per dot tile and one power pellet per power-pellet tile, in
        row-major order, none collected. */
    method GenerateCollectibles()
      requires MazeGrid.Valid(maze)
      modifies this
      ensures Valid()
      ensures NoneCollected(dots) && NoneCollected(powerPellets)
      ensures totalDots == |CellsWith(maze, DotTile, maze.height)| && collectedDots == 0
    {
      dots, powerPellets := [], [];
      totalDots, collectedDots := 0, 0;
      var y := 0;
      while y < maze.height
        invariant 0 <= y <= maze.height
        invariant dots == Place(CellsWith(maze, DotTile, y), DotKind, DotPoints)
        invariant powerPellets == Place(CellsWith(maze, PowerPelletTile, y), PowerPelletKind, PowerPelletPoints)
        invariant totalDots == |dots| && collectedDots == 0
      {
        var x := 0;
        while x < maze.width
          invariant 0 <= x <= maze.width
          invariant dots == Place(CellsWith(maze, DotTile, y) + RowCellsWith(maze, DotTile, y, x), DotKind, DotPoints)
          invariant powerPellets ==
            Place(CellsWith(maze, PowerPelletTile, y) + RowCellsWith(maze, PowerPelletTile, y, x),
                  PowerPelletKind, PowerPelletPoints)
          invariant totalDots == |dots| && collectedDots == 0
        {
          var tile := TileAt(maze, x, y);
          if tile == DotTile {
            PlaceAppend(CellsWith(maze, DotTile, y) + RowCellsWith(maze, DotTile, y, x), (x, y), DotKind, DotPoints);
            dots := dots + [NewDot((x, y))];
            totalDots := totalDots + 1;
          } else if tile == PowerPelletTile {
            PlaceAppend(CellsWith(maze, PowerPelletTile, y) + RowCellsWith(maze, PowerPelletTile, y, x), (x, y),
                        PowerPelletKind, PowerPelletPoints);
            powerPellets := powerPellets + [NewPowerPellet((x, y))];
          }
          x := x + 1;
        }
        y := y + 1;
      }
      CountCollectedBounds(dots);
    }

    /** Collects everything still available on Pacman's cell: returns the
        points gained and whether a power pellet was among the items.  Dots
        are scanned first, then power pellets, as in the game. */
    method CheckCollision(x: int, y: int) returns (points: int, powerPelletCollected: bool)
      requires Valid()
      modifies this
      ensures Valid()
      ensures dots == CollectAt(old(dots), x, y) && powerPellets == CollectAt(old(powerPellets), x, y)
      ensures points == PointsAt(old(dots), x, y) + PointsAt(old(powerPellets), x, y)
      ensures collectedDots == old(collectedDots) + CountAt(old(dots), x, y)
      ensures powerPelletCollected <==> CountAt(old(powerPellets), x, y) > 0
      ensures totalDots == old(totalDots)
      ensures points >= 0
      ensures points > 0 <==> CountAt(old(dots), x, y) + CountAt(old(powerPellets), x, y) > 0
    {
      var dotPoints, newDots, pelletPoints, newPellets;
      CollectAtCount(dots, x, y);
      PointsAtSign(dots, x, y);
      PointsAtSign(powerPellets, x, y);
      dots, dotPoints, newDots := CollectEach(dots, x, y);
      collectedDots := collectedDots + newDots;
      powerPellets, pelletPoints, newPellets := CollectEach(powerPellets, x, y);
      points := dotPoints + pelletPoints;
      powerPelletCollected := newPellets > 0;
    }

    /** Dots still on the board: never negative and never more than the total. */
    function GetRemainingDots(): (r: int)
      requires Valid()
      reads this
      ensures 0 <= r <= totalDots
      ensures r == 0 <==> forall i :: 0 <= i < |dots| ==> dots[i].collected
    {
      CountCollectedBounds(dots);
      totalDots - collectedDots
    }

    /** The victory predicate: every dot has been collected (at once true when
        the maze has no dots); power pellets do not matter. */
    function AreAllDotsCollected(): (b: bool)
      requires Valid()
      reads this
      ensures b <==> forall i :: 0 <= i < |dots| ==> dots[i].collected
      ensures totalDots == 0 ==> b
    {
      CountCollectedBounds(dots);
      collectedDots >= totalDots
    }

    /** Puts every item back on the board, keeping the same items, cells and values. */
    method Reset()
      requires Valid()
      modifies this
      ensures Valid()
      ensures |dots| == |old(dots)| && |powerPellets| == |old(powerPellets)|
      ensures forall i :: 0 <= i < |dots| ==> dots[i] == old(dots[i]).(collected := false)
      ensures forall i :: 0 <= i < |powerPellets| ==> powerPellets[i] == old(powerPellets[i]).(collected := false)
      ensures collectedDots == 0 && totalDots == old(totalDots)
    {
      collectedDots := 0;
      var i := 0;
      while i < |dots|
        invariant 0 <= i <= |dots| == |old(dots)|
        invariant forall j :: 0 <= j < i ==> dots[j] == old(dots[j]).(collected := false)
        invariant forall j :: i <= j < |dots| ==> dots[j] == old(dots[j])
        invariant powerPellets == old(powerPellets) && totalDots == old(totalDots) && collectedDots == 0
      {
        dots := dots[i := dots[i].(collected := false)];
        i := i + 1;
      }
      var k := 0;
      while k < |powerPellets|
        invariant 0 <= k <= |powerPellets| == |old(powerPellets)|
        invariant forall j :: 0 <= j < k ==> powerPellets[j] == old(powerPellets[j]).(collected := false)
        invariant forall j :: k <= j < |powerPellets| ==> powerPellets[j] == old(powerPellets[j])
        invariant |dots| == |old(dots)| && totalDots == old(totalDots) && collectedDots == 0
        invariant forall j :: 0 <= j < |dots| ==> dots[j] == old(dots[j]).(collected := false)
      {
        powerPellets := powerPellets[k := powerPellets[k].(collected := false)];
        k := k + 1;
      }
      CountCollectedBounds(dots);
    }
  }
}
