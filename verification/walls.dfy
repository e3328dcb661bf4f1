/**
 * Wall lists as both editor components build, read and erase them: the four
 * walls of the initial room, the cyclic wall chain of a drawn polygon, the
 * polygon of wall start points that room membership is tested against, and
 * the eraser's distance filter.
 */
module Walls {
  import opened Seqs
  import opened Geometry
  import Types

  type Wall = Types.Wall

  function Start(w: Wall): Point { Point(w.x1, w.y1) }

  function End(w: Wall): Point { Point(w.x2, w.y2) }

  /** The initial room's walls: (0,0) -> (w,0) -> (w,h) -> (0,h) -> (0,0). */
  function RectWalls(width: real, height: real): (r: seq<Wall>)
    ensures |r| == 4
  {
    [ Types.Wall(0.0, 0.0, width, 0.0),
      Types.Wall(width, 0.0, width, height),
      Types.Wall(width, height, 0.0, height),
      Types.Wall(0.0, height, 0.0, 0.0) ]
  }

  /** The rectangle's corners in the order its walls visit them. */
  function RectCorners(width: real, height: real): seq<Point>
  {
    [Point(0.0, 0.0), Point(width, 0.0), Point(width, height), Point(0.0, height)]
  }

  /** The polygon a room's walls enclose, read off as the start point of each wall. */
  function WallStarts(walls: seq<Wall>): (r: seq<Point>)
    ensures |r| == |walls|
  {
    seq(|walls|, i requires 0 <= i < |walls| => Start(walls[i]))
  }

  /** The index after i in a cyclic list of length n: (i + 1) mod n. */
  function Next(i: nat, n: nat): (j: nat)
    requires i < n
    ensures j < n
    ensures j == if i + 1 < n then i + 1 else 0
  {
    (i + 1) % n
  }

  /** One wall per point, from point i to point (i + 1) mod n. */
  function CyclicWalls(points: seq<Point>): (r: seq<Wall>)
    ensures |r| == |points|
  {
    seq(|points|, i requires 0 <= i < |points| =>
      Types.Wall(points[i].x, points[i].y, points[Next(i, |points|)].x, points[Next(i, |points|)].y))
  }

  /** Each wall ends where the next one (cyclically) starts. */
  predicate ClosedChain(walls: seq<Wall>)
  {
    forall i :: 0 <= i < |walls| ==> End(walls[i]) == Start(walls[Next(i, |walls|)])
  }

  /**
   * The cyclic walls of a point list form a closed chain, and reading their
   * start points back gives the point list itself.
   */
  lemma CyclicWallsClosed(points: seq<Point>)
    ensures ClosedChain(CyclicWalls(points))
    ensures WallStarts(CyclicWalls(points)) == points
  {
    var walls := CyclicWalls(points);
    forall i | 0 <= i < |walls|
      ensures End(walls[i]) == Start(walls[Next(i, |walls|)])
    {
      var j := Next(i, |points|);
      assert walls[j].x1 == points[j].x && walls[j].y1 == points[j].y;
    }
  }

  /** A closed chain is determined by its start points: rebuilding it cyclically gives it back. */
  lemma ClosedChainFromStarts(walls: seq<Wall>)
    requires ClosedChain(walls)
    ensures CyclicWalls(WallStarts(walls)) == walls
  {
    var rebuilt := CyclicWalls(WallStarts(walls));
    forall i | 0 <= i < |walls|
      ensures rebuilt[i] == walls[i]
    {
      var starts := WallStarts(walls);
      var j := Next(i, |walls|);
      assert starts[i] == Start(walls[i]) && starts[j] == Start(walls[j]);
      assert End(walls[i]) == Start(walls[j]);
      assert rebuilt[i] == Types.Wall(starts[i].x, starts[i].y, starts[j].x, starts[j].y);
    }
  }

  /** The initial room's four walls are the cyclic chain of the rectangle's corners. */
  lemma RectWallsCyclic(width: real, height: real)
    ensures RectWalls(width, height) == CyclicWalls(RectCorners(width, height))
    ensures ClosedChain(RectWalls(width, height))
    ensures WallStarts(RectWalls(width, height)) == RectCorners(width, height)
  {
    var corners := RectCorners(width, height);
    var c := CyclicWalls(corners);
    assert c[3] == Types.Wall(corners[3].x, corners[3].y, corners[0].x, corners[0].y);
    assert c[0] == RectWalls(width, height)[0];
    assert c[1] == RectWalls(width, height)[1];
    assert c[2] == RectWalls(width, height)[2];
    CyclicWallsClosed(corners);
  }

  /** The eraser keeps a wall when its (squared) distance to the click exceeds 5 (25). */
  predicate FarFrom(x: real, y: real, w: Wall)
  {
    SegmentDistanceSq(x, y, w.x1, w.y1, w.x2, w.y2) > 25.0
  }

  /**
   * `room.walls.filter(wall => pointToLineDistance(click, wall) > 5)`: the
   * kept walls are exactly the original walls far from the click.
   */
  function EraseWalls(walls: seq<Wall>, x: real, y: real): (r: seq<Wall>)
    ensures |r| <= |walls|
    ensures forall k :: 0 <= k < |r| ==> r[k] in walls && FarFrom(x, y, r[k])
    ensures forall k :: 0 <= k < |walls| ==> (walls[k] in r <==> FarFrom(x, y, walls[k]))
  {
    Filter(walls, w => FarFrom(x, y, w))
  }

  /** A wall that passes through the click (an endpoint, or any point between) is erased. */
  lemma EraseRemovesWallThroughClick(walls: seq<Wall>, w: Wall, t: real)
    requires 0.0 <= t <= 1.0
    ensures var q := PointAt(w.x1, w.y1, w.x2, w.y2, t);
            w !in EraseWalls(walls, q.x, q.y)
  {
    OnSegmentZero(w.x1, w.y1, w.x2, w.y2, t);
  }

  /** The kept walls keep their order around the room. */
  lemma EraseWallsKeepsOrder(walls: seq<Wall>, x: real, y: real)
    ensures Subsequence(EraseWalls(walls, x, y), walls)
  {
    FilterSubsequence(walls, w => FarFrom(x, y, w));
  }

  /** Erasing twice at the same click erases nothing more. */
  lemma EraseWallsIdempotent(walls: seq<Wall>, x: real, y: real)
    ensures EraseWalls(EraseWalls(walls, x, y), x, y) == EraseWalls(walls, x, y)
  {
    FilterIdempotent(walls, w => FarFrom(x, y, w));
  }
}
