/**
 * The main editor component's state (src/components/RestaurantLayout.tsx)
 * as a class whose handler methods update it, one `setState` updater after
 * another. The room-drawing gesture is also stated as a pure step function
 * on its part of the state, so that whole click sequences can be reasoned
 * about.
 */
module LayoutEditor {
  import opened Seqs
  import opened Geometry
  import opened Walls
  import opened Layout
  import Types

  /** The part of the editor state that the room-drawing clicks read and write. */
  datatype DrawState = DrawState(rooms: seq<Room>, tool: Types.Tool, isDrawing: bool, points: seq<Point>)

  /**
   * The drawing invariant: while drawing, the room tool is active and at
   * least one point is collected; otherwise no point is; and once two points
   * are collected a temporary preview room is in the list.
   */
  predicate DrawValid(s: DrawState)
  {
    (s.isDrawing ==> s.tool == Types.RoomTool && |s.points| >= 1)
    && (!s.isDrawing ==> s.points == [])
    && (|s.points| > 1 ==> exists k :: 0 <= k < |s.rooms| && s.rooms[k].isTemporary)
  }

  /**
   * One room-tool click at the snapped point p. The first click starts the
   * drawing with [p]. A later click appends p; if the list then has at least
   * three points and p is the first one, the room is created and the points
   * are cleared; otherwise, from two points on, the preview is refreshed.
   */
  function RoomClick(s: DrawState, p: Point): (r: DrawState)
    requires s.isDrawing && |s.points| >= 2 ==> |s.rooms| > 0
    ensures DrawValid(s) ==> DrawValid(r)
    ensures r.isDrawing ==> |r.points| > 1 ==> r.rooms == WithPreview(s.rooms, r.points)
  {
    if !s.isDrawing then
      DrawState(s.rooms, Types.RoomTool, true, [p])
    else
      var newPoints := s.points + [p];
      if |newPoints| > 2 && newPoints[0].x == p.x && newPoints[0].y == p.y && |newPoints| >= 3 then
        DrawState(NewRoomList(s.rooms, newPoints), Types.NoTool, false, [])
      else if |newPoints| > 1 then
        WithPreviewSpec(s.rooms, newPoints);
        DrawState(WithPreview(s.rooms, newPoints), s.tool, true, newPoints)
      else
        DrawState(s.rooms, s.tool, true, newPoints)
  }

  /** The clicks of `ps`, one after another. */
  function Clicks(s: DrawState, ps: seq<Point>): (r: DrawState)
    requires DrawValid(s)
    ensures DrawValid(r)
  {
    if ps == [] then s
    else
      var before := Clicks(s, ps[..|ps| - 1]);
      assert before.isDrawing && |before.points| >= 2 ==> |before.rooms| > 0;
      RoomClick(before, ps[|ps| - 1])
  }

  /** A second preview replaces the first: only the latest points are shown. */
  lemma WithPreviewTwice(rooms: seq<Room>, a: seq<Point>, b: seq<Point>)
    ensures WithPreview(WithPreview(rooms, a), b) == WithPreview(rooms, b)
  {
    var kept := Filter(rooms, IsPermanent);
    FilterAppend(kept, [PreviewRoom(a)], IsPermanent);
    FilterIdempotent(rooms, IsPermanent);
    assert Filter([PreviewRoom(a)], IsPermanent) == [];
  }

  /**
   * While the points collected so far avoid the first point, each click just
   * extends the drawing, with a preview of all points once there are two.
   */
  lemma {:induction false} DrawingPrefix(rooms: seq<Room>, tool: Types.Tool, ps: seq<Point>, m: nat)
    requires 1 <= m <= |ps|
    requires forall k :: 1 <= k < |ps| ==> ps[k] != ps[0]
    ensures Clicks(DrawState(rooms, tool, false, []), ps[..m])
         == DrawState(if m == 1 then rooms else WithPreview(rooms, ps[..m]), Types.RoomTool, true, ps[..m])
  {
    var s0 := DrawState(rooms, tool, false, []);
    if m == 1 {
      assert ps[..1] == [] + [ps[0]];
      ClicksSnoc(s0, [], ps[0]);
    } else {
      DrawingPrefix(rooms, tool, ps, m - 1);
      var prefix := ps[..m - 1];
      assert prefix + [ps[m - 1]] == ps[..m];
      assert prefix[0] == ps[0];
      DrawingStep(rooms, tool, prefix, ps[m - 1]);
    }
  }

  /** One more click away from the first point, from a drawing in progress. */
  lemma DrawingStep(rooms: seq<Room>, tool: Types.Tool, prefix: seq<Point>, p: Point)
    requires |prefix| >= 1 && p != prefix[0]
    requires Clicks(DrawState(rooms, tool, false, []), prefix)
          == DrawState(if |prefix| == 1 then rooms else WithPreview(rooms, prefix), Types.RoomTool, true, prefix)
    ensures Clicks(DrawState(rooms, tool, false, []), prefix + [p])
         == DrawState(WithPreview(rooms, prefix + [p]), Types.RoomTool, true, prefix + [p])
  {
    var s0 := DrawState(rooms, tool, false, []);
    var before := Clicks(s0, prefix);
    ClicksSnoc(s0, prefix, p);
    ExtendDrawing(before.rooms, prefix, p);
    if |prefix| > 1 {
      WithPreviewTwice(rooms, prefix, prefix + [p]);
    }
  }

  /** Clicking one more point is one more RoomClick. */
  lemma ClicksSnoc(s: DrawState, ps: seq<Point>, p: Point)
    requires DrawValid(s)
    ensures Clicks(s, ps + [p]) == RoomClick(Clicks(s, ps), p)
  {
    assert (ps + [p])[..|ps|] == ps;
  }

  /** A click at a point other than the first extends the drawing and refreshes the preview. */
  lemma ExtendDrawing(rooms: seq<Room>, points: seq<Point>, p: Point)
    requires |points| >= 1 && points[0] != p
    requires |points| >= 2 ==> |rooms| > 0
    ensures RoomClick(DrawState(rooms, Types.RoomTool, true, points), p)
         == DrawState(WithPreview(rooms, points + [p]), Types.RoomTool, true, points + [p])
  {
    assert (points + [p])[0] == points[0];
  }

  /**
   * The whole gesture: from an idle state, clicking two or more points and
   * then the first point again creates the room whose walls run around all
   * clicked points (the closing point included), under the root of the list
   * as it stood with the preview shown, and leaves drawing with no tool.
   */
  lemma DrawingCreatesRoom(rooms: seq<Room>, tool: Types.Tool, ps: seq<Point>)
    requires |ps| >= 2
    requires forall k :: 1 <= k < |ps| ==> ps[k] != ps[0]
    ensures Clicks(DrawState(rooms, tool, false, []), ps + [ps[0]])
         == DrawState(NewRoomList(WithPreview(rooms, ps), ps + [ps[0]]), Types.NoTool, false, [])
  {
    var closed := ps + [ps[0]];
    DrawingPrefix(rooms, tool, ps, |ps|);
    assert ps[..|ps|] == ps;
    assert closed[..|closed| - 1] == ps;
  }

  /** The editor component's state. */
  class Editor {
    var width: real
    var height: real
    var rooms: seq<Room>
    var currentTool: Types.Tool
    var firstPoint: Option<Point>
    var isToolInUse: bool
    var isDrawingRoom: bool
    var drawingRoomPoints: seq<Point>

    /** The drawing part of the state. */
    function Drawing(): DrawState
      reads this
    {
      DrawState(rooms, currentTool, isDrawingRoom, drawingRoomPoints)
    }

    ghost predicate Valid()
      reads this
    {
      DrawValid(Drawing())
    }

    /** The initial state: a 1000 x 800 canvas holding the root room, no tool, no gesture. */
    constructor ()
      ensures Valid()
      ensures width == 1000.0 && height == 800.0 && rooms == [RootRoom(1000.0, 800.0)]
      ensures currentTool == Types.NoTool && firstPoint == None && !isToolInUse
      ensures !isDrawingRoom && drawingRoomPoints == []
    {
      width := 1000.0;
      height := 800.0;
      rooms := [RootRoom(1000.0, 800.0)];
      currentTool := Types.NoTool;
      firstPoint := None;
      isToolInUse := false;
      isDrawingRoom := false;
      drawingRoomPoints := [];
    }

    /**
     * A canvas click: with the room tool it is a drawing click; with the
     * table tool the click is snapped to the grid and the first room that
     * accepts it gains a table; with any other tool nothing happens.
     */
    method HandleCanvasClick(clickX: real, clickY: real)
      requires Valid()
      modifies this
      ensures Valid()
      ensures width == old(width) && height == old(height)
      ensures firstPoint == old(firstPoint) && isToolInUse == old(isToolInUse)
      ensures old(currentTool) == Types.RoomTool ==>
        Drawing() == RoomClick(old(Drawing()), SnapToGrid(clickX, clickY, Limit))
      ensures old(currentTool) == Types.TableTool ==>
        rooms == PlaceTable(old(rooms), Snap(clickX, Limit), Snap(clickY, Limit))
      ensures old(currentTool) != Types.RoomTool ==>
        currentTool == old(currentTool) && isDrawingRoom == old(isDrawingRoom)
        && drawingRoomPoints == old(drawingRoomPoints)
      ensures old(currentTool) != Types.RoomTool && old(currentTool) != Types.TableTool ==> rooms == old(rooms)
    {
      if currentTool == Types.RoomTool {
        HandleRoomCreation(clickX, clickY);
      } else if currentTool == Types.TableTool {
        var gridAlignedX := Snap(clickX, Limit);
        var gridAlignedY := Snap(clickY, Limit);
        rooms := AddTableOnce(rooms, gridAlignedX, gridAlignedY);
      }
    }

    /** A room-tool click, snapped to the grid; see RoomClick. */
    method HandleRoomCreation(clickX: real, clickY: real)
      requires Valid()
      modifies this
      ensures Valid()
      ensures Drawing() == RoomClick(old(Drawing()), SnapToGrid(clickX, clickY, Limit))
      ensures width == old(width) && height == old(height)
      ensures firstPoint == old(firstPoint) && isToolInUse == old(isToolInUse)
    {
      var wasDrawing := isDrawingRoom;
      if !isDrawingRoom {
        isDrawingRoom := true;
        currentTool := Types.RoomTool;
      }
      var click := Point(Snap(clickX, Limit), Snap(clickY, Limit));
      if !wasDrawing {
        drawingRoomPoints := [click];
      } else {
        var newPoints := drawingRoomPoints + [click];
        if |newPoints| > 2 && newPoints[0].x == click.x && newPoints[0].y == click.y && |newPoints| >= 3 {
          CreateNewRoom(newPoints);
          drawingRoomPoints := [];
        } else {
          if |newPoints| > 1 {
            rooms := WithPreview(rooms, newPoints);
          }
          drawingRoomPoints := newPoints;
        }
      }
      assert Drawing() == RoomClick(old(Drawing()), click);
    }

    /** `createNewRoom`: the room list update, then drawing ends and no tool is selected. */
    method CreateNewRoom(points: seq<Point>)
      requires |rooms| > 0
      modifies this
      ensures rooms == NewRoomList(old(rooms), points)
      ensures !isDrawingRoom && currentTool == Types.NoTool
      ensures drawingRoomPoints == old(drawingRoomPoints)
      ensures width == old(width) && height == old(height)
      ensures firstPoint == old(firstPoint) && isToolInUse == old(isToolInUse)
    {
      rooms := NewRoomList(rooms, points);
      isDrawingRoom := false;
      currentTool := Types.NoTool;
    }

    /**
     * A canvas double click. With the wall tool the first one records the
     * point and the second appends a room holding the single wall from that
     * point to the click, with id = the list's length, and ends the gesture.
     * With the eraser, walls near the click go and wall-less rooms with them.
     */
    method HandleCanvasDoubleClick(clickX: real, clickY: real)
      requires Valid()
      modifies this
      ensures Valid()
      ensures width == old(width) && height == old(height) && currentTool == old(currentTool)
      ensures isDrawingRoom == old(isDrawingRoom) && drawingRoomPoints == old(drawingRoomPoints)
      ensures old(currentTool) == Types.WallTool && old(firstPoint).None? ==>
        firstPoint == Some(Point(clickX, clickY)) && rooms == old(rooms) && isToolInUse == old(isToolInUse)
      ensures old(currentTool) == Types.WallTool && old(firstPoint).Some? ==>
        rooms == old(rooms) + [WallRoom(|old(rooms)|, old(firstPoint).value, clickX, clickY)]
        && firstPoint == None && !isToolInUse
      ensures old(currentTool) == Types.EraserTool ==>
        rooms == EraseAt(old(rooms), clickX, clickY)
      ensures old(currentTool) != Types.WallTool ==> firstPoint == old(firstPoint) && isToolInUse == old(isToolInUse)
      ensures old(currentTool) != Types.WallTool && old(currentTool) != Types.EraserTool ==> rooms == old(rooms)
    {
      if currentTool == Types.WallTool {
        if firstPoint.None? {
          firstPoint := Some(Point(clickX, clickY));
        } else {
          var newRoom := WallRoom(|rooms|, firstPoint.value, clickX, clickY);
          firstPoint := None;
          isToolInUse := false;
          rooms := rooms + [newRoom];
          assert rooms[..|rooms| - 1] == old(rooms);
        }
      } else if currentTool == Types.EraserTool {
        rooms := EraseAt(rooms, clickX, clickY);
      }
    }

    /**
     * Selecting a tool. Refused while a room is being drawn; leaving the wall
     * tool drops its pending point; the tool is in use exactly when it is the
     * wall or the room tool.
     */
    method HandleToolSelect(tool: Types.Tool)
      requires Valid()
      requires tool != Types.NoTool
      modifies this
      ensures Valid()
      ensures rooms == old(rooms) && width == old(width) && height == old(height)
      ensures isDrawingRoom == old(isDrawingRoom) && drawingRoomPoints == old(drawingRoomPoints)
      ensures old(isDrawingRoom) ==>
        currentTool == old(currentTool) && firstPoint == old(firstPoint) && isToolInUse == old(isToolInUse)
      ensures !old(isDrawingRoom) ==>
        currentTool == tool && isToolInUse == (tool == Types.WallTool || tool == Types.RoomTool)
        && firstPoint == (if old(currentTool) == Types.WallTool && tool != Types.WallTool then None else old(firstPoint))
    {
      if isDrawingRoom {
        return;
      }
      if currentTool == Types.WallTool && tool != Types.WallTool {
        firstPoint := None;
      }
      currentTool := tool;
      isToolInUse := tool == Types.WallTool || tool == Types.RoomTool;
    }

    /** Deleting a room by id anywhere in the tree; see DeleteRoomRecursive. */
    method HandleDeleteRoom(roomId: int)
      requires Valid()
      modifies this
      ensures Valid()
      ensures rooms == DeleteRoomRecursive(old(rooms), roomId)
      ensures width == old(width) && height == old(height) && currentTool == old(currentTool)
      ensures firstPoint == old(firstPoint) && isToolInUse == old(isToolInUse)
      ensures isDrawingRoom == old(isDrawingRoom) && drawingRoomPoints == old(drawingRoomPoints)
    {
      rooms := DeleteRoomRecursive(rooms, roomId);
    }

    /** Reset: the root room of the current size alone, and every gesture cleared. */
    method HandleReset()
      modifies this
      ensures Valid()
      ensures rooms == [RootRoom(width, height)]
      ensures width == old(width) && height == old(height)
      ensures currentTool == Types.NoTool && !isToolInUse && firstPoint == None
      ensures !isDrawingRoom && drawingRoomPoints == []
    {
      rooms := [RootRoom(width, height)];
      currentTool := Types.NoTool;
      isToolInUse := false;
      firstPoint := None;
      isDrawingRoom := false;
      drawingRoomPoints := [];
    }

    /** The width input: only the next reset uses it. */
    method SetWidth(w: real)
      modifies this
      ensures width == w && height == old(height) && Drawing() == old(Drawing())
      ensures firstPoint == old(firstPoint) && isToolInUse == old(isToolInUse)
    {
      width := w;
    }

    /** The height input: only the next reset uses it. */
    method SetHeight(h: real)
      modifies this
      ensures height == h && width == old(width) && Drawing() == old(Drawing())
      ensures firstPoint == old(firstPoint) && isToolInUse == old(isToolInUse)
    {
      height := h;
    }
  }
}
