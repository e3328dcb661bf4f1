/**
 * The room list of the main editor (src/components/RestaurantLayout.tsx)
 * and the pure updates its handlers apply to it: table placement, the
 * wall gesture's new room, the eraser, the temporary preview room while a
 * polygon is being drawn, room creation and recursive room deletion.
 *
 * Element 0 of the top-level list is the root room; rooms nest through
 * `subRooms`.
 */
module Layout {
  import opened Seqs
  import opened Geometry
  import opened Walls
  import Types

  /** A table of this editor: a position and one flag per chair (no shape). */
  datatype Table = Table(x: real, y: real, chairs: seq<bool>)

  /** A room of this editor; the optional `isTemporary` reads as false when absent. */
  datatype Room = Room(
    id: int,
    walls: seq<Wall>,
    tables: seq<Table>,
    subRooms: seq<Room>,
    isTemporary: bool)

  predicate IsTemporary(room: Room) { room.isTemporary }

  predicate IsPermanent(room: Room) { !room.isTemporary }

  predicate HasWalls(room: Room) { |room.walls| > 0 }

  /** Two tables closer than this on both axes are too close. */
  const NearDistance: real := 40.0

  /** The single room the editor starts with and returns to on reset. */
  function RootRoom(width: real, height: real): Room
  {
    Room(0, RectWalls(width, height), [], [], false)
  }

  // ---------------------------------------------------------------------
  // Table placement
  // ---------------------------------------------------------------------

  /** A new table: at the snapped point, all four chairs present. */
  function NewTable(x: real, y: real): Table
  {
    Table(x, y, [true, true, true, true])
  }

  /** The point is in the room: inside its wall-start polygon, or anywhere if it has no walls. */
  predicate InRoom(room: Room, x: real, y: real)
  {
    |room.walls| > 0 ==> InPolygon(x, y, WallStarts(room.walls))
  }

  /** Some table of the list is closer than 40 to the point on both axes. */
  predicate NearTable(tables: seq<Table>, x: real, y: real)
  {
    exists k :: 0 <= k < |tables| && Abs(tables[k].x - x) < NearDistance && Abs(tables[k].y - y) < NearDistance
  }

  /** The room would take a new table at the point. */
  predicate Accepts(room: Room, x: real, y: real)
  {
    InRoom(room, x, y) && !NearTable(room.tables, x, y)
  }

  /**
   * Reference definition of a table click on the snapped point (x, y): the
   * first room in list order that accepts the point gets the new table.
   * PlaceTableFirst and PlaceTableNone state what it does to each room.
   */
  function PlaceTable(rooms: seq<Room>, x: real, y: real): (r: seq<Room>)
    ensures |r| == |rooms|
  {
    if rooms == [] then []
    else if Accepts(rooms[0], x, y) then [rooms[0].(tables := rooms[0].tables + [NewTable(x, y)])] + rooms[1..]
    else [rooms[0]] + PlaceTable(rooms[1..], x, y)
  }

  /** When no room accepts the point, nothing changes. */
  lemma {:induction false} PlaceTableNone(rooms: seq<Room>, x: real, y: real)
    requires forall k :: 0 <= k < |rooms| ==> !Accepts(rooms[k], x, y)
    ensures PlaceTable(rooms, x, y) == rooms
  {
    if rooms != [] {
      PlaceTableNone(rooms[1..], x, y);
    }
  }

  /**
   * When room i is the first that accepts the point, it alone gains the new
   * table, at the end of its list; every other room is unchanged.
   */
  lemma {:induction false} PlaceTableFirst(rooms: seq<Room>, x: real, y: real, i: nat)
    requires i < |rooms| && Accepts(rooms[i], x, y)
    requires forall k :: 0 <= k < i ==> !Accepts(rooms[k], x, y)
    ensures PlaceTable(rooms, x, y) == rooms[i := rooms[i].(tables := rooms[i].tables + [NewTable(x, y)])]
  {
    if i > 0 {
      PlaceTableFirst(rooms[1..], x, y, i - 1);
      assert rooms[1..][i - 1 := rooms[i].(tables := rooms[i].tables + [NewTable(x, y)])]
          == rooms[i := rooms[i].(tables := rooms[i].tables + [NewTable(x, y)])][1..];
    }
  }

  /** At most one room gains a table, and it gains exactly one. */
  lemma PlaceTableAddsAtMostOne(rooms: seq<Room>, x: real, y: real)
    ensures var r := PlaceTable(rooms, x, y);
            forall j, k :: 0 <= j < k < |rooms| && r[j] != rooms[j] ==> r[k] == rooms[k]
    ensures var r := PlaceTable(rooms, x, y);
            forall k :: 0 <= k < |rooms| && r[k] != rooms[k] ==>
              r[k] == rooms[k].(tables := rooms[k].tables + [NewTable(x, y)]) && Accepts(rooms[k], x, y)
  {
    if exists i :: 0 <= i < |rooms| && Accepts(rooms[i], x, y) {
      var i := FirstAccepting(rooms, x, y);
      PlaceTableFirst(rooms, x, y, i);
    } else {
      PlaceTableNone(rooms, x, y);
    }
  }

  /** The index of the first accepting room. */
  function FirstAccepting(rooms: seq<Room>, x: real, y: real): (i: nat)
    requires exists i :: 0 <= i < |rooms| && Accepts(rooms[i], x, y)
    ensures i < |rooms| && Accepts(rooms[i], x, y)
    ensures forall k :: 0 <= k < i ==> !Accepts(rooms[k], x, y)
  {
    if Accepts(rooms[0], x, y) then 0
    else 1 + FirstAccepting(rooms[1..], x, y)
  }

  /**
   * The table click's map over the rooms: a `tableAdded` flag lets only the
   * first room that contains the point and has no table near it take the
   * new table.
   */
  method AddTableOnce(rooms: seq<Room>, x: real, y: real) returns (updated: seq<Room>)
    ensures updated == PlaceTable(rooms, x, y)
  {
    var tableAdded := false;
    updated := [];
    var i := 0;
    while i < |rooms|
      invariant 0 <= i <= |rooms|
      invariant updated + (if tableAdded then rooms[i..] else PlaceTable(rooms[i..], x, y)) == PlaceTable(rooms, x, y)
    {
      var room := rooms[i];
      var isInRoom := ContainsPoint(room, x, y);
      ghost var wasAdded := tableAdded;
      ghost var near := NearTable(room.tables, x, y);
      var next := room;
      if isInRoom {
        var isNearExistingTable := NearTable(room.tables, x, y);
        if !isNearExistingTable && !tableAdded {
          next := room.(tables := room.tables + [NewTable(x, y)]);
          tableAdded := true;
        }
      }
      AddTableStep(rooms, i, x, y, updated, next, wasAdded, tableAdded, isInRoom, near);
      updated := updated + [next];
      i := i + 1;
    }
    assert rooms[i..] == [];
  }

  /** A room without walls contains every point; otherwise the point-in-polygon test on its wall starts decides. */
  method ContainsPoint(room: Room, x: real, y: real) returns (isInRoom: bool)
    ensures isInRoom == InRoom(room, x, y)
  {
    isInRoom := true;
    if |room.walls| > 0 {
      isInRoom := IsPointInPolygon(x, y, WallStarts(room.walls));
    }
  }

  /** The loop invariant of AddTableOnce carries over one room. */
  lemma AddTableStep(rooms: seq<Room>, i: nat, x: real, y: real, updated: seq<Room>, next: Room,
                     wasAdded: bool, added: bool, inRoom: bool, near: bool)
    requires i < |rooms|
    requires updated + (if wasAdded then rooms[i..] else PlaceTable(rooms[i..], x, y)) == PlaceTable(rooms, x, y)
    requires inRoom == InRoom(rooms[i], x, y) && near == NearTable(rooms[i].tables, x, y)
    requires added == (wasAdded || (inRoom && !near))
    requires next == if !wasAdded && inRoom && !near
                     then rooms[i].(tables := rooms[i].tables + [NewTable(x, y)]) else rooms[i]
    ensures (updated + [next]) + (if added then rooms[i + 1..] else PlaceTable(rooms[i + 1..], x, y))
         == PlaceTable(rooms, x, y)
  {
    var rest := rooms[i + 1..];
    var tail := if added then rest else PlaceTable(rest, x, y);
    if wasAdded {
      assert rooms[i..] == [next] + tail;
    } else {
      PlaceTableStep(rooms, i, x, y);
      AcceptsFrom(rooms[i], x, y, inRoom, near);
      assert PlaceTable(rooms[i..], x, y) == [next] + tail;
    }
    assert (updated + [next]) + tail == updated + ([next] + tail);
  }

  /** Accepts, from the two tests the loop makes. */
  lemma AcceptsFrom(room: Room, x: real, y: real, inRoom: bool, near: bool)
    requires inRoom == InRoom(room, x, y) && near == NearTable(room.tables, x, y)
    ensures Accepts(room, x, y) == (inRoom && !near)
  {
  }

  /** One step of PlaceTable along the list. */
  lemma PlaceTableStep(rooms: seq<Room>, i: nat, x: real, y: real)
    requires i < |rooms|
    ensures PlaceTable(rooms[i..], x, y)
         == if Accepts(rooms[i], x, y) then [rooms[i].(tables := rooms[i].tables + [NewTable(x, y)])] + rooms[i + 1..]
            else [rooms[i]] + PlaceTable(rooms[i + 1..], x, y)
  {
    assert rooms[i..][0] == rooms[i];
    assert rooms[i..][1..] == rooms[i + 1..];
  }

  // ---------------------------------------------------------------------
  // Wall gesture and eraser
  // ---------------------------------------------------------------------

  /** The room the wall gesture appends: one wall from the first point to the click. */
  function WallRoom(id: int, first: Point, x: real, y: real): Room
  {
    Room(id, [Types.Wall(first.x, first.y, x, y)], [], [], false)
  }

  /** Every top-level room with its walls filtered by the eraser. */
  function EraseEach(rooms: seq<Room>, x: real, y: real): (r: seq<Room>)
    ensures |r| == |rooms|
  {
    seq(|rooms|, i requires 0 <= i < |rooms| => rooms[i].(walls := EraseWalls(rooms[i].walls, x, y)))
  }

  /** The eraser: filter every room's walls, then drop the rooms left with no walls. */
  function EraseAt(rooms: seq<Room>, x: real, y: real): (r: seq<Room>)
  {
    Filter(EraseEach(rooms, x, y), HasWalls)
  }

  /**
   * After erasing, each remaining room is an original room with only its
   * walls far from the click kept (ids, tables and sub-rooms untouched),
   * at least one wall kept; every original room with a far wall remains;
   * and the remaining rooms keep their order, which decides the room that
   * comes first.
   */
  lemma EraseAtSpec(rooms: seq<Room>, x: real, y: real)
    ensures var r := EraseAt(rooms, x, y);
            |r| <= |rooms|
            && (forall j :: 0 <= j < |r| ==>
                  |r[j].walls| > 0
                  && (forall w :: w in r[j].walls ==> FarFrom(x, y, w))
                  && exists k :: 0 <= k < |rooms| && r[j] == rooms[k].(walls := EraseWalls(rooms[k].walls, x, y)))
            && (forall k :: 0 <= k < |rooms| && (exists w :: w in rooms[k].walls && FarFrom(x, y, w)) ==>
                  rooms[k].(walls := EraseWalls(rooms[k].walls, x, y)) in r)
            && Subsequence(r, EraseEach(rooms, x, y))
  {
    var e := EraseEach(rooms, x, y);
    var r := EraseAt(rooms, x, y);
    forall j | 0 <= j < |r|
      ensures exists k :: 0 <= k < |rooms| && r[j] == rooms[k].(walls := EraseWalls(rooms[k].walls, x, y))
    {
      assert r[j] in e;
      var k :| 0 <= k < |e| && e[k] == r[j];
    }
    forall k | 0 <= k < |rooms| && (exists w :: w in rooms[k].walls && FarFrom(x, y, w))
      ensures rooms[k].(walls := EraseWalls(rooms[k].walls, x, y)) in r
    {
      var w :| w in rooms[k].walls && FarFrom(x, y, w);
      var i :| 0 <= i < |rooms[k].walls| && rooms[k].walls[i] == w;
      assert w in EraseWalls(rooms[k].walls, x, y);
      assert e[k] == rooms[k].(walls := EraseWalls(rooms[k].walls, x, y));
    }
    FilterSubsequence(e, HasWalls);
  }

  // ---------------------------------------------------------------------
  // Drawing a room
  // ---------------------------------------------------------------------

  /** The preview shown while a polygon is drawn: id -1, the points' cyclic walls, temporary. */
  function PreviewRoom(points: seq<Point>): Room
  {
    Room(-1, CyclicWalls(points), [], [], true)
  }

  /** Replace every temporary top-level room by one preview of the points. */
  function WithPreview(rooms: seq<Room>, points: seq<Point>): (r: seq<Room>)
  {
    Filter(rooms, IsPermanent) + [PreviewRoom(points)]
  }

  /**
   * After the preview update there is exactly one temporary room, the last;
   * its walls close around the drawn points; the other rooms are exactly the
   * permanent rooms from before, in their order.
   */
  lemma WithPreviewSpec(rooms: seq<Room>, points: seq<Point>)
    ensures var r := WithPreview(rooms, points);
            |r| > 0 && r[|r| - 1] == PreviewRoom(points)
            && Count(r, IsTemporary) == 1
            && WallStarts(r[|r| - 1].walls) == points && ClosedChain(r[|r| - 1].walls)
            && Subsequence(r[..|r| - 1], rooms)
            && (forall k :: 0 <= k < |r| - 1 ==> !r[k].isTemporary)
            && (forall k :: 0 <= k < |rooms| && !rooms[k].isTemporary ==> rooms[k] in r)
  {
    var kept := Filter(rooms, IsPermanent);
    var r := WithPreview(rooms, points);
    assert r[..|r| - 1] == kept;
    FilterSubsequence(rooms, IsPermanent);
    CountAppend(kept, [PreviewRoom(points)], IsTemporary);
    CountZero(kept, IsTemporary);
    assert [PreviewRoom(points)][1..] == [];
    CyclicWallsClosed(points);
  }

  /**
   * `createNewRoom` applied to the room list: the root's tables are split by
   * the polygon; the new room (id = the list's length, the points' cyclic
   * walls, the inside tables) becomes the root's last sub-room; the other
   * top-level rooms lose their temporary members.
   */
  function NewRoomList(rooms: seq<Room>, points: seq<Point>): (r: seq<Room>)
    requires |rooms| > 0
  {
    var parent := rooms[0];
    var newRoom := Room(|rooms|, CyclicWalls(points), TablesInside(parent.tables, points), [], false);
    [parent.(tables := TablesOutside(parent.tables, points), subRooms := parent.subRooms + [newRoom])]
      + Filter(rooms[1..], IsPermanent)
  }

  /** The tables inside the polygon, in order. */
  function TablesInside(tables: seq<Table>, points: seq<Point>): seq<Table>
  {
    Filter(tables, (t: Table) => InPolygon(t.x, t.y, points))
  }

  /** The tables outside the polygon, in order. */
  function TablesOutside(tables: seq<Table>, points: seq<Point>): seq<Table>
  {
    Filter(tables, (t: Table) => !InPolygon(t.x, t.y, points))
  }

  /** The room `createNewRoom` adds under the root. */
  function CreatedRoom(rooms: seq<Room>, points: seq<Point>): Room
    requires |rooms| > 0
  {
    var r := NewRoomList(rooms, points);
    r[0].subRooms[|r[0].subRooms| - 1]
  }

  /**
   * Room creation splits the root's tables into the new room's (inside the
   * polygon) and the root's (outside), each in original order and together
   * exactly the original tables.
   */
  lemma NewRoomTables(rooms: seq<Room>, points: seq<Point>)
    requires |rooms| > 0
    ensures var root := NewRoomList(rooms, points)[0];
            var created := CreatedRoom(rooms, points);
            (forall k :: 0 <= k < |created.tables| ==> InPolygon(created.tables[k].x, created.tables[k].y, points))
            && (forall k :: 0 <= k < |root.tables| ==> !InPolygon(root.tables[k].x, root.tables[k].y, points))
            && multiset(created.tables) + multiset(root.tables) == multiset(rooms[0].tables)
            && Subsequence(created.tables, rooms[0].tables) && Subsequence(root.tables, rooms[0].tables)
  {
    var r := NewRoomList(rooms, points);
    assert r[0].tables == TablesOutside(rooms[0].tables, points);
    assert CreatedRoom(rooms, points).tables == TablesInside(rooms[0].tables, points);
    SplitTables(rooms[0].tables, points);
  }

  /** The inside and outside tables partition the tables, each in original order. */
  lemma SplitTables(tables: seq<Table>, points: seq<Point>)
    ensures forall k :: 0 <= k < |TablesInside(tables, points)| ==>
              InPolygon(TablesInside(tables, points)[k].x, TablesInside(tables, points)[k].y, points)
    ensures forall k :: 0 <= k < |TablesOutside(tables, points)| ==>
              !InPolygon(TablesOutside(tables, points)[k].x, TablesOutside(tables, points)[k].y, points)
    ensures multiset(TablesInside(tables, points)) + multiset(TablesOutside(tables, points)) == multiset(tables)
    ensures Subsequence(TablesInside(tables, points), tables) && Subsequence(TablesOutside(tables, points), tables)
  {
    var isIn := (t: Table) => InPolygon(t.x, t.y, points);
    var isOut := (t: Table) => !InPolygon(t.x, t.y, points);
    FilterPartition(tables, isIn, isOut);
    FilterSubsequence(tables, isIn);
    FilterSubsequence(tables, isOut);
  }

  /**
   * The root keeps its id and walls and gains the new room as its last
   * sub-room: id = the list's length, walls closing around the points, no
   * sub-rooms, permanent.
   */
  lemma NewRoomPlacement(rooms: seq<Room>, points: seq<Point>)
    requires |rooms| > 0
    ensures var root := NewRoomList(rooms, points)[0];
            var created := CreatedRoom(rooms, points);
            root.id == rooms[0].id && root.walls == rooms[0].walls
            && root.isTemporary == rooms[0].isTemporary
            && root.subRooms == rooms[0].subRooms + [created]
            && created.id == |rooms| && created.subRooms == [] && !created.isTemporary
            && WallStarts(created.walls) == points && ClosedChain(created.walls)
  {
    CyclicWallsClosed(points);
  }

  /** After the root, room creation keeps exactly the permanent rooms, in order. */
  lemma NewRoomDropsTemporary(rooms: seq<Room>, points: seq<Point>)
    requires |rooms| > 0
    ensures var r := NewRoomList(rooms, points);
            1 <= |r| <= |rooms|
            && (forall k :: 1 <= k < |r| ==> !r[k].isTemporary)
            && Subsequence(r[1..], rooms[1..])
            && (forall k :: 1 <= k < |rooms| && !rooms[k].isTemporary ==> rooms[k] in r[1..])
  {
    var r := NewRoomList(rooms, points);
    var rest := Filter(rooms[1..], IsPermanent);
    assert r[1..] == rest;
    assert forall k :: 1 <= k < |r| ==> r[k] == rest[k - 1];
    assert forall k :: 1 <= k < |rooms| ==> rooms[k] == rooms[1..][k - 1];
    FilterSubsequence(rooms[1..], IsPermanent);
  }

  // ---------------------------------------------------------------------
  // Deleting a room
  // ---------------------------------------------------------------------

  /** Some room of the list has the id. */
  predicate HasId(rooms: seq<Room>, roomId: int)
  {
    exists k :: 0 <= k < |rooms| && rooms[k].id == roomId
  }

  /** `find`: the first room of the list with the id. */
  function FirstWithId(rooms: seq<Room>, roomId: int): (r: Room)
    requires HasId(rooms, roomId)
    ensures r in rooms && r.id == roomId
  {
    if rooms[0].id == roomId then rooms[0] else FirstWithId(rooms[1..], roomId)
  }

  /** `flatMap(subRoom => subRoom.tables)`: the own tables of the listed rooms, in order. */
  function OwnTables(rooms: seq<Room>): seq<Table>
  {
    if rooms == [] then [] else rooms[0].tables + OwnTables(rooms[1..])
  }

  /** The filter `subRoom => subRoom.id !== roomId`. */
  function NotId(roomId: int): Room -> bool
  {
    (s: Room) => s.id != roomId
  }

  /**
   * `deleteRoomRecursive`: every room of the list rebuilt by `DeleteIn`.
   * What the deletion does is stated by the Delete lemmas below.
   */
  function DeleteRoomRecursive(rooms: seq<Room>, roomId: int): (r: seq<Room>)
    ensures |r| == |rooms|
    ensures forall k :: 0 <= k < |rooms| ==>
      r[k].id == rooms[k].id && r[k].walls == rooms[k].walls && r[k].isTemporary == rooms[k].isTemporary
    decreases rooms
  {
    seq(|rooms|, k requires 0 <= k < |rooms| => DeleteIn(rooms[k], roomId))
  }

  /**
   * One room of the recursive deletion. A matching room is kept but
   * collapsed: its own and its direct sub-rooms' tables, no sub-rooms. A
   * room with a matching direct child drops every such child and takes the
   * first one's own tables. Any other room recurses into its sub-rooms.
   */
  function DeleteIn(room: Room, roomId: int): (r: Room)
    ensures r.id == room.id && r.walls == room.walls && r.isTemporary == room.isTemporary
    decreases room
  {
    if room.id == roomId then
      room.(tables := room.tables + OwnTables(room.subRooms), subRooms := [])
    else if HasId(room.subRooms, roomId) then
      var updatedSubRooms := DeleteRoomRecursive(room.subRooms, roomId);
      var deletedRoom := FirstWithId(room.subRooms, roomId);
      room.(tables := room.tables + deletedRoom.tables,
            subRooms := Filter(updatedSubRooms, NotId(roomId)))
    else
      room.(subRooms := DeleteRoomRecursive(room.subRooms, roomId))
  }

  /** No room of the list, at any depth, has the id. */
  predicate AbsentAll(rooms: seq<Room>, roomId: int)
    decreases rooms
  {
    forall k :: 0 <= k < |rooms| ==> AbsentIn(rooms[k], roomId)
  }

  /** Neither the room nor any room below it has the id. */
  predicate AbsentIn(room: Room, roomId: int)
    decreases room
  {
    room.id != roomId && AbsentAll(room.subRooms, roomId)
  }

  /** Deleting an id that occurs nowhere changes nothing. */
  lemma {:induction false} DeleteAbsent(rooms: seq<Room>, roomId: int)
    requires AbsentAll(rooms, roomId)
    ensures DeleteRoomRecursive(rooms, roomId) == rooms
    decreases rooms
  {
    forall k | 0 <= k < |rooms|
      ensures DeleteIn(rooms[k], roomId) == rooms[k]
    {
      DeleteInAbsent(rooms[k], roomId);
    }
  }

  /** DeleteAbsent for one room. */
  lemma {:induction false} DeleteInAbsent(room: Room, roomId: int)
    requires AbsentIn(room, roomId)
    ensures DeleteIn(room, roomId) == room
    decreases room
  {
    assert !HasId(room.subRooms, roomId) by {
      forall k | 0 <= k < |room.subRooms| ensures room.subRooms[k].id != roomId {
        assert AbsentIn(room.subRooms[k], roomId);
      }
    }
    DeleteAbsent(room.subRooms, roomId);
  }

  /** After deletion no sub-room, at any depth below the top level, has the id. */
  lemma {:induction false} DeleteLeavesNoNested(rooms: seq<Room>, roomId: int)
    ensures forall k :: 0 <= k < |rooms| ==> AbsentAll(DeleteRoomRecursive(rooms, roomId)[k].subRooms, roomId)
    decreases rooms
  {
    forall k | 0 <= k < |rooms|
      ensures AbsentAll(DeleteIn(rooms[k], roomId).subRooms, roomId)
    {
      DeleteInLeavesNoNested(rooms[k], roomId);
    }
  }

  /** DeleteLeavesNoNested for one room. */
  lemma {:induction false} DeleteInLeavesNoNested(room: Room, roomId: int)
    ensures AbsentAll(DeleteIn(room, roomId).subRooms, roomId)
    decreases room
  {
    if room.id == roomId {
    } else {
      var updated := DeleteRoomRecursive(room.subRooms, roomId);
      DeleteLeavesNoNested(room.subRooms, roomId);
      if HasId(room.subRooms, roomId) {
        var kept := Filter(updated, NotId(roomId));
        forall j | 0 <= j < |kept| ensures AbsentIn(kept[j], roomId) {
          assert kept[j] in updated;
          var m :| 0 <= m < |updated| && updated[m] == kept[j];
          assert AbsentAll(updated[m].subRooms, roomId);
        }
      } else {
        forall j | 0 <= j < |updated| ensures AbsentIn(updated[j], roomId) {
          assert room.subRooms[j].id != roomId;
          assert AbsentAll(updated[j].subRooms, roomId);
        }
      }
    }
  }

  /** Deleting the same id a second time changes nothing more. */
  lemma {:induction false} DeleteIdempotent(rooms: seq<Room>, roomId: int)
    ensures var once := DeleteRoomRecursive(rooms, roomId);
            DeleteRoomRecursive(once, roomId) == once
    decreases rooms
  {
    var once := DeleteRoomRecursive(rooms, roomId);
    forall k | 0 <= k < |rooms|
      ensures DeleteIn(once[k], roomId) == once[k]
    {
      DeleteInIdempotent(rooms[k], roomId);
    }
  }

  /** DeleteIdempotent for one room. */
  lemma {:induction false} DeleteInIdempotent(room: Room, roomId: int)
    ensures DeleteIn(DeleteIn(room, roomId), roomId) == DeleteIn(room, roomId)
    decreases room
  {
    var once := DeleteIn(room, roomId);
    if room.id == roomId {
      assert OwnTables(once.subRooms) == [];
      assert once.tables + [] == once.tables;
    } else {
      DeleteInLeavesNoNested(room, roomId);
      assert !HasId(once.subRooms, roomId) by {
        forall k | 0 <= k < |once.subRooms| ensures once.subRooms[k].id != roomId {
          assert AbsentIn(once.subRooms[k], roomId);
        }
      }
      DeleteAbsent(once.subRooms, roomId);
    }
  }

  /**
   * Deleting a direct child promotes exactly the first matching child's own
   * tables: they follow the parent's tables. The children with other ids
   * all stay, in their order, each with the deletion applied inside it.
   */
  lemma DeleteChildPromotes(room: Room, roomId: int, i: nat)
    requires room.id != roomId
    requires i < |room.subRooms| && room.subRooms[i].id == roomId
    requires forall k :: 0 <= k < i ==> room.subRooms[k].id != roomId
    ensures DeleteIn(room, roomId).tables == room.tables + room.subRooms[i].tables
    ensures forall s :: s in DeleteIn(room, roomId).subRooms ==> s.id != roomId
    ensures DeleteIn(room, roomId).subRooms == DeleteRoomRecursive(Filter(room.subRooms, NotId(roomId)), roomId)
  {
    FirstWithIdIsFirst(room.subRooms, roomId, i);
    DeleteKeepsOthers(room.subRooms, roomId);
  }

  /**
   * Dropping the rooms with the id commutes with the deletion: it keeps
   * exactly the rooms with other ids, in order, each rebuilt by DeleteIn.
   */
  lemma {:induction false} DeleteKeepsOthers(rooms: seq<Room>, roomId: int)
    ensures Filter(DeleteRoomRecursive(rooms, roomId), NotId(roomId))
         == DeleteRoomRecursive(Filter(rooms, NotId(roomId)), roomId)
    decreases |rooms|
  {
    if rooms != [] {
      var p := NotId(roomId);
      var first := rooms[0];
      var tail := rooms[1..];
      assert rooms == [first] + tail;
      DeleteCons(first, tail, roomId);
      FilterCons(DeleteIn(first, roomId), DeleteRoomRecursive(tail, roomId), p);
      FilterCons(first, tail, p);
      DeleteKeepsOthers(tail, roomId);
      if first.id != roomId {
        DeleteCons(first, Filter(tail, p), roomId);
      }
    }
  }

  /** The deletion of a list with a first room: that room rebuilt, then the rest. */
  lemma DeleteCons(first: Room, tail: seq<Room>, roomId: int)
    ensures DeleteRoomRecursive([first] + tail, roomId) == [DeleteIn(first, roomId)] + DeleteRoomRecursive(tail, roomId)
  {
    var d := DeleteRoomRecursive([first] + tail, roomId);
    var e := [DeleteIn(first, roomId)] + DeleteRoomRecursive(tail, roomId);
    forall k | 0 <= k < |d| ensures d[k] == e[k] {
      if k > 0 {
        assert ([first] + tail)[k] == tail[k - 1];
      }
    }
  }

  /**
   * A room that neither has the id nor has a direct child with it keeps its
   * own tables and all its sub-rooms, each with the deletion applied inside.
   */
  lemma DeleteKeepsUnrelated(rooms: seq<Room>, roomId: int, k: nat)
    requires k < |rooms| && rooms[k].id != roomId && !HasId(rooms[k].subRooms, roomId)
    ensures var r := DeleteRoomRecursive(rooms, roomId);
            r[k].tables == rooms[k].tables
            && r[k].subRooms == DeleteRoomRecursive(rooms[k].subRooms, roomId)
  {
  }

  /** FirstWithId finds the first room with the id. */
  lemma {:induction false} FirstWithIdIsFirst(rooms: seq<Room>, roomId: int, i: nat)
    requires i < |rooms| && rooms[i].id == roomId
    requires forall k :: 0 <= k < i ==> rooms[k].id != roomId
    ensures FirstWithId(rooms, roomId) == rooms[i]
  {
    if i > 0 {
      FirstWithIdIsFirst(rooms[1..], roomId, i - 1);
    }
  }

  /** A matching top-level room keeps its own tables first, then its direct sub-rooms' tables. */
  lemma DeleteTopLevelCollapses(rooms: seq<Room>, roomId: int, k: nat)
    requires k < |rooms| && rooms[k].id == roomId
    ensures var r := DeleteRoomRecursive(rooms, roomId);
            r[k].subRooms == [] && r[k].tables == rooms[k].tables + OwnTables(rooms[k].subRooms)
            && r[k].tables[..|rooms[k].tables|] == rooms[k].tables
            && (forall j :: 0 <= j < |rooms[k].subRooms| ==>
                  forall t :: t in rooms[k].subRooms[j].tables ==> t in r[k].tables)
  {
    var room := rooms[k];
    assert DeleteRoomRecursive(rooms, roomId)[k]
        == room.(tables := room.tables + OwnTables(room.subRooms), subRooms := []);
    forall j | 0 <= j < |room.subRooms|
      ensures forall t :: t in room.subRooms[j].tables ==> t in OwnTables(room.subRooms)
    {
      OwnTablesContains(room.subRooms, j);
    }
  }

  /** Every listed room's own tables occur in OwnTables. */
  lemma {:induction false} OwnTablesContains(rooms: seq<Room>, j: nat)
    requires j < |rooms|
    ensures forall t :: t in rooms[j].tables ==> t in OwnTables(rooms)
  {
    if j > 0 {
      OwnTablesContains(rooms[1..], j - 1);
    }
  }
}
