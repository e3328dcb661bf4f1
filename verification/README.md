# ResTable floor-plan editor, modelled in Dafny

ResTable is a browser editor for restaurant floor plans. A plan is a list
of rooms bounded by walls, and each room holds tables with chairs. The
first room in the list is the root room. This project models the editing
core: the geometry kernel and the handlers that rewrite the room list when
the user clicks or double-clicks the canvas, selects a tool or resets the
plan.

It has seven modules:

- `Seqs` (seqs.dfy): `Option`, the order-keeping `Filter`, `Count`, and
  the subsequence relation, with lemmas about them.
- `Types` (types.dfy): the canonical shapes from `src/types/index.ts`:
  - table shape and wall (exactly four numbers);
  - table, with a chair list of free length;
  - the recursive room, with a mandatory `isTemporary`;
  - `Tool` and the three sub-tool enumerations. `TableSubTool` has no move.
- `Geometry` (geometry.dfy): `src/utils/math.ts`:
  - the even-odd point-in-polygon loop;
  - the square polygon;
  - the clamped point-to-segment distance, kept squared;
  - grid snapping;
  - `clickInSquare`, which is not in `math.ts`: each component file defines
    its own copy (`src/components/RestaurantLayout.tsx:267-271`,
    `src/restaurant-layout/src/components/RestaurantLayout.tsx:236-240`),
    and the two agree, so the model keeps one.

  Coordinates are exact reals. `Math.round(v)` is `(v + 0.5).Floor`. The
  one use of the distance is `distance > 5`, which the model writes as
  squared distance `> 25`.
- `Walls` (walls.dfy): the wall helpers both editor components use:
  - the initial rectangle;
  - the cyclic wall chain of a point list;
  - the wall-start polygon that rooms are tested against;
  - the eraser's wall filter.
- `Layout` (layout.dfy): the main editor's room list
  (`src/components/RestaurantLayout.tsx`) and the pure updates its
  handlers apply:
  - table placement, including the loop with its `tableAdded` flag, as a method;
  - the wall gesture's room and the eraser;
  - the temporary preview room;
  - `createNewRoom`;
  - recursive room deletion.
- `LayoutEditor` (editor.dfy): the main editor's state, as class `Editor`
  whose handler methods update its fields. Each `setState` updater runs as
  one sequential step. The room-drawing clicks are also given as a pure step
  function `RoomClick`, so that whole click sequences can be proved about.
- `Draft` (draft.dfy): the earlier version of the component
  (`src/restaurant-layout/src/components/RestaurantLayout.tsx`), with class
  `DraftEditor`:
  - string room ids and no sub-rooms;
  - a table tool that deletes a table, flips one chair, or adds a table to
    every room. Its pass over the tables, with the three flags, is a method.
    Which chair is flipped is a parameter of every table-click member, a
    `SlotRule`: the rule as written, or the corrected rule of "## Findings".
    `DraftEditor` runs the rule as written;
  - the same wall gesture and eraser;
  - a different tool guard.

Inputs that come from outside the component are parameters: click
coordinates are in canvas space, and the draft's `Date.now()` room id is
passed in as the `newId` string.

## Model

| member | source | states |
|---|---|---|
| Seqs.Filter | src/components/RestaurantLayout.tsx:253-259 | The filtered list is no longer than the input, holds only input elements that satisfy the predicate, and keeps every element that does |
| Seqs.FilterSubsequence | src/components/RestaurantLayout.tsx:408-412 | A filter keeps the input's order: its result is a subsequence of the input |
| Seqs.FilterPartition | src/components/RestaurantLayout.tsx:407-412 | Filtering by a predicate and by its negation splits the list: the two multisets add up to the original |
| Seqs.FilterIdempotent | src/components/RestaurantLayout.tsx:253-259 | Filtering a second time by the same predicate changes nothing |
| Seqs.FilterAppend | src/components/RestaurantLayout.tsx:390-393 | Filtering a concatenation is concatenating the filtered parts |
| Seqs.CountAppend | src/components/RestaurantLayout.tsx:390-393 | Counting matches over a concatenation adds up the counts of the parts |
| Geometry.IsPointInPolygon | src/utils/math.ts:1-11 | The loop over the index pairs (i, j), flipping `inside` at each crossing, returns the parity of the crossings of the rightward ray (InPolygon). The division is evaluated only after the straddle test, so its divisor is never zero |
| Geometry.CrossingsAppend | src/utils/math.ts:2-10 | The crossing count over a concatenation of edge lists is the sum of the counts |
| Geometry.CrossesReversed | src/utils/math.ts:6-7 | Whether the ray crosses an edge does not depend on which end of the edge comes first |
| Geometry.FewerThanThreeOutside | src/utils/math.ts:1-11 | A polygon with 0, 1 or 2 vertices contains no point |
| Geometry.OutsideVerticalRange | src/utils/math.ts:6 | A point at or above every vertex's y, or strictly below every vertex's y, is outside |
| Geometry.EdgesRotated | src/utils/math.ts:3-5 | Rotating the vertex list rotates the visited edge list the same way |
| Geometry.RotationInvariant | src/utils/math.ts:2-10 | Rotating the vertex list cyclically does not change the even-odd result |
| Geometry.SquarePolygon | src/utils/math.ts:13-21 | The square polygon has exactly four vertices |
| Geometry.SquareMembership | src/utils/math.ts:13-21 | On a square of positive size, the even-odd test is the half-open box test: the left and top edges belong to the square, the right and bottom edges do not |
| Geometry.SegmentDistanceSq | src/utils/math.ts:23-53 | The squared distance to the segment is never negative |
| Geometry.NearestPointOnSegment | src/utils/math.ts:31-48 | The nearest point is the segment's point at the projection parameter clamped to [0, 1]. Below 0 that is (x1, y1), above 1 it is (x2, y2), otherwise the foot of the perpendicular. For a zero-length segment the parameter is -1 |
| Geometry.SegmentDistanceMinimal | src/utils/math.ts:23-53 | No point of the segment is closer to (x, y) than the clamped nearest point |
| Geometry.OnSegmentZero | src/utils/math.ts:23-53 | Every point of the segment is at distance 0 from it |
| Geometry.EndpointsZero | src/utils/math.ts:23-53 | Both endpoints are at distance 0 |
| Geometry.ZeroMeansOnSegment | src/utils/math.ts:50-52 | Distance 0 means the point is its own nearest point, so it lies on the segment |
| Geometry.ZeroLengthSegment | src/utils/math.ts:31-39 | For a zero-length segment the distance is the distance to (x1, y1) |
| Geometry.Round | src/utils/math.ts:56-57 | `Math.round` gives the integer within half a unit, halves rounded up |
| Geometry.SnapIsMultiple | src/utils/math.ts:55-59 | A snapped coordinate is an integer multiple of the grid size |
| Geometry.SnapWithinHalf | src/utils/math.ts:55-59 | A snapped coordinate lies within half a grid unit of the input |
| Geometry.SnapNearest | src/utils/math.ts:55-59 | No multiple of the grid is closer to the input than the snapped coordinate |
| Geometry.SnapOfMultiple | src/utils/math.ts:55-59 | A coordinate that is already a multiple of the grid is unchanged |
| Geometry.SnapIdempotent | src/utils/math.ts:55-59 | Snapping twice is snapping once |
| Walls.RectWalls | src/components/RestaurantLayout.tsx:40-52 | The initial room has four walls |
| Walls.RectWallsCyclic | src/components/RestaurantLayout.tsx:274-294 | The four walls (0,0)→(w,0)→(w,h)→(0,h)→(0,0) are the cyclic chain of the rectangle's corners. They form a closed chain, and their start points are the corners |
| Walls.CyclicWalls | src/components/RestaurantLayout.tsx:401-404 | One wall per point |
| Walls.CyclicWallsClosed | src/components/RestaurantLayout.tsx:401-404 | The walls built as point i to point (i+1) mod n form a closed chain. Reading their start points back gives the point list itself, with the closing duplicate point included |
| Walls.ClosedChainFromStarts | src/components/RestaurantLayout.tsx:194-196 | A closed chain is determined by its wall starts: rebuilding it cyclically from them gives it back |
| Walls.EraseWalls | src/components/RestaurantLayout.tsx:254-257 | The eraser keeps exactly the walls at squared distance greater than 25 from the click, and nothing else |
| Walls.EraseRemovesWallThroughClick | src/components/RestaurantLayout.tsx:254-257 | A wall through the click (an endpoint or any point between) is erased |
| Walls.EraseWallsKeepsOrder | src/components/RestaurantLayout.tsx:254-257 | The kept walls are a subsequence of the room's walls: they keep their order around the room |
| Walls.EraseWallsIdempotent | src/components/RestaurantLayout.tsx:253-259 | Erasing twice at the same click erases nothing more |
| Layout.PlaceTable | src/components/RestaurantLayout.tsx:190-216 | Table placement keeps the number of rooms |
| Layout.PlaceTableFirst | src/components/RestaurantLayout.tsx:190-216 | Let room i be the first room, in list order, that contains the snapped point (or has no walls) and has no table closer than 40 on both axes. Room i alone gains the new table, with four chairs, at the end of its list. Every other room is unchanged |
| Layout.PlaceTableNone | src/components/RestaurantLayout.tsx:190-216 | When no room accepts the point, the rooms are unchanged |
| Layout.PlaceTableAddsAtMostOne | src/components/RestaurantLayout.tsx:190-216 | At most one room changes. The one that changes accepts the point and gains exactly the new table |
| Layout.FirstAccepting | src/components/RestaurantLayout.tsx:204-212 | The index found is the first accepting room |
| Layout.AddTableOnce | src/components/RestaurantLayout.tsx:190-216 | The map over the rooms with the `tableAdded` flag computes PlaceTable |
| Layout.ContainsPoint | src/components/RestaurantLayout.tsx:194-196 | A room with walls contains the point when the point is inside its wall-start polygon. A room with no walls contains every point |
| Layout.EraseEach | src/components/RestaurantLayout.tsx:253-258 | The eraser's map keeps the number of rooms |
| Layout.EraseAtSpec | src/components/RestaurantLayout.tsx:251-262 | Each room left after erasing is an original room with only its far walls, and at least one wall. Every original room with a far wall remains. The remaining rooms keep their order (a subsequence of the erased list), which decides which room comes first and so becomes the root that `createNewRoom` reads. Sub-rooms are untouched |
| Layout.WithPreviewSpec | src/components/RestaurantLayout.tsx:385-393 | After a preview update, exactly one temporary room is in the list, and it is the last. Its walls close around the drawn points. The other rooms are exactly the permanent rooms from before, in their order |
| Layout.NewRoomTables | src/components/RestaurantLayout.tsx:406-424 | Room creation splits the root's tables. The new room gets those inside the polygon and the root keeps those outside. Each part keeps the original order, and together they are exactly the original tables |
| Layout.SplitTables | src/components/RestaurantLayout.tsx:407-412 | The inside and outside filters partition a table list, each part in order |
| Layout.NewRoomPlacement | src/components/RestaurantLayout.tsx:414-424 | The root keeps its id and walls and gains the new room as its last sub-room. The new room has id = the list's length, walls closing around the points, no sub-rooms, and is permanent |
| Layout.NewRoomDropsTemporary | src/components/RestaurantLayout.tsx:421-424 | After the root, room creation keeps exactly the permanent rooms, in order |
| Layout.FirstWithId | src/components/RestaurantLayout.tsx:455 | `find` returns a listed room with the id |
| Layout.FirstWithIdIsFirst | src/components/RestaurantLayout.tsx:455 | `find` returns the first room with the id |
| Layout.DeleteRoomRecursive | src/components/RestaurantLayout.tsx:446-464 | Deletion keeps the number of top-level rooms, and each room's id, walls and temporary flag |
| Layout.DeleteIn | src/components/RestaurantLayout.tsx:447-462 | Rebuilding one room keeps its id, walls and temporary flag |
| Layout.DeleteAbsent | src/components/RestaurantLayout.tsx:446-464 | Deleting an id that occurs nowhere in the tree changes nothing |
| Layout.DeleteLeavesNoNested | src/components/RestaurantLayout.tsx:446-464 | After deletion, no sub-room at any depth has the id. Top-level matches are kept, but collapsed |
| Layout.DeleteIdempotent | src/components/RestaurantLayout.tsx:444-468 | Deleting the same id twice is deleting it once |
| Layout.DeleteChildPromotes | src/components/RestaurantLayout.tsx:453-460 | When a direct child has the id, the parent's tables become its own followed by the first matching child's own tables. Every matching child is gone, and the sub-rooms are exactly the children with other ids, in their order, each with the deletion applied inside it |
| Layout.DeleteKeepsOthers | src/components/RestaurantLayout.tsx:454-459 | Dropping the rooms with the id after deleting equals deleting inside the rooms with other ids: no other room is dropped, added or reordered |
| Layout.DeleteCons | src/components/RestaurantLayout.tsx:447-463 | Deleting in a list is deleting in its first room, followed by deleting in the rest |
| Layout.DeleteKeepsUnrelated | src/components/RestaurantLayout.tsx:462 | A room that neither has the id nor has a direct child with it keeps its own tables and all its sub-rooms, each with the deletion applied inside |
| Layout.DeleteTopLevelCollapses | src/components/RestaurantLayout.tsx:448-451 | A matching room's tables become exactly its own tables followed by the own tables of its direct sub-rooms, in order; so every such table is there. It loses its sub-rooms |
| Layout.OwnTablesContains | src/components/RestaurantLayout.tsx:450 | `flatMap` over the sub-rooms contains every sub-room's own tables |
| LayoutEditor.RoomClick | src/components/RestaurantLayout.tsx:355-398 | One room-tool click keeps the drawing invariant: drawing means the room tool with at least one point, not drawing means no points, and two or more points mean a temporary room exists. From two points on, the list is the preview of exactly the current points |
| LayoutEditor.Clicks | src/components/RestaurantLayout.tsx:355-398 | Any click sequence keeps the drawing invariant |
| LayoutEditor.WithPreviewTwice | src/components/RestaurantLayout.tsx:390-393 | A new preview replaces the old one: only the latest points are shown |
| LayoutEditor.DrawingPrefix | src/components/RestaurantLayout.tsx:368-397 | While the clicks avoid the first point, each click extends the point list. From two points on, the preview of all points is shown |
| LayoutEditor.ExtendDrawing | src/components/RestaurantLayout.tsx:374-397 | A click at a point other than the first appends it and refreshes the preview |
| LayoutEditor.DrawingCreatesRoom | src/components/RestaurantLayout.tsx:355-430 | From idle, clicking two or more distinct points and then the first one again creates the room from all clicked points, the closing duplicate included. It ends the drawing with no tool selected |
| LayoutEditor.Editor.constructor | src/components/RestaurantLayout.tsx:38-60 | The initial state is a 1000 × 800 canvas with the single root room (id 0, four rectangle walls, no tables or sub-rooms), no tool and no gesture |
| LayoutEditor.Editor.HandleCanvasClick | src/components/RestaurantLayout.tsx:177-221 | With the room tool it makes a drawing click. With the table tool the rooms become PlaceTable at the point snapped to the 20-grid. Otherwise nothing changes |
| LayoutEditor.Editor.HandleRoomCreation | src/components/RestaurantLayout.tsx:355-398 | The drawing part of the state becomes RoomClick at the snapped point. The drawing invariant is kept |
| LayoutEditor.Editor.CreateNewRoom | src/components/RestaurantLayout.tsx:400-430 | The rooms become NewRoomList. Drawing ends and no tool is selected |
| LayoutEditor.Editor.HandleCanvasDoubleClick | src/components/RestaurantLayout.tsx:224-264 | Wall tool, no pending point: the click is recorded. Wall tool, point pending: one room is appended (id = the old list length, a single unsnapped wall from the point to the click, no tables), the point is cleared and the tool is no longer in use. Eraser: the rooms become EraseAt |
| LayoutEditor.Editor.HandleToolSelect | src/components/RestaurantLayout.tsx:296-308 | Nothing changes while a room is being drawn. Otherwise leaving the wall tool clears the pending point, and the tool is in use exactly when it is the wall or the room tool |
| LayoutEditor.Editor.HandleDeleteRoom | src/components/RestaurantLayout.tsx:444-468 | The rooms become DeleteRoomRecursive, and nothing else changes |
| LayoutEditor.Editor.HandleReset | src/components/RestaurantLayout.tsx:274-294 | The plan is again the single root room of the current size, and all gesture state is cleared |
| LayoutEditor.Editor.SetWidth | src/components/RestaurantLayout.tsx:520 | Only the width changes |
| LayoutEditor.Editor.SetHeight | src/components/RestaurantLayout.tsx:525 | Only the height changes |
| Draft.ChairSlotAsWritten | src/restaurant-layout/src/components/RestaurantLayout.tsx:161-172 | The source's slot choice is one of the four slots |
| Draft.ChairSlotAsWrittenFlipsFarSide | src/restaurant-layout/src/components/RestaurantLayout.tsx:169-172 | For a click at (90, 100) on a table at (100, 100), the source flips slot 1, the right-hand chair, which is the chair farthest from the click |
| Draft.ChairSlot | src/restaurant-layout/src/components/RestaurantLayout.tsx:161-172 | The corrected slot choice is one of the four slots |
| Draft.ChairSlotNearest | src/restaurant-layout/src/components/RestaurantLayout.tsx:104-114 | The corrected slot is a chair nearest the click: no chair lies further towards it |
| Draft.ChairSlotCorrection | src/restaurant-layout/src/components/RestaurantLayout.tsx:161-172 | The corrected slot agrees with the source on the vertical axis. On the horizontal axis, ties included, it is the opposite chair |
| Draft.FlipChair | src/restaurant-layout/src/components/RestaurantLayout.tsx:160-172 | Flipping changes only the chosen slot. A slot past the end extends the list, and the gap reads as absent |
| Draft.FlipChairTwice | src/restaurant-layout/src/components/RestaurantLayout.tsx:160-172 | Flipping a present slot twice restores the chairs |
| Draft.SlotFor | src/restaurant-layout/src/components/RestaurantLayout.tsx:161-172 | The slot a rule picks is one of the four slots |
| Draft.Classify | src/restaurant-layout/src/components/RestaurantLayout.tsx:153-178 | A toggle always names one of the four slots |
| Draft.ClassifyRules | src/restaurant-layout/src/components/RestaurantLayout.tsx:161-172 | The two slot rules classify every table the same way, apart from the slot of a toggle. That slot is the same for a vertical click and the opposite chair for a horizontal one |
| Draft.ClickLeftOfTable | src/restaurant-layout/src/components/RestaurantLayout.tsx:169-172 | For a four-chair table at (100, 100) and a click at (90, 100), the rule as written leaves chairs [on, off, on, on] and the corrected rule leaves [on, on, on, off] |
| Draft.ClassifyZones | src/restaurant-layout/src/components/RestaurantLayout.tsx:153-178 | A table is deleted exactly when it is within 5 of the click on both axes. It is toggled exactly when it is within 20 on both axes (clickInSquare) and not deleted. It reacts at all exactly when it is within 40 on both axes |
| Draft.KeptTables | src/restaurant-layout/src/components/RestaurantLayout.tsx:153-180 | The filter never lengthens a room's table list |
| Draft.KeptTablesSound | src/restaurant-layout/src/components/RestaurantLayout.tsx:153-180 | Every kept table is a table outside the delete zone, as ClickTable makes it: same place, at most its chosen chair flipped |
| Draft.KeptTableOrigin | src/restaurant-layout/src/components/RestaurantLayout.tsx:153-180 | Returns the index of the table outside the delete zone that a given kept table comes from |
| Draft.KeptTablesComplete | src/restaurant-layout/src/components/RestaurantLayout.tsx:153-180 | Every table outside the delete zone is kept, as ClickTable makes it |
| Draft.KeptTablesSnoc | src/restaurant-layout/src/components/RestaurantLayout.tsx:153-179 | Filtering one more table at the back appends its clicked version, unless it is deleted |
| Draft.KeptTablesRules | src/restaurant-layout/src/components/RestaurantLayout.tsx:153-180 | Under either slot rule, the filter keeps the same number of tables, at the same places |
| Draft.ClickTableKeepsPlace | src/restaurant-layout/src/components/RestaurantLayout.tsx:175 | A click never moves a table, so the table's classification does not change either |
| Draft.ClickTableTwice | src/restaurant-layout/src/components/RestaurantLayout.tsx:160-175 | Clicking a table twice at the same point restores it, when the flipped chair exists |
| Draft.KeptTablesTwice | src/restaurant-layout/src/components/RestaurantLayout.tsx:153-180 | When the click deletes nothing and flips only present chairs, filtering twice gives the tables back |
| Draft.KeptTablesFar | src/restaurant-layout/src/components/RestaurantLayout.tsx:177-178 | Tables that are all far from the click pass through unchanged |
| Draft.FlipPresentStaysPresent | src/restaurant-layout/src/components/RestaurantLayout.tsx:160-172 | A click never shortens a table's chair list |
| Draft.FilterRooms | src/restaurant-layout/src/components/RestaurantLayout.tsx:152-181 | Filtering keeps the number of rooms |
| Draft.PushEverywhere | src/restaurant-layout/src/components/RestaurantLayout.tsx:182-187 | Pushing keeps the number of rooms |
| Draft.TableClick | src/restaurant-layout/src/components/RestaurantLayout.tsx:146-190 | A table click keeps the number of rooms |
| Draft.TableClickAdds | src/restaurant-layout/src/components/RestaurantLayout.tsx:177-187 | The click is blocked exactly when some table of some room is within 40 of the raw click on both axes. When it is not, the same snapped four-chair table is pushed onto every room. When it is, nothing is pushed: the rooms are exactly the filtered rooms |
| Draft.TableClickRules | src/restaurant-layout/src/components/RestaurantLayout.tsx:146-190 | Both slot rules block the same clicks, so both add a table in the same cases. Both leave every room with its id, its walls and the same number of tables at the same places: they differ only in which chair is flipped |
| Draft.TableClickTwice | src/restaurant-layout/src/components/RestaurantLayout.tsx:146-190 | A click that reacts somewhere but deletes nothing and flips only present chairs is undone by the same click |
| Draft.StillBlocked | src/restaurant-layout/src/components/RestaurantLayout.tsx:159-178 | A table that reacted to the click is still there after the filter, and still reacts |
| Draft.FilterTables | src/restaurant-layout/src/components/RestaurantLayout.tsx:153-180 | The filter pass, under the given slot rule, returns KeptTables. Its three flags are set exactly when some table is deleted, toggled, or only nearby. The editor runs it with the rule as written, which is the source's own `dx > 0` branch |
| Draft.TableClickUpdate | src/restaurant-layout/src/components/RestaurantLayout.tsx:146-190 | The map with flags OR-ed across rooms, and the conditional push loop, compute TableClick |
| Draft.EraseEach | src/restaurant-layout/src/components/RestaurantLayout.tsx:222-226 | Filtering every room's walls keeps the number of rooms |
| Draft.EraseAtSpec | src/restaurant-layout/src/components/RestaurantLayout.tsx:220-231 | Each room left after erasing is an original room with only its far walls, and at least one wall. Every room with a wall far from the click remains. The remaining rooms keep their order |
| Draft.DraftEditor.constructor | src/restaurant-layout/src/components/RestaurantLayout.tsx:11-27 | The initial state is 1000 × 800, the single "Room0" with the rectangle walls and no tables, no tool and no pending point |
| Draft.DraftEditor.HandleCanvasClick | src/restaurant-layout/src/components/RestaurantLayout.tsx:136-191 | With the table tool, the rooms become TableClick under the slot rule as written. Otherwise nothing changes |
| Draft.DraftEditor.HandleCanvasDoubleClick | src/restaurant-layout/src/components/RestaurantLayout.tsx:194-233 | The wall gesture records the first point, then appends a room with the given id, holding the single wall from the point to the click. It clears the point and the in-use flag. Eraser: the rooms become EraseAt |
| Draft.DraftEditor.HandleToolSelect | src/restaurant-layout/src/components/RestaurantLayout.tsx:261-274 | Selection is refused only while the wall tool is in use with a pending point. Otherwise leaving the wall tool clears the point, and the tool is in use exactly when it is the wall tool |
| Draft.DraftEditor.HandleReset | src/restaurant-layout/src/components/RestaurantLayout.tsx:243-259 | The plan is again "Room0" of the current size with no tables. The tool, the in-use flag and the pending point are cleared |

## Left out

- Canvas rendering is not modelled. This covers grid, rooms, tables, chairs and the temporary point, and all of `src/utils/drawFunctions.ts`: they only draw. The chair drawing offsets are used only to state which chair is nearest a click.
- The view components, JSX markup, the inline room list, export and import are not modelled. They are presentation, or browser file I/O and JSON library calls.
- React scheduling is not modelled. Each handler runs its updaters one after another, as sequential statements. Two consequences:
  - the room-drawing updater reads the `isDrawingRoom` value from before the click, as the source's closure does;
  - double invocation of updaters in development mode is out of scope.
- The canvas offset (`getBoundingClientRect`) is not modelled: clicks are given in canvas coordinates.
- The draft's `Date.now()` id is a parameter. The model relies on nothing about its uniqueness.
- Coordinates are exact reals. Floating-point rounding and `Math.sqrt` are not modelled; the distance is compared squared with 25.
- Room ids are not proved unique. New ids are the list length, which counts the temporary preview room, so two rooms can get the same id. Deletion handles repeated ids as the source does.
- When a nested room is deleted, only its own tables are promoted; its sub-rooms' tables are lost. The model reproduces this and proves nothing stronger.
- The `roomPoints` state of the main editor is written by reset but never read, so it is not a field.
- Table move and merge, seat prompts for round tables and room rename have no implementation in the source, so they are not modelled.
- The draft flips the chair array in place, through an alias of the table's own array. The model computes the same resulting table as a value. It does not model the sharing of that array with the previous state.
- LayoutEditor.Editor.HandleToolSelect and Draft.DraftEditor.HandleToolSelect: these require a tool other than `NoTool`, because the source's parameter type excludes `null`.
- LayoutEditor.Editor.CreateNewRoom: this requires a non-empty room list, because the source reads `prevRooms[0]`. The class invariant shows every call from `HandleRoomCreation` meets it.
- The canonical `Types.Room` and table shape (with `name` and table `type`) are declared but not used by either editor: each component file has its own older shape.

## Findings

| source | as written | input that shows it | evidently intended | confidence | as-written member | corrected member |
|---|---|---|---|---|---|---|
| src/restaurant-layout/src/components/RestaurantLayout.tsx:169-172 | On the horizontal axis, `dx > 0` (click left of the table) flips slot 1, the right-hand chair, and `dx <= 0` flips slot 3, the left-hand chair. The vertical axis flips the chair on the click's side | table at (100, 100), click at (90, 100): dx = 10, dy = 0, slot 1 (right) is flipped | flip the chair on the side of the click, as the vertical branch does: slot 3 when dx > 0, else slot 1 | medium, not executed | Draft.ChairSlotAsWritten, Draft.ChairSlotAsWrittenFlipsFarSide | Draft.ChairSlot, Draft.ChairSlotNearest |

Every table-click member of `Draft` takes the slot rule as a parameter,
and their lemmas hold under both rules. `Draft.DraftEditor` models the
program, so it runs the rule as written. `Draft.ClassifyRules`,
`Draft.ClickLeftOfTable` and `Draft.TableClickRules` state how the two
rules differ: only in the chair flipped by a horizontal click.
