/**
 * The earlier draft of the editor component
 * (src/restaurant-layout/src/components/RestaurantLayout.tsx): rooms with
 * string ids and no nesting, a table tool whose click deletes a table,
 * flips one of its chairs or adds a new table to every room, the same
 * two-step wall gesture and eraser, and its own tool guard.
 *
 * Chair lists are values here. In the source the flip writes into the
 * table's own array through an alias and the filter keeps that same table
 * object, so the kept table ends up with the flipped chairs: the value the
 * model computes. A chair slot beyond the end of the list reads as absent
 * (`undefined`), which behaves as `false`; flipping it makes it `true`.
 */
module Draft {
  import opened Seqs
  import opened Geometry
  import opened Walls
  import Types

  /** A table of the draft: a position and one flag per chair. */
  datatype Table = Table(x: real, y: real, chairs: seq<bool>)

  /** A room of the draft: a string id, walls and tables, no sub-rooms. */
  datatype Room = Room(id: string, walls: seq<Wall>, tables: seq<Table>)

  /** The draft's tools: there is no room tool. */
  datatype Tool = WallTool | EraserTool | TableTool | NoTool

  /** A click closer than this to a table on both axes deletes it. */
  const DeleteDistance: real := 5.0

  /** A table closer than this to the click on both axes stops a new table. */
  const NearDistance: real := 40.0

  /** The only room of the initial and the reset state. */
  function InitialRoom(width: real, height: real): Room
  {
    Room("Room0", RectWalls(width, height), [])
  }

  function NewTable(x: real, y: real): Table
  {
    Table(x, y, [true, true, true, true])
  }

  // ---------------------------------------------------------------------
  // Chairs
  // ---------------------------------------------------------------------

  /** Where chair `slot` is drawn, relative to the table: top, right, bottom, left. */
  function ChairOffset(slot: nat): Point
    requires slot < 4
  {
    if slot == 0 then Point(0.0, -10.0)
    else if slot == 1 then Point(10.0, 0.0)
    else if slot == 2 then Point(0.0, 10.0)
    else Point(-10.0, 0.0)
  }

  /**
   * How far chair `slot` lies towards the click, for dx = table.x - click.x
   * and dy = table.y - click.y: the chair's offset projected on the
   * direction from the table to the click (scaled by its length).
   */
  function Toward(slot: nat, dx: real, dy: real): real
    requires slot < 4
  {
    var o := ChairOffset(slot);
    -(o.x * dx + o.y * dy)
  }

  /**
   * The slot the source picks: the dominant axis decides, ties going to
   * the horizontal pair; on that axis the sign of dx or dy picks the side.
   */
  function ChairSlotAsWritten(dx: real, dy: real): (slot: nat)
    ensures slot < 4
  {
    if Abs(dy) > Abs(dx) then (if dy > 0.0 then 0 else 2)
    else (if dx > 0.0 then 1 else 3)
  }

  /**
   * A click just left of a table (at (90, 100) for a table at (100, 100))
   * flips the right-hand chair, which is the chair farthest from the click;
   * the left-hand chair sits exactly at the click.
   */
  lemma ChairSlotAsWrittenFlipsFarSide()
    ensures var dx := 100.0 - 90.0;
            var dy := 100.0 - 100.0;
            ChairSlotAsWritten(dx, dy) == 1 && ChairOffset(1).x > 0.0
            && Toward(ChairSlotAsWritten(dx, dy), dx, dy) < Toward(3, dx, dy)
            && (forall k :: 0 <= k < 4 ==> Toward(ChairSlotAsWritten(dx, dy), dx, dy) <= Toward(k, dx, dy))
  {
  }

  /**
   * The slot the model uses: the same dominant-axis rule with the
   * horizontal sides matched to the click as the vertical ones already
   * are (a click above flips the top chair, a click to the left the left one).
   */
  function ChairSlot(dx: real, dy: real): (slot: nat)
    ensures slot < 4
  {
    if Abs(dy) > Abs(dx) then (if dy > 0.0 then 0 else 2)
    else (if dx > 0.0 then 3 else 1)
  }

  /** The corrected slot is a chair nearest the click: no other chair lies further towards it. */
  lemma ChairSlotNearest(dx: real, dy: real)
    ensures forall k :: 0 <= k < 4 ==> Toward(k, dx, dy) <= Toward(ChairSlot(dx, dy), dx, dy)
    ensures Toward(ChairSlot(dx, dy), dx, dy) >= 0.0
  {
  }

  /** The corrected slot differs from the source's only for horizontal clicks, where it is the opposite chair. */
  lemma ChairSlotCorrection(dx: real, dy: real)
    ensures Abs(dy) > Abs(dx) ==> ChairSlot(dx, dy) == ChairSlotAsWritten(dx, dy)
    ensures Abs(dy) <= Abs(dx) ==> ChairSlot(dx, dy) == (ChairSlotAsWritten(dx, dy) + 2) % 4
  {
  }

  /**
   * Which slot rule a table click runs: the source's own (`AsWritten`) or
   * the corrected one (`Nearest`). Every table-click member takes the rule,
   * and its lemmas hold for both.
   */
  datatype SlotRule = AsWritten | Nearest

  function SlotFor(rule: SlotRule, dx: real, dy: real): (slot: nat)
    ensures slot < 4
  {
    match rule
    case AsWritten => ChairSlotAsWritten(dx, dy)
    case Nearest => ChairSlot(dx, dy)
  }

  /** Chair k: absent slots read as false. */
  function Chair(chairs: seq<bool>, k: nat): bool
  {
    if k < |chairs| then chairs[k] else false
  }

  /**
   * `chairs[slot] = !chairs[slot]`: only that slot changes; writing past
   * the end extends the list, the gap reading as absent.
   */
  function FlipChair(chairs: seq<bool>, slot: nat): (r: seq<bool>)
    ensures |r| == if slot < |chairs| then |chairs| else slot + 1
    ensures r[slot] == !Chair(chairs, slot)
    ensures forall k :: 0 <= k < |r| && k != slot ==> r[k] == Chair(chairs, k)
  {
    if slot < |chairs| then chairs[slot := !chairs[slot]]
    else chairs + seq(slot - |chairs|, _ => false) + [true]
  }

  /** Flipping the same present slot twice restores the chairs. */
  lemma FlipChairTwice(chairs: seq<bool>, slot: nat)
    requires slot < |chairs|
    ensures FlipChair(FlipChair(chairs, slot), slot) == chairs
  {
  }

  // ---------------------------------------------------------------------
  // Table click
  // ---------------------------------------------------------------------

  /** What a click does to one table. */
  datatype Effect = Delete | Toggle(slot: nat) | Near | Far

  /**
   * Classify a table against the raw click: inside the delete zone it is
   * deleted; else within `Limit` on both axes the chair the rule picks is
   * flipped; else within `NearDistance` on both axes it only counts as nearby.
   */
  function Classify(t: Table, clickX: real, clickY: real, rule: SlotRule): (e: Effect)
    ensures e.Toggle? ==> e.slot < 4
  {
    var dx := t.x - clickX;
    var dy := t.y - clickY;
    if Abs(dx) < DeleteDistance && Abs(dy) < DeleteDistance then Delete
    else if ClickInSquare(t.x, t.y, clickX, clickY) then Toggle(SlotFor(rule, dx, dy))
    else if Abs(t.x - clickX) < NearDistance && Abs(t.y - clickY) < NearDistance then Near
    else Far
  }

  /**
   * The three zones are nested squares around the click, so a table does
   * something other than nothing exactly when it is within `NearDistance`
   * on both axes.
   */
  lemma ClassifyZones(t: Table, clickX: real, clickY: real, rule: SlotRule)
    ensures Classify(t, clickX, clickY, rule) != Far
        <==> Abs(t.x - clickX) < NearDistance && Abs(t.y - clickY) < NearDistance
    ensures Classify(t, clickX, clickY, rule) == Delete
        <==> Abs(t.x - clickX) < DeleteDistance && Abs(t.y - clickY) < DeleteDistance
    ensures Classify(t, clickX, clickY, rule).Toggle?
        <==> ClickInSquare(t.x, t.y, clickX, clickY)
             && !(Abs(t.x - clickX) < DeleteDistance && Abs(t.y - clickY) < DeleteDistance)
  {
  }

  /**
   * The two slot rules classify every table alike except for the slot of
   * a toggle: the same for a vertical click, the opposite chair for a
   * horizontal one.
   */
  lemma ClassifyRules(t: Table, clickX: real, clickY: real)
    ensures var a := Classify(t, clickX, clickY, AsWritten);
            var n := Classify(t, clickX, clickY, Nearest);
            var dx := t.x - clickX;
            var dy := t.y - clickY;
            (a == Delete <==> n == Delete) && (a == Near <==> n == Near) && (a == Far <==> n == Far)
            && (a.Toggle? <==> n.Toggle?)
            && (a.Toggle? && Abs(dy) > Abs(dx) ==> n.slot == a.slot)
            && (a.Toggle? && Abs(dy) <= Abs(dx) ==> n.slot == (a.slot + 2) % 4)
  {
    ChairSlotCorrection(t.x - clickX, t.y - clickY);
  }

  /**
   * The click of ChairSlotAsWrittenFlipsFarSide on a table with four
   * chairs: the source's rule takes away the right-hand chair, the
   * corrected rule the left-hand one, at the click.
   */
  lemma ClickLeftOfTable()
    ensures ClickTable(NewTable(100.0, 100.0), 90.0, 100.0, AsWritten).chairs == [true, false, true, true]
    ensures ClickTable(NewTable(100.0, 100.0), 90.0, 100.0, Nearest).chairs == [true, true, true, false]
  {
    assert ClickInSquare(100.0, 100.0, 90.0, 100.0);
  }

  /** A kept table after the click: its chosen chair flipped if it was toggled. */
  function ClickTable(t: Table, clickX: real, clickY: real, rule: SlotRule): Table
  {
    match Classify(t, clickX, clickY, rule)
    case Toggle(slot) => t.(chairs := FlipChair(t.chairs, slot))
    case _ => t
  }

  /**
   * The filter over one room's tables: deleted tables go, the others pass
   * through ClickTable. Its contract bounds only the length; what it keeps
   * is stated by KeptTablesSound and KeptTablesComplete.
   */
  function KeptTables(tables: seq<Table>, clickX: real, clickY: real, rule: SlotRule): (r: seq<Table>)
    ensures |r| <= |tables|
  {
    if tables == [] then []
    else
      var last := tables[|tables| - 1];
      KeptTables(tables[..|tables| - 1], clickX, clickY, rule)
        + (if Classify(last, clickX, clickY, rule) == Delete then [] else [ClickTable(last, clickX, clickY, rule)])
  }

  /**
   * Every kept table comes from a table outside the delete zone: the table
   * at its old position with at most its chosen chair changed.
   */
  lemma {:induction false} KeptTablesSound(tables: seq<Table>, clickX: real, clickY: real, rule: SlotRule)
    ensures var r := KeptTables(tables, clickX, clickY, rule);
            forall j :: 0 <= j < |r| ==>
              exists k :: 0 <= k < |tables| && Classify(tables[k], clickX, clickY, rule) != Delete
                       && r[j] == ClickTable(tables[k], clickX, clickY, rule)
  {
    var r := KeptTables(tables, clickX, clickY, rule);
    forall j | 0 <= j < |r|
      ensures exists k :: 0 <= k < |tables| && Classify(tables[k], clickX, clickY, rule) != Delete
                       && r[j] == ClickTable(tables[k], clickX, clickY, rule)
    {
      var k := KeptTableOrigin(tables, clickX, clickY, rule, j);
    }
  }

  /** The index of the table that kept table j comes from. */
  lemma {:induction false} KeptTableOrigin(tables: seq<Table>, clickX: real, clickY: real, rule: SlotRule, j: nat)
    returns (k: nat)
    requires j < |KeptTables(tables, clickX, clickY, rule)|
    ensures k < |tables| && Classify(tables[k], clickX, clickY, rule) != Delete
    ensures KeptTables(tables, clickX, clickY, rule)[j] == ClickTable(tables[k], clickX, clickY, rule)
  {
    var n := |tables| - 1;
    var init := tables[..n];
    var front := KeptTables(init, clickX, clickY, rule);
    assert KeptTables(tables, clickX, clickY, rule)
        == front + (if Classify(tables[n], clickX, clickY, rule) == Delete then [] else [ClickTable(tables[n], clickX, clickY, rule)]);
    if j < |front| {
      k := KeptTableOrigin(init, clickX, clickY, rule, j);
      assert init[k] == tables[k];
    } else {
      k := n;
    }
  }

  /** Every table outside the delete zone is kept, as ClickTable makes it. */
  lemma {:induction false} KeptTablesComplete(tables: seq<Table>, clickX: real, clickY: real, rule: SlotRule)
    ensures forall k :: 0 <= k < |tables| && Classify(tables[k], clickX, clickY, rule) != Delete ==>
              ClickTable(tables[k], clickX, clickY, rule) in KeptTables(tables, clickX, clickY, rule)
  {
    if tables != [] {
      var n := |tables| - 1;
      var init := tables[..n];
      KeptTablesComplete(init, clickX, clickY, rule);
      var front := KeptTables(init, clickX, clickY, rule);
      var r := KeptTables(tables, clickX, clickY, rule);
      assert r == front + (if Classify(tables[n], clickX, clickY, rule) == Delete then [] else [ClickTable(tables[n], clickX, clickY, rule)]);
      forall k | 0 <= k < |tables| && Classify(tables[k], clickX, clickY, rule) != Delete
        ensures ClickTable(tables[k], clickX, clickY, rule) in r
      {
        if k < n {
          assert init[k] == tables[k];
          assert ClickTable(init[k], clickX, clickY, rule) in front;
        } else {
          assert r[|r| - 1] == ClickTable(tables[n], clickX, clickY, rule);
        }
      }
    }
  }

  /** A click leaves a table's position alone, and with it the table's classification. */
  lemma ClickTableKeepsPlace(t: Table, clickX: real, clickY: real, rule: SlotRule)
    ensures ClickTable(t, clickX, clickY, rule).x == t.x && ClickTable(t, clickX, clickY, rule).y == t.y
    ensures Classify(ClickTable(t, clickX, clickY, rule), clickX, clickY, rule) == Classify(t, clickX, clickY, rule)
  {
  }

  /** Clicking a table twice at the same point restores it when the flipped chair exists. */
  lemma ClickTableTwice(t: Table, clickX: real, clickY: real, rule: SlotRule)
    requires var e := Classify(t, clickX, clickY, rule); e.Toggle? ==> e.slot < |t.chairs|
    ensures ClickTable(ClickTable(t, clickX, clickY, rule), clickX, clickY, rule) == t
  {
    ClickTableKeepsPlace(t, clickX, clickY, rule);
    match Classify(t, clickX, clickY, rule)
    case Toggle(slot) => FlipChairTwice(t.chairs, slot);
    case _ =>
  }

  /** A click's effect can be undone by the same click when it deletes no table and flips only present chairs. */
  predicate Reversible(tables: seq<Table>, clickX: real, clickY: real, rule: SlotRule)
  {
    forall k :: 0 <= k < |tables| ==>
      var e := Classify(tables[k], clickX, clickY, rule);
      e != Delete && (e.Toggle? ==> e.slot < |tables[k].chairs|)
  }

  /** Under Reversible, filtering twice gives the tables back. */
  lemma {:induction false} KeptTablesTwice(tables: seq<Table>, clickX: real, clickY: real, rule: SlotRule)
    requires Reversible(tables, clickX, clickY, rule)
    ensures KeptTables(tables, clickX, clickY, rule) == [] || Reversible(KeptTables(tables, clickX, clickY, rule), clickX, clickY, rule)
    ensures KeptTables(KeptTables(tables, clickX, clickY, rule), clickX, clickY, rule) == tables
  {
    if tables != [] {
      var n := |tables| - 1;
      var init := tables[..n];
      var last := tables[n];
      assert init + [last] == tables;
      ReversibleSplit(tables, clickX, clickY, rule);
      KeptTablesTwice(init, clickX, clickY, rule);
      var once := KeptTables(init, clickX, clickY, rule);
      var t1 := ClickTable(last, clickX, clickY, rule);
      KeptTablesSnoc(init, last, clickX, clickY, rule);
      ClickTableKeepsPlace(last, clickX, clickY, rule);
      ClickTableTwice(last, clickX, clickY, rule);
      FlipPresentStaysPresent(last, clickX, clickY, rule);
      ReversibleSnoc(once, t1, clickX, clickY, rule);
      KeptTablesSnoc(once, t1, clickX, clickY, rule);
    }
  }

  /** KeptTables over a list with one more table at the back. */
  lemma KeptTablesSnoc(tables: seq<Table>, t: Table, clickX: real, clickY: real, rule: SlotRule)
    ensures KeptTables(tables + [t], clickX, clickY, rule)
         == KeptTables(tables, clickX, clickY, rule)
            + (if Classify(t, clickX, clickY, rule) == Delete then [] else [ClickTable(t, clickX, clickY, rule)])
  {
    assert (tables + [t])[..|tables|] == tables;
  }

  /** Reversible splits into its front and its last table. */
  lemma ReversibleSplit(tables: seq<Table>, clickX: real, clickY: real, rule: SlotRule)
    requires tables != [] && Reversible(tables, clickX, clickY, rule)
    ensures Reversible(tables[..|tables| - 1], clickX, clickY, rule)
    ensures var e := Classify(tables[|tables| - 1], clickX, clickY, rule);
            e != Delete && (e.Toggle? ==> e.slot < |tables[|tables| - 1].chairs|)
  {
    var init := tables[..|tables| - 1];
    forall k | 0 <= k < |init| ensures init[k] == tables[k] { }
  }

  /** Appending a table the click neither deletes nor extends keeps Reversible. */
  lemma ReversibleSnoc(tables: seq<Table>, t: Table, clickX: real, clickY: real, rule: SlotRule)
    requires tables == [] || Reversible(tables, clickX, clickY, rule)
    requires var e := Classify(t, clickX, clickY, rule); e != Delete && (e.Toggle? ==> e.slot < |t.chairs|)
    ensures Reversible(tables + [t], clickX, clickY, rule)
  {
    forall k | 0 <= k < |tables + [t]|
      ensures var e := Classify((tables + [t])[k], clickX, clickY, rule);
              e != Delete && (e.Toggle? ==> e.slot < |(tables + [t])[k].chairs|)
    {
      if k < |tables| {
        assert (tables + [t])[k] == tables[k];
      }
    }
  }

  /** A present chair stays present after the click: the chair list does not shrink. */
  lemma FlipPresentStaysPresent(t: Table, clickX: real, clickY: real, rule: SlotRule)
    ensures |ClickTable(t, clickX, clickY, rule).chairs| >= |t.chairs|
  {
  }

  /** Some table in some room is within `NearDistance` of the click on both axes. */
  predicate Blocked(rooms: seq<Room>, clickX: real, clickY: real, rule: SlotRule)
  {
    exists i, k :: 0 <= i < |rooms| && 0 <= k < |rooms[i].tables|
      && Classify(rooms[i].tables[k], clickX, clickY, rule) != Far
  }

  /** Every room with its tables filtered by the click (KeptTables room by room). */
  function FilterRooms(rooms: seq<Room>, clickX: real, clickY: real, rule: SlotRule): (r: seq<Room>)
    ensures |r| == |rooms|
  {
    seq(|rooms|, i requires 0 <= i < |rooms| =>
      rooms[i].(tables := KeptTables(rooms[i].tables, clickX, clickY, rule)))
  }

  /** Every room with one more table at the end; TableClickAdds says when this happens. */
  function PushEverywhere(rooms: seq<Room>, t: Table): (r: seq<Room>)
    ensures |r| == |rooms|
  {
    seq(|rooms|, i requires 0 <= i < |rooms| => rooms[i].(tables := rooms[i].tables + [t]))
  }

  /**
   * Reference definition of a table-tool click: filter every room; unless
   * some table anywhere was deleted, toggled or nearby, push a new table at
   * the snapped point onto every room. Its contract keeps only the number
   * of rooms; TableClickAdds, TableClickTwice and TableClickRules state
   * what it does to them.
   */
  function TableClick(rooms: seq<Room>, clickX: real, clickY: real, rule: SlotRule): (r: seq<Room>)
    ensures |r| == |rooms|
  {
    var updated := FilterRooms(rooms, clickX, clickY, rule);
    if Blocked(rooms, clickX, clickY, rule) then updated
    else PushEverywhere(updated, NewTable(Snap(clickX, Limit), Snap(clickY, Limit)))
  }

  /**
   * A click adds a table exactly when no table of any room is within
   * `NearDistance` of the raw click on both axes, and then it adds the same
   * new table, snapped and with four chairs, to every room.
   */
  lemma TableClickAdds(rooms: seq<Room>, clickX: real, clickY: real, rule: SlotRule)
    ensures var r := TableClick(rooms, clickX, clickY, rule);
            var nt := NewTable(Snap(clickX, Limit), Snap(clickY, Limit));
            (!Blocked(rooms, clickX, clickY, rule) <==>
              forall i, k :: 0 <= i < |rooms| && 0 <= k < |rooms[i].tables| ==>
                !(Abs(rooms[i].tables[k].x - clickX) < NearDistance && Abs(rooms[i].tables[k].y - clickY) < NearDistance))
            && (!Blocked(rooms, clickX, clickY, rule) ==>
                  forall i :: 0 <= i < |rooms| ==> r[i].tables == rooms[i].tables + [nt])
            && (Blocked(rooms, clickX, clickY, rule) ==> r == FilterRooms(rooms, clickX, clickY, rule))
  {
    forall i, k | 0 <= i < |rooms| && 0 <= k < |rooms[i].tables| {
      ClassifyZones(rooms[i].tables[k], clickX, clickY, rule);
    }
    if !Blocked(rooms, clickX, clickY, rule) {
      forall i | 0 <= i < |rooms| ensures KeptTables(rooms[i].tables, clickX, clickY, rule) == rooms[i].tables {
        KeptTablesFar(rooms[i].tables, clickX, clickY, rule);
      }
    }
  }

  /** The table filter under either slot rule keeps the same tables at the same places. */
  lemma {:induction false} KeptTablesRules(tables: seq<Table>, clickX: real, clickY: real)
    ensures var a := KeptTables(tables, clickX, clickY, AsWritten);
            var n := KeptTables(tables, clickX, clickY, Nearest);
            |a| == |n| && forall j :: 0 <= j < |a| ==> a[j].x == n[j].x && a[j].y == n[j].y
  {
    if tables != [] {
      var init := tables[..|tables| - 1];
      var last := tables[|tables| - 1];
      KeptTablesRules(init, clickX, clickY);
      ClassifyRules(last, clickX, clickY);
      ClickTableKeepsPlace(last, clickX, clickY, AsWritten);
      ClickTableKeepsPlace(last, clickX, clickY, Nearest);
    }
  }

  /**
   * A table click under either slot rule blocks alike, so it adds a table
   * in the same cases, and leaves every room with the same tables at the
   * same places: the rules differ only in which chair they flip.
   */
  lemma TableClickRules(rooms: seq<Room>, clickX: real, clickY: real)
    ensures Blocked(rooms, clickX, clickY, AsWritten) == Blocked(rooms, clickX, clickY, Nearest)
    ensures var a := TableClick(rooms, clickX, clickY, AsWritten);
            var n := TableClick(rooms, clickX, clickY, Nearest);
            forall i :: 0 <= i < |rooms| ==>
              a[i].id == n[i].id && a[i].walls == n[i].walls && |a[i].tables| == |n[i].tables|
              && forall j :: 0 <= j < |a[i].tables| ==> a[i].tables[j].x == n[i].tables[j].x && a[i].tables[j].y == n[i].tables[j].y
  {
    forall i, k | 0 <= i < |rooms| && 0 <= k < |rooms[i].tables| {
      ClassifyRules(rooms[i].tables[k], clickX, clickY);
    }
    forall i | 0 <= i < |rooms| {
      KeptTablesRules(rooms[i].tables, clickX, clickY);
    }
  }

  /** Tables all far from the click pass through unchanged. */
  lemma {:induction false} KeptTablesFar(tables: seq<Table>, clickX: real, clickY: real, rule: SlotRule)
    requires forall k :: 0 <= k < |tables| ==> Classify(tables[k], clickX, clickY, rule) == Far
    ensures KeptTables(tables, clickX, clickY, rule) == tables
  {
    if tables != [] {
      var n := |tables| - 1;
      var init := tables[..n];
      assert forall k :: 0 <= k < |init| ==> init[k] == tables[k];
      KeptTablesFar(init, clickX, clickY, rule);
      KeptTablesStep(tables, n, clickX, clickY, rule);
      FarUnchanged(tables[n], clickX, clickY, rule);
      assert tables[..n + 1] == tables;
      assert init + [tables[n]] == tables;
    }
  }

  /** A far table is kept as it is. */
  lemma FarUnchanged(t: Table, clickX: real, clickY: real, rule: SlotRule)
    requires Classify(t, clickX, clickY, rule) == Far
    ensures Classify(t, clickX, clickY, rule) != Delete && ClickTable(t, clickX, clickY, rule) == t
  {
  }

  /**
   * A click that only flips present chairs (at least one table reacts,
   * none is deleted) is undone by the same click.
   */
  lemma TableClickTwice(rooms: seq<Room>, clickX: real, clickY: real, rule: SlotRule)
    requires Blocked(rooms, clickX, clickY, rule)
    requires forall i :: 0 <= i < |rooms| ==> Reversible(rooms[i].tables, clickX, clickY, rule)
    ensures TableClick(TableClick(rooms, clickX, clickY, rule), clickX, clickY, rule) == rooms
  {
    var once := TableClick(rooms, clickX, clickY, rule);
    assert once == FilterRooms(rooms, clickX, clickY, rule);
    assert Blocked(once, clickX, clickY, rule) by {
      StillBlocked(rooms, clickX, clickY, rule);
    }
    var twice := TableClick(once, clickX, clickY, rule);
    assert twice == FilterRooms(once, clickX, clickY, rule);
    forall j | 0 <= j < |rooms|
      ensures twice[j] == rooms[j]
    {
      KeptTablesTwice(rooms[j].tables, clickX, clickY, rule);
    }
  }

  /** A table that reacted to the click is still there, still reacting, after the filter. */
  lemma StillBlocked(rooms: seq<Room>, clickX: real, clickY: real, rule: SlotRule)
    requires Blocked(rooms, clickX, clickY, rule)
    requires forall i :: 0 <= i < |rooms| ==> Reversible(rooms[i].tables, clickX, clickY, rule)
    ensures Blocked(FilterRooms(rooms, clickX, clickY, rule), clickX, clickY, rule)
  {
    var once := FilterRooms(rooms, clickX, clickY, rule);
    var i, k :| 0 <= i < |rooms| && 0 <= k < |rooms[i].tables| && Classify(rooms[i].tables[k], clickX, clickY, rule) != Far;
    var t := rooms[i].tables[k];
    KeptTablesComplete(rooms[i].tables, clickX, clickY, rule);
    assert ClickTable(t, clickX, clickY, rule) in once[i].tables;
    ClickTableKeepsPlace(t, clickX, clickY, rule);
    var k2 :| 0 <= k2 < |once[i].tables| && once[i].tables[k2] == ClickTable(t, clickX, clickY, rule);
    assert Classify(once[i].tables[k2], clickX, clickY, rule) != Far;
  }

  /**
   * One room's table filter as the source runs it: a pass over the tables
   * that sets the deleted, chair-updated and nearby flags as it goes, and
   * flips the chair the slot rule picks.
   */
  method FilterTables(tables: seq<Table>, clickX: real, clickY: real, rule: SlotRule)
    returns (kept: seq<Table>, tableDeleted: bool, chairUpdated: bool, isNearby: bool)
    ensures kept == KeptTables(tables, clickX, clickY, rule)
    ensures tableDeleted == exists k :: 0 <= k < |tables| && Classify(tables[k], clickX, clickY, rule) == Delete
    ensures chairUpdated == exists k :: 0 <= k < |tables| && Classify(tables[k], clickX, clickY, rule).Toggle?
    ensures isNearby == exists k :: 0 <= k < |tables| && Classify(tables[k], clickX, clickY, rule) == Near
  {
    kept, tableDeleted, chairUpdated, isNearby := [], false, false, false;
    var i := 0;
    while i < |tables|
      invariant 0 <= i <= |tables|
      invariant kept == KeptTables(tables[..i], clickX, clickY, rule)
      invariant tableDeleted == Any(tables[..i], clickX, clickY, rule, Delete)
      invariant chairUpdated == AnyToggle(tables[..i], clickX, clickY, rule)
      invariant isNearby == Any(tables[..i], clickX, clickY, rule, Near)
    {
      var table := tables[i];
      var dx := table.x - clickX;
      var dy := table.y - clickY;
      KeptTablesStep(tables, i, clickX, clickY, rule);
      AnyStep(tables, i, clickX, clickY, rule);
      ClassifyBranches(table, clickX, clickY, rule);
      if Abs(dx) < DeleteDistance && Abs(dy) < DeleteDistance {
        tableDeleted := true;
      } else if ClickInSquare(table.x, table.y, clickX, clickY) {
        var updatedChairs := FlipChair(table.chairs, SlotFor(rule, dx, dy));
        chairUpdated := true;
        kept := kept + [table.(chairs := updatedChairs)];
      } else {
        if Abs(table.x - clickX) < NearDistance && Abs(table.y - clickY) < NearDistance {
          isNearby := true;
        }
        kept := kept + [table];
      }
      i := i + 1;
    }
    assert tables[..i] == tables;
  }

  /** The branches of the filter callback, in terms of Classify and ClickTable. */
  lemma ClassifyBranches(t: Table, clickX: real, clickY: real, rule: SlotRule)
    ensures var dx := t.x - clickX;
            var dy := t.y - clickY;
            var e := Classify(t, clickX, clickY, rule);
            (Abs(dx) < DeleteDistance && Abs(dy) < DeleteDistance ==> e == Delete)
            && (!(Abs(dx) < DeleteDistance && Abs(dy) < DeleteDistance) && ClickInSquare(t.x, t.y, clickX, clickY) ==>
                  e.Toggle? && ClickTable(t, clickX, clickY, rule) == t.(chairs := FlipChair(t.chairs, SlotFor(rule, dx, dy))))
            && (!(Abs(dx) < DeleteDistance && Abs(dy) < DeleteDistance) && !ClickInSquare(t.x, t.y, clickX, clickY) ==>
                  ClickTable(t, clickX, clickY, rule) == t
                  && (e == Near <==> Abs(t.x - clickX) < NearDistance && Abs(t.y - clickY) < NearDistance)
                  && e != Delete && !e.Toggle?)
  {
  }

  /** Some table of the list has the effect. */
  predicate Any(tables: seq<Table>, clickX: real, clickY: real, rule: SlotRule, effect: Effect)
  {
    exists k :: 0 <= k < |tables| && Classify(tables[k], clickX, clickY, rule) == effect
  }

  /** Some table of the list has a chair flipped. */
  predicate AnyToggle(tables: seq<Table>, clickX: real, clickY: real, rule: SlotRule)
  {
    exists k :: 0 <= k < |tables| && Classify(tables[k], clickX, clickY, rule).Toggle?
  }

  /** The flags over one more table. */
  lemma AnyStep(tables: seq<Table>, i: nat, clickX: real, clickY: real, rule: SlotRule)
    requires i < |tables|
    ensures var e := Classify(tables[i], clickX, clickY, rule);
            (Any(tables[..i + 1], clickX, clickY, rule, Delete) == (Any(tables[..i], clickX, clickY, rule, Delete) || e == Delete))
            && (Any(tables[..i + 1], clickX, clickY, rule, Near) == (Any(tables[..i], clickX, clickY, rule, Near) || e == Near))
            && (AnyToggle(tables[..i + 1], clickX, clickY, rule) == (AnyToggle(tables[..i], clickX, clickY, rule) || e.Toggle?))
  {
    assert forall k :: 0 <= k < i ==> tables[..i + 1][k] == tables[..i][k];
    assert tables[..i + 1][i] == tables[i];
  }

  /** KeptTables over one more table. */
  lemma KeptTablesStep(tables: seq<Table>, i: nat, clickX: real, clickY: real, rule: SlotRule)
    requires i < |tables|
    ensures KeptTables(tables[..i + 1], clickX, clickY, rule)
         == KeptTables(tables[..i], clickX, clickY, rule)
            + (if Classify(tables[i], clickX, clickY, rule) == Delete then [] else [ClickTable(tables[i], clickX, clickY, rule)])
  {
    assert tables[..i + 1][..i] == tables[..i];
    assert tables[..i + 1][i] == tables[i];
  }

  /**
   * The table-tool click as the source runs it: map the rooms through the
   * table filter, OR-ing the flags across rooms; then, if no flag is set,
   * push the new table onto every room.
   */
  method TableClickUpdate(rooms: seq<Room>, clickX: real, clickY: real, rule: SlotRule) returns (updated: seq<Room>)
    ensures updated == TableClick(rooms, clickX, clickY, rule)
  {
    var gridAlignedX := Snap(clickX, Limit);
    var gridAlignedY := Snap(clickY, Limit);
    var chairUpdated, tableDeleted, isNearby := false, false, false;
    updated := [];
    var i := 0;
    while i < |rooms|
      invariant 0 <= i <= |rooms|
      invariant updated == FilterRooms(rooms, clickX, clickY, rule)[..i]
      invariant (chairUpdated || tableDeleted || isNearby) == Blocked(rooms[..i], clickX, clickY, rule)
    {
      var kept, deleted, toggled, nearby := FilterTables(rooms[i].tables, clickX, clickY, rule);
      BlockedStep(rooms, i, clickX, clickY, rule);
      FilterRoomsStep(rooms, i, clickX, clickY, rule);
      tableDeleted := tableDeleted || deleted;
      chairUpdated := chairUpdated || toggled;
      isNearby := isNearby || nearby;
      updated := updated + [rooms[i].(tables := kept)];
      i := i + 1;
    }
    assert rooms[..i] == rooms;
    if !chairUpdated && !tableDeleted && !isNearby {
      var j := 0;
      ghost var filtered := updated;
      while j < |updated|
        invariant 0 <= j <= |updated| == |filtered|
        invariant updated == PushEverywhere(filtered, NewTable(gridAlignedX, gridAlignedY))[..j] + filtered[j..]
      {
        PushStep(filtered, NewTable(gridAlignedX, gridAlignedY), j);
        updated := updated[j := updated[j].(tables := updated[j].tables + [NewTable(gridAlignedX, gridAlignedY)])];
        j := j + 1;
      }
      assert filtered[j..] == [];
    }
  }

  /** FilterRooms over one more room. */
  lemma FilterRoomsStep(rooms: seq<Room>, i: nat, clickX: real, clickY: real, rule: SlotRule)
    requires i < |rooms|
    ensures FilterRooms(rooms, clickX, clickY, rule)[..i + 1]
         == FilterRooms(rooms, clickX, clickY, rule)[..i] + [rooms[i].(tables := KeptTables(rooms[i].tables, clickX, clickY, rule))]
  {
    var f := FilterRooms(rooms, clickX, clickY, rule);
    assert f[..i + 1] == f[..i] + [f[i]];
  }

  /** Pushing onto room j carries the push loop's invariant to j + 1. */
  lemma PushStep(rooms: seq<Room>, t: Table, j: nat)
    requires j < |rooms|
    ensures var p := PushEverywhere(rooms, t);
            (p[..j] + rooms[j..])[j := rooms[j].(tables := rooms[j].tables + [t])] == p[..j + 1] + rooms[j + 1..]
  {
    var p := PushEverywhere(rooms, t);
    var lhs := (p[..j] + rooms[j..])[j := rooms[j].(tables := rooms[j].tables + [t])];
    var rhs := p[..j + 1] + rooms[j + 1..];
    assert |lhs| == |rhs|;
    forall k | 0 <= k < |lhs| ensures lhs[k] == rhs[k] {
      if k < j {
        assert lhs[k] == p[k] == rhs[k];
      } else if k == j {
        assert rhs[k] == p[j];
      } else {
        assert lhs[k] == rooms[k] == rhs[k];
      }
    }
  }

  /** Blocked over one more room. */
  lemma BlockedStep(rooms: seq<Room>, i: nat, clickX: real, clickY: real, rule: SlotRule)
    requires i < |rooms|
    ensures Blocked(rooms[..i + 1], clickX, clickY, rule)
        == (Blocked(rooms[..i], clickX, clickY, rule)
            || exists k :: 0 <= k < |rooms[i].tables| && Classify(rooms[i].tables[k], clickX, clickY, rule) != Far)
  {
    assert forall j :: 0 <= j < i ==> rooms[..i + 1][j] == rooms[..i][j];
    assert rooms[..i + 1][i] == rooms[i];
  }

  // ---------------------------------------------------------------------
  // Eraser
  // ---------------------------------------------------------------------

  /** Every room with its walls filtered by the eraser. */
  function EraseEach(rooms: seq<Room>, x: real, y: real): (r: seq<Room>)
    ensures |r| == |rooms|
  {
    seq(|rooms|, i requires 0 <= i < |rooms| => rooms[i].(walls := EraseWalls(rooms[i].walls, x, y)))
  }

  /** The eraser: filter every room's walls, then drop the rooms left with no walls. */
  function EraseAt(rooms: seq<Room>, x: real, y: real): (r: seq<Room>)
  {
    Filter(EraseEach(rooms, x, y), (room: Room) => |room.walls| > 0)
  }

  /**
   * Each remaining room is an original room with its far walls only, and at
   * least one; every room with a wall far from the click remains; and the
   * remaining rooms keep their order.
   */
  lemma EraseAtSpec(rooms: seq<Room>, x: real, y: real)
    ensures var r := EraseAt(rooms, x, y);
            |r| <= |rooms|
            && (forall j :: 0 <= j < |r| ==>
                  |r[j].walls| > 0
                  && exists k :: 0 <= k < |rooms| && r[j] == rooms[k].(walls := EraseWalls(rooms[k].walls, x, y)))
            && (forall k :: 0 <= k < |rooms| && (exists w :: w in rooms[k].walls && FarFrom(x, y, w)) ==>
                  rooms[k].(walls := EraseWalls(rooms[k].walls, x, y)) in r)
            && Subsequence(r, EraseEach(rooms, x, y))
  {
    var e := EraseEach(rooms, x, y);
    var r := EraseAt(rooms, x, y);
    forall j | 0 <= j < |r|
      ensures exists k :: 0 <= k < |rooms| && r[j] == rooms[k].(walls := EraseWalls(rooms[k].walls, x, y))
    {
      assert r[j] in e;
      var k :| 0 <= k < |e| && e[k] == r[j];
    }
    forall k | 0 <= k < |rooms| && (exists w :: w in rooms[k].walls && FarFrom(x, y, w))
      ensures rooms[k].(walls := EraseWalls(rooms[k].walls, x, y)) in r
    {
      var w :| w in rooms[k].walls && FarFrom(x, y, w);
      var i :| 0 <= i < |rooms[k].walls| && rooms[k].walls[i] == w;
      assert w in EraseWalls(rooms[k].walls, x, y);
      assert e[k] == rooms[k].(walls := EraseWalls(rooms[k].walls, x, y));
    }
    FilterSubsequence(e, (room: Room) => |room.walls| > 0);
  }

  // ---------------------------------------------------------------------
  // The component state
  // ---------------------------------------------------------------------

  class DraftEditor {
    var width: real
    var height: real
    var rooms: seq<Room>
    var currentTool: Tool
    var firstPoint: Option<Point>
    var isToolInUse: bool

    /** Only the wall tool is ever in use or has a pending point. */
    ghost predicate Valid()
      reads this
    {
      (isToolInUse ==> currentTool == WallTool) && (firstPoint.Some? ==> currentTool == WallTool)
    }

    constructor ()
      ensures Valid()
      ensures width == 1000.0 && height == 800.0 && rooms == [InitialRoom(1000.0, 800.0)]
      ensures currentTool == NoTool && firstPoint == None && !isToolInUse
    {
      width := 1000.0;
      height := 800.0;
      rooms := [InitialRoom(1000.0, 800.0)];
      currentTool := NoTool;
      firstPoint := None;
      isToolInUse := false;
    }

    /**
     * A canvas click: only the table tool reacts; see TableClick, run with
     * the program's own slot rule.
     */
    method HandleCanvasClick(clickX: real, clickY: real)
      requires Valid()
      modifies this
      ensures Valid()
      ensures old(currentTool) == TableTool ==> rooms == TableClick(old(rooms), clickX, clickY, AsWritten)
      ensures old(currentTool) != TableTool ==> rooms == old(rooms)
      ensures width == old(width) && height == old(height) && currentTool == old(currentTool)
      ensures firstPoint == old(firstPoint) && isToolInUse == old(isToolInUse)
    {
      if currentTool == TableTool {
        rooms := TableClickUpdate(rooms, clickX, clickY, AsWritten);
      }
    }

    /**
     * A canvas double click: the wall gesture (the new room's id is the
     * clock reading `newId`) or the eraser.
     */
    method HandleCanvasDoubleClick(clickX: real, clickY: real, newId: string)
      requires Valid()
      modifies this
      ensures Valid()
      ensures width == old(width) && height == old(height) && currentTool == old(currentTool)
      ensures old(currentTool) == WallTool && old(firstPoint).None? ==>
        firstPoint == Some(Point(clickX, clickY)) && rooms == old(rooms) && isToolInUse == old(isToolInUse)
      ensures old(currentTool) == WallTool && old(firstPoint).Some? ==>
        var fp := old(firstPoint).value;
        rooms == old(rooms) + [Room(newId, [Types.Wall(fp.x, fp.y, clickX, clickY)], [])]
        && firstPoint == None && !isToolInUse
      ensures old(currentTool) == EraserTool ==> rooms == EraseAt(old(rooms), clickX, clickY)
      ensures old(currentTool) != WallTool ==> firstPoint == old(firstPoint) && isToolInUse == old(isToolInUse)
      ensures old(currentTool) != WallTool && old(currentTool) != EraserTool ==> rooms == old(rooms)
    {
      if currentTool == WallTool {
        if firstPoint.None? {
          firstPoint := Some(Point(clickX, clickY));
        } else {
          var fp := firstPoint.value;
          var newRoom := Room(newId, [Types.Wall(fp.x, fp.y, clickX, clickY)], []);
          firstPoint := None;
          isToolInUse := false;
          rooms := rooms + [newRoom];
        }
      } else if currentTool == EraserTool {
        rooms := EraseAt(rooms, clickX, clickY);
      }
    }

    /**
     * Selecting a tool: refused while the wall tool is in use with a pending
     * first point; otherwise leaving the wall tool drops the pending point,
     * and only the wall tool counts as in use.
     */
    method HandleToolSelect(tool: Tool)
      requires Valid()
      requires tool != NoTool
      modifies this
      ensures Valid()
      ensures rooms == old(rooms) && width == old(width) && height == old(height)
      ensures old(isToolInUse) && old(currentTool) == WallTool && old(firstPoint).Some? ==>
        currentTool == old(currentTool) && firstPoint == old(firstPoint) && isToolInUse == old(isToolInUse)
      ensures !(old(isToolInUse) && old(currentTool) == WallTool && old(firstPoint).Some?) ==>
        currentTool == tool && isToolInUse == (tool == WallTool)
        && firstPoint == (if tool != WallTool then None else old(firstPoint))
    {
      if isToolInUse && currentTool == WallTool && firstPoint.Some? {
        return;
      }
      if currentTool == WallTool && tool != WallTool {
        firstPoint := None;
      }
      currentTool := tool;
      isToolInUse := tool == WallTool;
    }

    /** Reset: the initial room alone, no tool, no pending point. */
    method HandleReset()
      modifies this
      ensures Valid()
      ensures rooms == [InitialRoom(width, height)]
      ensures width == old(width) && height == old(height)
      ensures currentTool == NoTool && !isToolInUse && firstPoint == None
    {
      rooms := [InitialRoom(width, height)];
      currentTool := NoTool;
      isToolInUse := false;
      firstPoint := None;
    }
  }
}
