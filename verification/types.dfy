/**
 * The canonical shapes of the floor plan (src/types/index.ts): table
 * shapes, walls, tables, the recursive room tree and the tool enumerations.
 * The two editor components declare their own, older room shapes; those
 * live in the Layout and Draft modules.
 */
module Types {

  /** A table's shape: exactly one of square, diamond or round. */
  datatype TableType = Square | Diamond | Round

  /** A wall is exactly four numbers: the segment from (x1, y1) to (x2, y2). */
  datatype Wall = Wall(x1: real, y1: real, x2: real, y2: real)

  /**
   * A table: its centre, its shape and one flag per chair slot. The type
   * does not fix how many chairs there are.
   */
  datatype Table = Table(x: real, y: real, kind: TableType, chairs: seq<bool>)

  /** A room of the canonical tree: named, with walls, tables and sub-rooms. */
  datatype Room = Room(
    id: int,
    name: string,
    walls: seq<Wall>,
    tables: seq<Table>,
    subRooms: seq<Room>,
    isTemporary: bool)

  /** The active editing tool; `NoTool` is the source's `null`. */
  datatype Tool = WallTool | EraserTool | TableTool | RoomTool | NoTool

  /** Wall sub-tool. */
  datatype WallSubTool = AddWall | DeleteWall | NoWallSubTool

  /** Table sub-tool: there is no move. */
  datatype TableSubTool = AddTable | MergeTables | EditChairs | DeleteTable | NoTableSubTool

  /** Room sub-tool. */
  datatype RoomSubTool = AddRoom | EditRoom | DeleteRoom | NoRoomSubTool
}
