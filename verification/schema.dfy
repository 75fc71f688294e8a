/** The `room` and `cell` tables as one database state, the constraints the
    schema declares on them as an invariant, and the inserts the database
    performs: an insert that would break a constraint is rejected and leaves
    the tables unchanged. Generated ids and timestamps are inputs. */
module Schema {
  import opened Results
  import opened PuzzleTypes

  /** Bounds of a PostgreSQL `integer` column (32-bit, two's complement). */
  const INT32_MIN: int := -0x8000_0000
  const INT32_MAX: int := 0x7FFF_FFFF

  predicate InInt32(n: int)
  {
    INT32_MIN <= n <= INT32_MAX
  }

  /** A `uuid` value: 128 bits. */
  type Uuid = n: int | 0 <= n < 0x1_0000_0000_0000_0000_0000_0000_0000_0000

  /** A row of `room`: the puzzle document is stored whole. */
  datatype Room = Room(id: Uuid, puzzle: ArrowWord, createdAt: int, updatedAt: int)

  /** A row of `cell`. */
  datatype Cell = Cell(
    id: Uuid,
    row: int,
    col: int,
    roomId: Uuid,
    value: string,
    createdAt: int,
    updatedAt: int)

  /** The two tables, rows in insertion order. */
  datatype Tables = Tables(rooms: seq<Room>, cells: seq<Cell>)

  /** The `NOT NULL` columns an insert supplies: `puzzle` of `room`, the
      others of `cell`. */
  datatype Column = PuzzleColumn | RowColumn | ColColumn | RoomIdColumn | ValueColumn

  /** The named constraints of the two tables. */
  datatype Constraint = RoomPrimaryKey | CellPrimaryKey | CellCoordinatesUnique

  /** Why the database refuses an insert. */
  datatype DbError =
    | NotNullViolation(column: Column)
    | IntegerOutOfRange(column: Column)
    | ValueTooLong
    | UniqueViolation(constraint: Constraint)
    | ForeignKeyViolation

  /** The values an insert into `cell` supplies; `None` is SQL `NULL`. */
  datatype CellInsert = CellInsert(
    row: Option<int>,
    col: Option<int>,
    roomId: Option<Uuid>,
    value: Option<string>)

  // ----- the invariant -----

  function RoomIds(t: Tables): set<Uuid>
  {
    set r | r in t.rooms :: r.id
  }

  function CellIds(t: Tables): set<Uuid>
  {
    set c | c in t.cells :: c.id
  }

  /** The `unique(row, col, roomId)` key of a cell. */
  function CellKey(c: Cell): (int, int, Uuid)
  {
    (c.row, c.col, c.roomId)
  }

  predicate RoomIdsDistinct(rooms: seq<Room>)
  {
    forall i, j :: 0 <= i < j < |rooms| ==> rooms[i].id != rooms[j].id
  }

  predicate CellIdsDistinct(cells: seq<Cell>)
  {
    forall i, j :: 0 <= i < j < |cells| ==> cells[i].id != cells[j].id
  }

  predicate CellKeysDistinct(cells: seq<Cell>)
  {
    forall i, j :: 0 <= i < j < |cells| ==> CellKey(cells[i]) != CellKey(cells[j])
  }

  /** Every cell references an existing room. */
  predicate CellsReferenceRooms(t: Tables)
  {
    forall c :: c in t.cells ==> c.roomId in RoomIds(t)
  }

  /** A stored cell: 32-bit coordinates and a one-character value. */
  predicate CellWellFormed(c: Cell)
  {
    InInt32(c.row) && InInt32(c.col) && |c.value| == 1
  }

  /** Every constraint the schema declares holds. */
  predicate Valid(t: Tables)
  {
    && RoomIdsDistinct(t.rooms)
    && CellIdsDistinct(t.cells)
    && CellKeysDistinct(t.cells)
    && CellsReferenceRooms(t)
    && forall c :: c in t.cells ==> CellWellFormed(c)
  }

  /** The database starts with both tables empty. */
  lemma EmptyIsValid()
    ensures Valid(Tables([], []))
  {
  }

  // ----- the `char(1)` column -----

  /** The string without its trailing spaces. */
  function TrimTrailingSpaces(s: string): string
  {
    if |s| > 0 && s[|s| - 1] == ' ' then TrimTrailingSpaces(s[..|s| - 1]) else s
  }

  /** Storing into `char(1)`: a shorter string is padded with a space, a
      longer one is cut to one character when the rest is spaces and
      refused otherwise. */
  function StoreChar1(v: string): (r: Result<string, DbError>)
    ensures r.Success? <==> forall i :: 1 <= i < |v| ==> v[i] == ' '
    ensures r.Success? ==> |r.value| == 1 && TrimTrailingSpaces(r.value) == TrimTrailingSpaces(v)
    ensures r.Failure? ==> r.error == ValueTooLong
  {
    if |v| == 0 then
      Success(" ")
    else if forall i :: 1 <= i < |v| ==> v[i] == ' ' then
      TrailingSpacesDoNotCount(v, 1);
      Success(v[..1])
    else
      Failure(ValueTooLong)
  }

  /** Spaces after position `k` make no difference once trailing spaces
      are dropped. */
  lemma {:induction false} TrailingSpacesDoNotCount(s: string, k: nat)
    requires k <= |s|
    requires forall i :: k <= i < |s| ==> s[i] == ' '
    ensures TrimTrailingSpaces(s) == TrimTrailingSpaces(s[..k])
    decreases |s|
  {
    if |s| > k {
      assert s[|s| - 1] == ' ';
      assert s[..|s| - 1][..k] == s[..k];
      TrailingSpacesDoNotCount(s[..|s| - 1], k);
    } else {
      assert s[..k] == s;
    }
  }

  // ----- inserts -----

  /** `insert into room`: refused when the puzzle is `NULL` or the id is
      taken. */
  function InsertRoom(t: Tables, id: Uuid, puzzle: Option<ArrowWord>, now: int): (r: Result<Tables, DbError>)
    requires Valid(t)
    ensures r.Success? <==> puzzle.Some? && id !in RoomIds(t)
    ensures r.Failure? ==>
      || (puzzle.None? && r.error == NotNullViolation(PuzzleColumn))
      || (id in RoomIds(t) && r.error == UniqueViolation(RoomPrimaryKey))
    ensures r.Success? ==>
      Valid(r.value) && r.value.cells == t.cells
      && r.value.rooms == t.rooms + [Room(id, puzzle.value, now, now)]
  {
    if puzzle.None? then
      Failure(NotNullViolation(PuzzleColumn))
    else if id in RoomIds(t) then
      Failure(UniqueViolation(RoomPrimaryKey))
    else
      var t' := Tables(t.rooms + [Room(id, puzzle.value, now, now)], t.cells);
      assert forall c :: c in t'.cells ==> c.roomId in RoomIds(t') by {
        forall c | c in t'.cells ensures c.roomId in RoomIds(t') {
          var r :| r in t.rooms && r.id == c.roomId;
          assert r in t'.rooms;
        }
      }
      Success(t')
  }

  /** Reference statement of when the database accepts a cell insert: no
      `NULL`, coordinates in range, a value that fits one character, a
      fresh id, a free (row, col, roomId) key and an existing room. */
  predicate CellInsertAllowed(t: Tables, id: Uuid, req: CellInsert)
  {
    && req.row.Some? && req.col.Some? && req.roomId.Some? && req.value.Some?
    && InInt32(req.row.value) && InInt32(req.col.value)
    && (forall i :: 1 <= i < |req.value.value| ==> req.value.value[i] == ' ')
    && id !in CellIds(t)
    && (forall c :: c in t.cells ==>
          CellKey(c) != (req.row.value, req.col.value, req.roomId.value))
    && req.roomId.value in RoomIds(t)
  }

  /** The reported error is one the insert really commits. */
  predicate ErrorIsGenuine(t: Tables, id: Uuid, req: CellInsert, e: DbError)
  {
    match e
    case NotNullViolation(column) =>
      (column == RowColumn ==> req.row.None?) && (column == ColColumn ==> req.col.None?)
      && (column == RoomIdColumn ==> req.roomId.None?) && (column == ValueColumn ==> req.value.None?)
      && column != PuzzleColumn
    case IntegerOutOfRange(column) =>
      && (column == RowColumn ==> req.row.Some? && !InInt32(req.row.value))
      && (column == ColColumn ==> req.col.Some? && !InInt32(req.col.value))
      && (column == RoomIdColumn || column == ValueColumn || column == PuzzleColumn ==> false)
    case ValueTooLong =>
      req.value.Some? && exists i :: 1 <= i < |req.value.value| && req.value.value[i] != ' '
    case UniqueViolation(constraint) =>
      && (constraint == CellPrimaryKey ==> id in CellIds(t))
      && (constraint == CellCoordinatesUnique ==>
            req.row.Some? && req.col.Some? && req.roomId.Some?
            && exists c :: c in t.cells && CellKey(c) == (req.row.value, req.col.value, req.roomId.value))
      && (constraint == RoomPrimaryKey ==> false)
    case ForeignKeyViolation =>
      req.roomId.Some? && req.roomId.value !in RoomIds(t)
  }

  /** `insert into cell`: the row is appended exactly when every constraint
      still holds afterwards; otherwise the database reports a violated
      constraint and stores nothing. */
  function InsertCell(t: Tables, id: Uuid, req: CellInsert, now: int): (r: Result<Tables, DbError>)
    requires Valid(t)
    ensures r.Success? <==> CellInsertAllowed(t, id, req)
    ensures r.Failure? ==> ErrorIsGenuine(t, id, req, r.error)
    ensures r.Success? ==>
      && Valid(r.value)
      && r.value.rooms == t.rooms
      && |r.value.cells| == |t.cells| + 1
      && r.value.cells[..|t.cells|] == t.cells
      && var c := r.value.cells[|t.cells|];
         && c.id == id && Some(c.row) == req.row && Some(c.col) == req.col
         && Some(c.roomId) == req.roomId && c.createdAt == now && c.updatedAt == now
         && TrimTrailingSpaces(c.value) == TrimTrailingSpaces(req.value.value)
  {
    if req.row.None? then Failure(NotNullViolation(RowColumn))
    else if !InInt32(req.row.value) then Failure(IntegerOutOfRange(RowColumn))
    else if req.col.None? then Failure(NotNullViolation(ColColumn))
    else if !InInt32(req.col.value) then Failure(IntegerOutOfRange(ColColumn))
    else if req.roomId.None? then Failure(NotNullViolation(RoomIdColumn))
    else if req.value.None? then Failure(NotNullViolation(ValueColumn))
    else
      var stored := StoreChar1(req.value.value);
      if stored.Failure? then Failure(stored.error)
      else
        var cell := Cell(id, req.row.value, req.col.value, req.roomId.value, stored.value, now, now);
        if id in CellIds(t) then Failure(UniqueViolation(CellPrimaryKey))
        else if exists c :: c in t.cells && CellKey(c) == CellKey(cell) then
          Failure(UniqueViolation(CellCoordinatesUnique))
        else if cell.roomId !in RoomIds(t) then Failure(ForeignKeyViolation)
        else
          var t' := Tables(t.rooms, t.cells + [cell]);
          AppendCellKeepsValid(t, cell);
          Success(t')
  }

  /** Appending a well-formed cell with a fresh id, a free key and an
      existing room keeps every constraint. */
  lemma AppendCellKeepsValid(t: Tables, cell: Cell)
    requires Valid(t)
    requires CellWellFormed(cell)
    requires cell.id !in CellIds(t)
    requires forall c :: c in t.cells ==> CellKey(c) != CellKey(cell)
    requires cell.roomId in RoomIds(t)
    ensures Valid(Tables(t.rooms, t.cells + [cell]))
  {
  }

  // ----- consequences of the invariant -----

  /** The cells stored at one coordinate of one room. */
  function CellsAt(cells: seq<Cell>, roomId: Uuid, row: int, col: int): (found: seq<Cell>)
    ensures forall c :: c in found <==> c in cells && CellKey(c) == (row, col, roomId)
  {
    if |cells| == 0 then []
    else
      var rest := CellsAt(cells[1..], roomId, row, col);
      assert forall c :: c in cells <==> c == cells[0] || c in cells[1..];
      if CellKey(cells[0]) == (row, col, roomId) then [cells[0]] + rest else rest
  }

  /** No cell is found at a coordinate that no cell carries. */
  lemma NothingAtFreeCoordinate(cells: seq<Cell>, roomId: Uuid, row: int, col: int)
    requires forall c :: c in cells ==> CellKey(c) != (row, col, roomId)
    ensures CellsAt(cells, roomId, row, col) == []
  {
  }

  /** One value per coordinate per room: a valid state stores at most one
      cell for any (row, col, roomId). */
  lemma {:induction false} OneCellPerCoordinate(cells: seq<Cell>, roomId: Uuid, row: int, col: int)
    requires CellKeysDistinct(cells)
    ensures |CellsAt(cells, roomId, row, col)| <= 1
  {
    if |cells| > 0 {
      var tail := cells[1..];
      assert CellKeysDistinct(tail) by {
        forall i, j | 0 <= i < j < |tail| ensures CellKey(tail[i]) != CellKey(tail[j]) {
          assert tail[i] == cells[i + 1] && tail[j] == cells[j + 1];
        }
      }
      OneCellPerCoordinate(tail, roomId, row, col);
      if CellKey(cells[0]) == (row, col, roomId) {
        forall c | c in tail ensures CellKey(c) != (row, col, roomId) {
          var j :| 0 <= j < |tail| && tail[j] == c;
          assert c == cells[j + 1];
        }
        NothingAtFreeCoordinate(tail, roomId, row, col);
      }
    }
  }

  /** A database statement: an insert into one of the two tables, with the
      id its column default generated and the current time. */
  datatype Statement =
    | CreateRoom(roomId: Uuid, puzzle: Option<ArrowWord>, at: int)
    | CreateCell(cellId: Uuid, request: CellInsert, at: int)

  /** Runs one statement; a refused statement leaves the tables as they were. */
  function Execute(t: Tables, s: Statement): (r: Tables)
    requires Valid(t)
    ensures Valid(r)
  {
    var outcome := match s
      case CreateRoom(id, puzzle, at) => InsertRoom(t, id, puzzle, at)
      case CreateCell(id, req, at) => InsertCell(t, id, req, at);
    if outcome.Success? then outcome.value else t
  }

  /** Runs statements in order. Every reachable state satisfies the
      constraints, and inserts only ever add rows: earlier rows are
      neither changed nor removed. */
  function ExecuteAll(t: Tables, statements: seq<Statement>): (r: Tables)
    requires Valid(t)
    ensures Valid(r)
    ensures |t.rooms| <= |r.rooms| && r.rooms[..|t.rooms|] == t.rooms
    ensures |t.cells| <= |r.cells| && r.cells[..|t.cells|] == t.cells
    decreases |statements|
  {
    if |statements| == 0 then t
    else
      var next := Execute(t, statements[0]);
      var r := ExecuteAll(next, statements[1..]);
      assert r.rooms[..|t.rooms|] == r.rooms[..|next.rooms|][..|t.rooms|];
      assert r.cells[..|t.cells|] == r.cells[..|next.cells|][..|t.cells|];
      r
  }
}
