/** The generator's mutable state, the tile map and the room list, and the passes that update
    it in place. Each method is proved to leave the map equal to the matching function of the map
    it started from (modules Carving, Walls and Doors), where the properties are proved. */
module Generator {
  import opened Tiles
  import opened Grids
  import opened Carving
  import opened Walls
  import opened Doors
  import opened Pipeline

  /** A room: its id and the positions of the tiles carved for it, in carving order. */
  class Room {
    const id: nat
    var tiles: seq<Pos>

    constructor (id: nat)
      ensures this.id == id && tiles == []
    {
      this.id := id;
      tiles := [];
    }
  }

  class Dungeon {
    /** MAP_WIDTH and MAP_HEIGHT. The map is indexed with either bound on either index, which only
        works when the two are equal, so the model has one size. */
    const mapSize: nat
    /** CORRIDOR_WIDTH */
    const corridorWidth: int
    var tiles: array2<Tile>
    var rooms: seq<Room>

    /** The map is mapSize x mapSize. */
    ghost predicate Shaped()
      reads this`tiles
    {
      tiles.Length0 == mapSize && tiles.Length1 == mapSize
    }

    /** The map is mapSize x mapSize, and each room's id is its place in the room list. */
    ghost predicate Valid()
      reads this
    {
      Shaped() && forall k :: 0 <= k < |rooms| ==> rooms[k].id == k
    }

    /** The map as a value. */
    ghost function Cells(): (g: Grid)
      reads this`tiles, tiles
      requires Shaped()
      ensures IsGrid(g) && |g| == mapSize
      ensures forall x, y :: InBounds(mapSize, x, y) ==> g[x][y] == tiles[x, y]
    {
      var a := tiles;
      seq(mapSize, x requires 0 <= x < a.Length0 reads a =>
        seq(mapSize, y requires 0 <= y < a.Length1 reads a => a[x, y]))
    }

    /** The array holds exactly the cells of g. */
    ghost predicate Holds(g: Grid)
      reads this`tiles, tiles
      requires Shaped()
    {
      IsGrid(g) && |g| == mapSize && forall x, y :: InBounds(mapSize, x, y) ==> tiles[x, y] == g[x][y]
    }

    lemma CellsAre(g: Grid)
      requires Shaped() && Holds(g)
      ensures Cells() == g
    {
      Ext(Cells(), g);
    }

    /** Init: an all-EMPTY map of the given size and no rooms. */
    constructor Init(mapSize: nat, corridorWidth: int)
      ensures Valid() && fresh(tiles)
      ensures this.mapSize == mapSize && this.corridorWidth == corridorWidth
      ensures Cells() == EmptyGrid(mapSize) && rooms == []
    {
      this.mapSize := mapSize;
      this.corridorWidth := corridorWidth;
      tiles := new Tile[mapSize, mapSize];
      rooms := [];
      new;
      for i := 0 to mapSize
        modifies tiles
        invariant forall x, y :: InBounds(mapSize, x, y) && x < i ==> tiles[x, y] == NewTile(EMPTY)
      {
        for j := 0 to mapSize
          modifies tiles
          invariant forall x, y :: InBounds(mapSize, x, y) && (x < i || (x == i && y < j)) ==> tiles[x, y] == NewTile(EMPTY)
        {
          tiles[i, j] := NewTile(EMPTY);
        }
      }
      CellsAre(EmptyGrid(mapSize));
    }

    /** ResetDungeon, as far as the map and the room list go: every cell a fresh EMPTY tile. */
    method ResetDungeon()
      requires Valid()
      modifies this, tiles
      ensures Valid() && tiles == old(tiles)
      ensures Cells() == EmptyGrid(mapSize) && rooms == []
    {
      for i := 0 to mapSize
        modifies tiles
        invariant forall x, y :: InBounds(mapSize, x, y) && x < i ==> tiles[x, y] == NewTile(EMPTY)
      {
        for j := 0 to mapSize
          modifies tiles
          invariant forall x, y :: InBounds(mapSize, x, y) && (x < i || (x == i && y < j)) ==> tiles[x, y] == NewTile(EMPTY)
        {
          tiles[i, j] := NewTile(EMPTY);
        }
      }
      rooms := [];
      CellsAre(EmptyGrid(mapSize));
    }

    // -------------------------------------------------------------------------
    // Cell tests and cell updates
    // -------------------------------------------------------------------------

    function IsEmpty(row: int, col: int): (b: bool)
      reads this`tiles, tiles
      requires Shaped() && InBounds(mapSize, row, col)
      ensures b == IsEmptyAt(Cells(), row, col)
    {
      tiles[row, col].id == EMPTY
    }

    function IsPassable(row: int, col: int): (b: bool)
      reads this`tiles, tiles
      requires Shaped() && InBounds(mapSize, row, col)
      ensures b == IsPassableAt(Cells(), row, col)
    {
      tiles[row, col].id == ROOM || tiles[row, col].id == CORRIDOR
    }

    function IsWallCorner(row: int, col: int): (b: bool)
      reads this`tiles, tiles
      requires Shaped() && InBounds(mapSize, row, col)
      ensures b == IsWallCornerAt(Cells(), row, col)
    {
      if tiles[row, col].id != EMPTY then false
      else if row > 0 && col > 0 && tiles[row - 1, col].id == WALL && tiles[row, col - 1].id == WALL && tiles[row - 1, col - 1].id != WALL then true
      else if row > 0 && col < mapSize - 1 && tiles[row - 1, col].id == WALL && tiles[row, col + 1].id == WALL && tiles[row - 1, col + 1].id != WALL then true
      else if row < mapSize - 1 && col > 0 && tiles[row + 1, col].id == WALL && tiles[row, col - 1].id == WALL && tiles[row + 1, col - 1].id != WALL then true
      else if row < mapSize - 1 && col < mapSize - 1 && tiles[row + 1, col].id == WALL && tiles[row, col + 1].id == WALL && tiles[row + 1, col + 1].id != WALL then true
      else false
    }

    method SetWall(row: int, col: int)
      requires Shaped() && InBounds(mapSize, row, col)
      modifies tiles
      ensures tiles[row, col] == old(tiles[row, col]).(id := WALL)
      ensures forall x, y :: InBounds(mapSize, x, y) && !(x == row && y == col) ==> tiles[x, y] == old(tiles[x, y])
    {
      tiles[row, col] := tiles[row, col].(id := WALL);
    }

    method SetWallCorner(row: int, col: int)
      requires Shaped() && InBounds(mapSize, row, col)
      modifies tiles
      ensures tiles[row, col] == old(tiles[row, col]).(id := WALLCORNER)
      ensures forall x, y :: InBounds(mapSize, x, y) && !(x == row && y == col) ==> tiles[x, y] == old(tiles[x, y])
    {
      tiles[row, col] := tiles[row, col].(id := WALLCORNER);
    }

    method SetDoor(row: int, col: int)
      requires Shaped() && InBounds(mapSize, row, col)
      modifies tiles
      ensures tiles[row, col] == old(tiles[row, col]).(id := DOOR)
      ensures forall x, y :: InBounds(mapSize, x, y) && !(x == row && y == col) ==> tiles[x, y] == old(tiles[x, y])
    {
      tiles[row, col] := tiles[row, col].(id := DOOR);
    }

    // -------------------------------------------------------------------------
    // Rooms
    // -------------------------------------------------------------------------

    /** DigRoom(room, row, col): the cell becomes a ROOM tile of the room and joins its tile list. */
    method DigRoomAt(room: Room, row: int, col: int)
      requires Shaped() && InBounds(mapSize, row, col)
      modifies tiles, room
      ensures tiles[row, col] == RoomTile(room.id)
      ensures forall x, y :: InBounds(mapSize, x, y) && !(x == row && y == col) ==> tiles[x, y] == old(tiles[x, y])
      ensures room.tiles == old(room.tiles) + [(row, col)]
    {
      tiles[row, col] := tiles[row, col].(id := ROOM, room := Some(room.id));
      room.tiles := room.tiles + [(row, col)];
    }

    /** DigRoom(room, rowBottom, colLeft, rowTop, colRight): swap reversed bounds, do nothing if an
        edge is off the map, otherwise dig the inclusive rectangle row by row. */
    method DigRoom(room: Room, rowBottom: int, colLeft: int, rowTop: int, colRight: int)
      requires Shaped()
      modifies tiles, room
      ensures Cells() == DigRoomGrid(old(Cells()), Rect(rowBottom, colLeft, rowTop, colRight), room.id)
      ensures room.tiles == old(room.tiles) + DugCells(mapSize, Rect(rowBottom, colLeft, rowTop, colRight))
    {
      var bottom, left, top, right := rowBottom, colLeft, rowTop, colRight;
      if top < bottom {
        var tmp := top;
        top := bottom;
        bottom := tmp;
      }
      if right < left {
        var tmp := right;
        right := left;
        left := tmp;
      }
      ghost var o := Rect(bottom, left, top, right);
      assert o == Ordered(Rect(rowBottom, colLeft, rowTop, colRight));

      if top > mapSize - 1 { return; }
      if bottom < 0 { return; }
      if right > mapSize - 1 { return; }
      if left < 0 { return; }

      ghost var g0 := Cells();
      ghost var tiles0 := room.tiles;
      var row := bottom;
      while row <= top
        invariant bottom <= row <= top + 1
        invariant forall x, y :: InBounds(mapSize, x, y) ==>
          tiles[x, y] == if InRect(o, x, y) && x < row then RoomTile(room.id) else g0[x][y]
        invariant room.tiles == tiles0 + RectRows(bottom, row - 1, left, right)
      {
        DigRoomRow(room, row, left, right);
        row := row + 1;
      }
      CellsAre(DigRoomGrid(g0, Rect(rowBottom, colLeft, rowTop, colRight), room.id));
    }

    /** One row of DigRoom: cells (row, left) to (row, right), left to right. */
    method DigRoomRow(room: Room, row: int, left: int, right: int)
      requires Shaped() && 0 <= row < mapSize && 0 <= left && right < mapSize
      modifies tiles, room
      ensures forall x, y :: InBounds(mapSize, x, y) ==>
        tiles[x, y] == if x == row && left <= y <= right then RoomTile(room.id) else old(tiles[x, y])
      ensures room.tiles == old(room.tiles) + RowSpan(row, left, right)
    {
      var col := left;
      while col <= right
        invariant left <= col && (col <= right + 1 || col == left)
        invariant forall x, y :: InBounds(mapSize, x, y) ==>
          tiles[x, y] == if x == row && left <= y < col then RoomTile(room.id) else old(tiles[x, y])
        invariant room.tiles == old(room.tiles) + RowSpan(row, left, col - 1)
      {
        DigRoomAt(room, row, col);
        col := col + 1;
      }
    }

    /** The integer tail of GenerateRoom: a new room with the given id, dug at the tile bounds of
        the leaf's room box. */
    method GenerateRoom(id: nat, t: QuadTree) returns (room: Room)
      requires Shaped()
      modifies tiles
      ensures fresh(room) && room.id == id
      ensures room.tiles == DugCells(mapSize, RoomRect(t.roomBox))
      ensures Cells() == DigRoomGrid(old(Cells()), RoomRect(t.roomBox), id)
    {
      room := new Room(id);
      var b := t.roomBox;
      DigRoom(room, b.bottom, b.left, b.top - 1, b.right - 1);
    }

    /** GenerateRooms: one room per childless node, children visited NW, NE, SW, SE; each new
        room's id is the length of the room list when it is added. Rooms already in the list are
        left as they were. */
    method GenerateRooms(t: QuadTree)
      requires Valid()
      modifies this, tiles
      ensures Valid() && tiles == old(tiles)
      ensures old(|rooms|) <= |rooms| && rooms[..old(|rooms|)] == old(rooms)
      ensures forall k :: 0 <= k < old(|rooms|) ==> rooms[k].tiles == old(rooms[k].tiles)
      ensures forall k :: old(|rooms|) <= k < |rooms| ==> fresh(rooms[k])
      ensures RoomsFrom(old(|rooms|), Leaves(t))
      ensures Cells() == DigRooms(old(Cells()), Leaves(t), old(|rooms|))
      decreases t
    {
      if IsLeaf(t) {
        var room := GenerateRoom(|rooms|, t);
        rooms := rooms + [room];
        assert Leaves(t) == [t.roomBox] && Leaves(t)[1..] == [];
        return;
      }
      ghost var n0, g0 := |rooms|, Cells();
      ghost var a, b, c, d := ChildLeaves(t.northWest), ChildLeaves(t.northEast), ChildLeaves(t.southWest), ChildLeaves(t.southEast);
      assert Leaves(t) == a + b + c + d;
      assert [] + a == a;

      GenerateChildRooms(t.northWest, g0, n0, []);
      GenerateChildRooms(t.northEast, g0, n0, a);
      GenerateChildRooms(t.southWest, g0, n0, a + b);
      GenerateChildRooms(t.southEast, g0, n0, a + b + c);
    }

    /** The rooms of one child slot of a node (none when the slot is empty), added after the
        rooms already added for the boxes `done` from index `from` on. */
    method GenerateChildRooms(c: Option<QuadTree>, ghost g0: Grid, ghost from: nat, ghost done: seq<TileBox>)
      requires Valid() && IsGrid(g0) && RoomsFrom(from, done) && Cells() == DigRooms(g0, done, from)
      modifies this, tiles
      ensures Valid() && tiles == old(tiles)
      ensures old(|rooms|) <= |rooms| && rooms[..old(|rooms|)] == old(rooms)
      ensures forall k :: 0 <= k < old(|rooms|) ==> rooms[k].tiles == old(rooms[k].tiles)
      ensures forall k :: old(|rooms|) <= k < |rooms| ==> fresh(rooms[k])
      ensures RoomsFrom(from, done + ChildLeaves(c))
      ensures Cells() == DigRooms(g0, done + ChildLeaves(c), from)
      decreases c
    {
      if c.Some? {
        GenerateRooms(c.value);
        forall k | from <= k < |rooms|
          ensures rooms[k].tiles == DugCells(mapSize, RoomRect((done + ChildLeaves(c))[k - from]))
        {
          if k < old(|rooms|) {
            assert rooms[k] == old(rooms)[k];
          }
        }
        DigRoomsAppend(g0, done, ChildLeaves(c), from);
      } else {
        assert done + ChildLeaves(c) == done;
      }
    }

    /** The rooms from index `from` on were dug, in order, for the boxes of `boxes`. */
    ghost predicate RoomsFrom(from: nat, boxes: seq<TileBox>)
      reads this, rooms
    {
      from + |boxes| == |rooms| &&
      forall k :: from <= k < |rooms| ==> rooms[k].tiles == DugCells(mapSize, RoomRect(boxes[k - from]))
    }

    // -------------------------------------------------------------------------
    // Corridors
    // -------------------------------------------------------------------------

    /** DigCorridor(row, col): anything but a ROOM tile becomes CORRIDOR. */
    method DigCorridorAt(row: int, col: int)
      requires Shaped() && InBounds(mapSize, row, col)
      modifies tiles
      ensures tiles[row, col] == DigCorridorTile(old(tiles[row, col]))
      ensures forall x, y :: InBounds(mapSize, x, y) && !(x == row && y == col) ==> tiles[x, y] == old(tiles[x, y])
    {
      if tiles[row, col].id != ROOM {
        tiles[row, col] := tiles[row, col].(id := CORRIDOR);
      }
    }

    /** Digs the cells with colLo <= col < colEnd and rowLo <= row <= rowHi, column by column. */
    method DigColumns(colLo: int, colEnd: int, rowLo: int, rowHi: int)
      requires Shaped()
      requires colLo >= colEnd || rowLo > rowHi || (0 <= colLo && colEnd <= mapSize && 0 <= rowLo && rowHi < mapSize)
      modifies tiles
      ensures forall x, y :: InBounds(mapSize, x, y) ==>
        tiles[x, y] == if rowLo <= x <= rowHi && colLo <= y < colEnd then DigCorridorTile(old(tiles[x, y])) else old(tiles[x, y])
    {
      var col := colLo;
      while col < colEnd
        invariant colLo <= col && (col <= colEnd || col == colLo)
        invariant forall x, y :: InBounds(mapSize, x, y) ==>
          tiles[x, y] == if rowLo <= x <= rowHi && colLo <= y < col then DigCorridorTile(old(tiles[x, y])) else old(tiles[x, y])
      {
        var row := rowLo;
        while row <= rowHi
          invariant rowLo <= row && (row <= rowHi + 1 || row == rowLo)
          invariant forall x, y :: InBounds(mapSize, x, y) ==>
            tiles[x, y] == if rowLo <= x <= rowHi && (colLo <= y < col || (y == col && x < row)) then DigCorridorTile(old(tiles[x, y])) else old(tiles[x, y])
        {
          DigCorridorAt(row, col);
          row := row + 1;
        }
        col := col + 1;
      }
    }

    /** Digs the cells with rowLo <= row < rowEnd and colLo <= col <= colHi, row by row. */
    method DigRows(rowLo: int, rowEnd: int, colLo: int, colHi: int)
      requires Shaped()
      requires rowLo >= rowEnd || colLo > colHi || (0 <= rowLo && rowEnd <= mapSize && 0 <= colLo && colHi < mapSize)
      modifies tiles
      ensures forall x, y :: InBounds(mapSize, x, y) ==>
        tiles[x, y] == if rowLo <= x < rowEnd && colLo <= y <= colHi then DigCorridorTile(old(tiles[x, y])) else old(tiles[x, y])
    {
      var row := rowLo;
      while row < rowEnd
        invariant rowLo <= row && (row <= rowEnd || row == rowLo)
        invariant forall x, y :: InBounds(mapSize, x, y) ==>
          tiles[x, y] == if rowLo <= x < row && colLo <= y <= colHi then DigCorridorTile(old(tiles[x, y])) else old(tiles[x, y])
      {
        var col := colLo;
        while col <= colHi
          invariant colLo <= col && (col <= colHi + 1 || col == colLo)
          invariant forall x, y :: InBounds(mapSize, x, y) ==>
            tiles[x, y] == if colLo <= y <= colHi && (rowLo <= x < row || (x == row && y < col)) then DigCorridorTile(old(tiles[x, y])) else old(tiles[x, y])
        {
          DigCorridorAt(row, col);
          col := col + 1;
        }
        row := row + 1;
      }
    }

    /** DigCorridor(row1, col1, row2, col2): a vertical band corridorWidth columns wide from col1
        between the two rows, then a horizontal band at row2 between the two columns, which is
        corridorWidth rows high when col1 <= col2 and a single row otherwise. */
    method DigCorridor(row1: int, col1: int, row2: int, col2: int)
      requires Shaped() && CorridorInGrid(mapSize, row1, col1, row2, col2, corridorWidth)
      modifies tiles
      ensures Cells() == CorridorGrid(old(Cells()), row1, col1, row2, col2, corridorWidth)
    {
      ghost var g0 := Cells();
      if row1 <= row2 {
        DigColumns(col1, col1 + corridorWidth, row1, row2);
      } else {
        DigColumns(col1, col1 + corridorWidth, row2, row1);
      }
      ghost var g1 := Cells();

      if col1 <= col2 {
        DigRows(row2, row2 + corridorWidth, col1, col2);
      } else {
        var row := row2;
        while row < row2 + corridorWidth
          invariant row2 <= row && (row <= row2 + corridorWidth || row == row2)
          invariant forall x, y :: InBounds(mapSize, x, y) ==>
            tiles[x, y] == if x == row2 && col2 <= y <= col1 && row > row2 then DigCorridorTile(g1[x][y]) else g1[x][y]
        {
          var col := col2;
          while col <= col1
            invariant col2 <= col <= col1 + 1
            invariant forall x, y :: InBounds(mapSize, x, y) ==>
              tiles[x, y] == if x == row2 && col2 <= y <= col1 && (row > row2 || y < col) then DigCorridorTile(g1[x][y]) else g1[x][y]
          {
            DigCorridorAt(row2, col);
            col := col + 1;
          }
          row := row + 1;
        }
      }
      forall x: int, y: int | InBounds(mapSize, x, y)
        ensures tiles[x, y] == CorridorGrid(g0, row1, col1, row2, col2, corridorWidth)[x][y]
      {
        DigCorridorTileFacts(g0[x][y]);
      }
      CellsAre(CorridorGrid(g0, row1, col1, row2, col2, corridorWidth));
    }

    /** The corridors the space partition asks for, dug in the order given. */
    method GenerateCorridors(digs: seq<CorridorDig>)
      requires Shaped()
      requires forall d :: d in digs ==> CorridorInGrid(mapSize, d.row1, d.col1, d.row2, d.col2, corridorWidth)
      modifies tiles
      ensures Cells() == DigCorridors(old(Cells()), digs, corridorWidth)
    {
      for i := 0 to |digs|
        invariant DigCorridors(old(Cells()), digs, corridorWidth) == DigCorridors(Cells(), digs[i..], corridorWidth)
      {
        assert digs[i..][0] == digs[i] && digs[i..][1..] == digs[i + 1..];
        DigCorridor(digs[i].row1, digs[i].col1, digs[i].row2, digs[i].col2);
      }
    }

    // -------------------------------------------------------------------------
    // Walls
    // -------------------------------------------------------------------------

    /** The first loop of GenerateWalls. */
    method PlaceWalls()
      requires Shaped()
      modifies tiles
      ensures Cells() == WallPass(old(Cells()))
    {
      ghost var g0 := Cells();
      for y := 0 to mapSize
        invariant forall i, j :: InBounds(mapSize, i, j) ==> tiles[i, j] == if j < y then WallCell(g0, i, j) else g0[i][j]
      {
        for x := 0 to mapSize
          invariant forall i, j :: InBounds(mapSize, i, j) ==>
            tiles[i, j] == if Before(i, j, x, y) then WallCell(g0, i, j) else g0[i][j]
        {
          PlaceWallAt(g0, x, y);
        }
      }
      CellsAre(WallPass(g0));
    }

    /** One step of the wall loop. The cells already visited have taken their verdicts, which
        keep passability, so cell (x, y) is judged as on the map before the loop. */
    method PlaceWallAt(ghost g0: Grid, x: int, y: int)
      requires Shaped() && IsGrid(g0) && |g0| == mapSize && InBounds(mapSize, x, y)
      requires forall i, j :: InBounds(mapSize, i, j) ==>
        tiles[i, j] == if Before(i, j, x, y) then WallCell(g0, i, j) else g0[i][j]
      modifies tiles
      ensures forall i, j :: InBounds(mapSize, i, j) ==>
        tiles[i, j] == if Before(i, j, x + 1, y) then WallCell(g0, i, j) else g0[i][j]
    {
      assert forall i, j :: InBounds(mapSize, i, j) ==> PassableKind(tiles[i, j].id) == PassableKind(g0[i][j].id);
      var roomNear := false;
      if IsPassable(x, y) { return; }

      if x > 0 { if IsPassable(x - 1, y) { roomNear := true; } }
      if x < mapSize - 1 { if IsPassable(x + 1, y) { roomNear := true; } }
      if y > 0 { if IsPassable(x, y - 1) { roomNear := true; } }
      if y < mapSize - 1 { if IsPassable(x, y + 1) { roomNear := true; } }
      assert roomNear == PassableNeighbour(g0, x, y);
      if roomNear { SetWall(x, y); }
    }

    /** The second loop of GenerateWalls. */
    method PlaceWallCorners()
      requires Shaped()
      modifies tiles
      ensures Cells() == CornerPass(old(Cells()))
    {
      ghost var g0 := Cells();
      for y := 0 to mapSize
        invariant forall i, j :: InBounds(mapSize, i, j) ==> tiles[i, j] == if j < y then CornerCell(g0, i, j) else g0[i][j]
      {
        for x := 0 to mapSize
          invariant forall i, j :: InBounds(mapSize, i, j) ==>
            tiles[i, j] == if Before(i, j, x, y) then CornerCell(g0, i, j) else g0[i][j]
        {
          CornerTestStable(g0, Cells(), x, y);
          if IsWallCorner(x, y) { SetWallCorner(x, y); }
        }
      }
      CellsAre(CornerPass(g0));
    }

    /** GenerateWalls: the wall loop over the whole map, then the corner loop. */
    method GenerateWalls()
      requires Shaped()
      modifies tiles
      ensures Cells() == GenerateWallsGrid(old(Cells()))
    {
      PlaceWalls();
      PlaceWallCorners();
    }

    /** GenerateWallsOnMapBorders. On a 1 x 1 map the code reads outside the map unless the one
        cell is EMPTY. */
    method GenerateWallsOnMapBorders()
      requires Shaped() && (mapSize != 1 || tiles[0, 0].id == EMPTY)
      modifies tiles
      ensures Cells() == BorderPass(old(Cells()))
    {
      ghost var g0 := Cells();
      for y := 0 to mapSize
        invariant forall i, j :: InBounds(mapSize, i, j) ==> tiles[i, j] == if j < y then BorderCell(g0, i, j) else g0[i][j]
      {
        for x := 0 to mapSize
          invariant forall i, j :: InBounds(mapSize, i, j) ==>
            tiles[i, j] == if Before(i, j, x, y) then BorderCell(g0, i, j) else g0[i][j]
        {
          if x == 0 || y == 0 || x == mapSize - 1 || y == mapSize - 1 {
            var tile := tiles[x, y];
            if !Tiles.IsEmpty(tile) {
              assert mapSize >= 2;
              SeenWallMatches(g0, x, y);
              SetWall(x, y);
              if x == 0 && IsWall(tiles[x + 1, y]) { SetWallCorner(x, y); }
              if y == 0 && IsWall(tiles[x, y + 1]) { SetWallCorner(x, y); }
              if x == mapSize - 1 && IsWall(tiles[x - 1, y]) { SetWallCorner(x, y); }
              if y == mapSize - 1 && IsWall(tiles[x, y - 1]) { SetWallCorner(x, y); }
            }
          }
        }
      }
      CellsAre(BorderPass(g0));
    }

    // -------------------------------------------------------------------------
    // Doors
    // -------------------------------------------------------------------------

    /** The detection loop of GenerateDoors. */
    method PlaceDoors()
      requires Shaped()
      modifies tiles
      ensures Cells() == DoorPass(Detect, old(Cells()))
    {
      ghost var g0 := Cells();
      var y := 1;
      while y < mapSize - 1
        invariant 1 <= y && (y == 1 || y <= mapSize - 1)
        invariant Holds(DoorRows(Detect, g0, y))
      {
        PlaceDoorsInRow(DoorRows(Detect, g0, y), y);
        y := y + 1;
      }
      CellsAre(DoorPass(Detect, g0));
    }

    /** One row of the detection loop, from column 1 to column mapSize - 2. */
    method PlaceDoorsInRow(ghost r: Grid, y: int)
      requires Shaped() && Holds(r) && 1 <= y < mapSize - 1
      modifies tiles
      ensures Holds(DoorRow(Detect, r, y, mapSize - 1))
    {
      var x := 1;
      while x < mapSize - 1
        invariant 1 <= x <= mapSize - 1
        invariant Holds(DoorRow(Detect, r, y, x))
      {
        ghost var h := DoorRow(Detect, r, y, x);
        PlaceDoorAt(h, x, y);
        assert DoorRow(Detect, r, y, x + 1) == Set(h, x, y, DoorAt(Detect, h, x, y));
        x := x + 1;
      }
    }

    /** One step of the detection loop: a CORRIDOR cell with a WALL on one axis and ROOM facing
        CORRIDOR across the other becomes a DOOR. */
    method PlaceDoorAt(ghost h: Grid, x: int, y: int)
      requires Shaped() && Holds(h) && Interior(mapSize, x, y)
      modifies tiles
      ensures Holds(Set(h, x, y, DoorAt(Detect, h, x, y)))
    {
      var tile := tiles[x, y];
      if tile.id != CORRIDOR { return; }
      if tiles[x, y - 1].id == WALL || tiles[x, y + 1].id == WALL {
        if tiles[x + 1, y].id == ROOM && tiles[x - 1, y].id == CORRIDOR { SetDoor(x, y); }
        if tiles[x - 1, y].id == ROOM && tiles[x + 1, y].id == CORRIDOR { SetDoor(x, y); }
      }
      if tiles[x - 1, y].id == WALL || tiles[x + 1, y].id == WALL {
        if tiles[x, y + 1].id == ROOM && tiles[x, y - 1].id == CORRIDOR { SetDoor(x, y); }
        if tiles[x, y - 1].id == ROOM && tiles[x, y + 1].id == CORRIDOR { SetDoor(x, y); }
      }
    }

    /** The correction loop of GenerateDoors. */
    method RemoveBadDoors()
      requires Shaped()
      modifies tiles
      ensures Cells() == DoorPass(Correct, old(Cells()))
    {
      ghost var g0 := Cells();
      var y := 1;
      while y < mapSize - 1
        invariant 1 <= y && (y == 1 || y <= mapSize - 1)
        invariant Holds(DoorRows(Correct, g0, y))
      {
        RemoveBadDoorsInRow(DoorRows(Correct, g0, y), y);
        y := y + 1;
      }
      CellsAre(DoorPass(Correct, g0));
    }

    /** One row of the correction loop, from column 1 to column mapSize - 2. */
    method RemoveBadDoorsInRow(ghost r: Grid, y: int)
      requires Shaped() && Holds(r) && 1 <= y < mapSize - 1
      modifies tiles
      ensures Holds(DoorRow(Correct, r, y, mapSize - 1))
    {
      var x := 1;
      while x < mapSize - 1
        invariant 1 <= x <= mapSize - 1
        invariant Holds(DoorRow(Correct, r, y, x))
      {
        ghost var h := DoorRow(Correct, r, y, x);
        RemoveBadDoorAt(h, x, y);
        assert DoorRow(Correct, r, y, x + 1) == Set(h, x, y, DoorAt(Correct, h, x, y));
        x := x + 1;
      }
    }

    /** One step of the correction loop: a DOOR cell with ROOM facing CORRIDOR across one axis
        and a CORRIDOR on either side of the other goes back to CORRIDOR. */
    method RemoveBadDoorAt(ghost h: Grid, x: int, y: int)
      requires Shaped() && Holds(h) && Interior(mapSize, x, y)
      modifies tiles
      ensures Holds(Set(h, x, y, DoorAt(Correct, h, x, y)))
    {
      var tile := tiles[x, y];
      if tile.id != DOOR { return; }
      if (tiles[x, y - 1].id == ROOM && tiles[x, y + 1].id == CORRIDOR) ||
         (tiles[x, y + 1].id == ROOM && tiles[x, y - 1].id == CORRIDOR) {
        if tiles[x - 1, y].id == CORRIDOR || tiles[x + 1, y].id == CORRIDOR {
          tiles[x, y] := tiles[x, y].(id := CORRIDOR);
        }
      }
      if (tiles[x - 1, y].id == ROOM && tiles[x + 1, y].id == CORRIDOR) ||
         (tiles[x + 1, y].id == ROOM && tiles[x - 1, y].id == CORRIDOR) {
        if tiles[x, y - 1].id == CORRIDOR || tiles[x, y + 1].id == CORRIDOR {
          tiles[x, y] := tiles[x, y].(id := CORRIDOR);
        }
      }
    }

    /** GenerateDoors: detection over the whole map, then correction. */
    method GenerateDoors()
      requires Shaped()
      modifies tiles
      ensures Cells() == GenerateDoorsGrid(old(Cells()))
    {
      PlaceDoors();
      RemoveBadDoors();
    }

    // -------------------------------------------------------------------------
    // The pipeline
    // -------------------------------------------------------------------------

    /** GenerateDungeon: reset, rooms, corridors, walls, doors, then the border repair. The space
        partition is given as `t`, and the corridors it digs as `digs`. */
    method GenerateDungeon(t: QuadTree, digs: seq<CorridorDig>)
      requires Valid() && Completes(mapSize, corridorWidth, t, digs)
      requires forall d :: d in digs ==> CorridorInGrid(mapSize, d.row1, d.col1, d.row2, d.col2, corridorWidth)
      modifies this, tiles
      ensures Valid() && tiles == old(tiles)
      ensures Cells() == GeneratedGrid(mapSize, corridorWidth, t, digs)
      ensures |rooms| == |Leaves(t)|
      ensures forall k :: 0 <= k < |rooms| ==>
        fresh(rooms[k]) && rooms[k].id == k && rooms[k].tiles == DugCells(mapSize, RoomRect(Leaves(t)[k]))
    {
      ResetDungeon();
      GenerateRooms(t);
      assert RoomsFrom(0, Leaves(t));
      GenerateCorridors(digs);
      assert Cells() == CarvedGrid(mapSize, corridorWidth, t, digs);
      GenerateWalls();
      GenerateDoors();
      assert Cells() == DoorsStage(mapSize, corridorWidth, t, digs);
      GenerateWallsOnMapBorders();
    }
  }
}
