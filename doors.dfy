/** The door pass: a detection scan that turns CORRIDOR cells into DOOR, then a correction
    scan that turns some DOOR cells back into CORRIDOR. Both scans update the map in place,
    row by row, so a cell's verdict depends on the verdicts already given to the cells before it;
    they are stated here as folds over the scan order. */
module Doors {
  import opened Tiles
  import opened Grids

  datatype DoorScan = Detect | Correct

  /** The cells both scans visit: neither index on the outer ring. */
  predicate Interior(n: int, x: int, y: int)
  {
    1 <= x < n - 1 && 1 <= y < n - 1
  }

  /** One of two opposite neighbours is ROOM and the other CORRIDOR. */
  predicate RoomOpposite(a: TileType, b: TileType)
  {
    (a == ROOM && b == CORRIDOR) || (b == ROOM && a == CORRIDOR)
  }

  /** Detection: a WALL on one axis, and ROOM facing CORRIDOR across the other axis. */
  predicate DoorPattern(g: Grid, x: int, y: int)
    requires IsGrid(g) && Interior(|g|, x, y)
  {
    ((g[x][y - 1].id == WALL || g[x][y + 1].id == WALL) && RoomOpposite(g[x + 1][y].id, g[x - 1][y].id)) ||
    ((g[x - 1][y].id == WALL || g[x + 1][y].id == WALL) && RoomOpposite(g[x][y + 1].id, g[x][y - 1].id))
  }

  /** Correction: ROOM facing CORRIDOR across one axis, and a CORRIDOR on either side of the other. */
  predicate BadDoor(g: Grid, x: int, y: int)
    requires IsGrid(g) && Interior(|g|, x, y)
  {
    (RoomOpposite(g[x][y - 1].id, g[x][y + 1].id) && (g[x - 1][y].id == CORRIDOR || g[x + 1][y].id == CORRIDOR)) ||
    (RoomOpposite(g[x - 1][y].id, g[x + 1][y].id) && (g[x][y - 1].id == CORRIDOR || g[x][y + 1].id == CORRIDOR))
  }

  /** The kind a scan looks at, and the kind it turns it into. */
  function From(s: DoorScan): TileType
  {
    match s
    case Detect => CORRIDOR
    case Correct => DOOR
  }

  function To(s: DoorScan): TileType
  {
    match s
    case Detect => DOOR
    case Correct => CORRIDOR
  }

  predicate Fires(s: DoorScan, g: Grid, x: int, y: int)
    requires IsGrid(g) && Interior(|g|, x, y)
  {
    match s
    case Detect => DoorPattern(g, x, y)
    case Correct => BadDoor(g, x, y)
  }

  /** A scan's verdict on cell (x, y), given the map as the scan finds it there. */
  function DoorAt(s: DoorScan, g: Grid, x: int, y: int): Tile
    requires IsGrid(g) && Interior(|g|, x, y)
  {
    if g[x][y].id == From(s) && Fires(s, g, x, y) then g[x][y].(id := To(s)) else g[x][y]
  }

  /** The map once the scan has visited cells 1 .. x-1 of row y, starting from g. */
  function DoorRow(s: DoorScan, g: Grid, y: int, x: int): (h: Grid)
    requires IsGrid(g) && 1 <= y < |g| - 1 && 1 <= x <= |g| - 1
    ensures IsGrid(h) && |h| == |g|
    decreases x
  {
    if x == 1 then g
    else
      var h := DoorRow(s, g, y, x - 1);
      Set(h, x - 1, y, DoorAt(s, h, x - 1, y))
  }

  /** The map once the scan has visited rows 1 .. y-1, starting from g. */
  function DoorRows(s: DoorScan, g: Grid, y: int): (h: Grid)
    requires IsGrid(g) && 1 <= y && (y == 1 || y <= |g| - 1)
    ensures IsGrid(h) && |h| == |g|
    decreases y
  {
    if y == 1 then g else DoorRow(s, DoorRows(s, g, y - 1), y - 1, |g| - 1)
  }

  /** The map after a whole scan. */
  function DoorPass(s: DoorScan, g: Grid): (h: Grid)
    requires IsGrid(g)
    ensures IsGrid(h) && |h| == |g|
  {
    if |g| < 2 then g else DoorRows(s, g, |g| - 1)
  }

  /** GenerateDoors: detection over the whole map, then correction. */
  function GenerateDoorsGrid(g: Grid): (h: Grid)
    requires IsGrid(g)
    ensures IsGrid(h) && |h| == |g|
  {
    DoorPass(Correct, DoorPass(Detect, g))
  }

  // ---------------------------------------------------------------------------
  // What the scans may change
  // ---------------------------------------------------------------------------

  /** h differs from g only at interior cells of kind `from`, which have become `to`. */
  ghost predicate Recolours(g: Grid, h: Grid, from: TileType, to: TileType)
    requires IsGrid(g) && IsGrid(h) && |g| == |h|
  {
    forall x, y :: InBounds(|g|, x, y) ==>
      h[x][y] == g[x][y] || (Interior(|g|, x, y) && g[x][y].id == from && h[x][y] == g[x][y].(id := to))
  }

  lemma RecoloursTrans(g: Grid, h: Grid, k: Grid, from: TileType, to: TileType)
    requires IsGrid(g) && IsGrid(h) && IsGrid(k) && |g| == |h| == |k| && from != to
    requires Recolours(g, h, from, to) && Recolours(h, k, from, to)
    ensures Recolours(g, k, from, to)
  {
  }

  /** A partial row of a scan recolours only `From(s)` cells to `To(s)`. */
  lemma {:induction false} DoorRowRecolours(s: DoorScan, g: Grid, y: int, x: int)
    requires IsGrid(g) && 1 <= y < |g| - 1 && 1 <= x <= |g| - 1
    ensures Recolours(g, DoorRow(s, g, y, x), From(s), To(s))
    decreases x
  {
    if x > 1 {
      var h := DoorRow(s, g, y, x - 1);
      DoorRowRecolours(s, g, y, x - 1);
      RecoloursTrans(g, h, DoorRow(s, g, y, x), From(s), To(s));
    }
  }

  lemma {:induction false} DoorRowsRecolours(s: DoorScan, g: Grid, y: int)
    requires IsGrid(g) && 1 <= y && (y == 1 || y <= |g| - 1)
    ensures Recolours(g, DoorRows(s, g, y), From(s), To(s))
    decreases y
  {
    if y > 1 {
      var h := DoorRows(s, g, y - 1);
      DoorRowsRecolours(s, g, y - 1);
      DoorRowRecolours(s, h, y - 1, |g| - 1);
      RecoloursTrans(g, h, DoorRows(s, g, y), From(s), To(s));
    }
  }

  /** Detection changes only interior CORRIDOR cells, and only to DOOR; correction changes only
      interior DOOR cells, and only back to CORRIDOR. Ring cells and all other kinds stay. */
  lemma DoorPassRecolours(s: DoorScan, g: Grid)
    requires IsGrid(g)
    ensures Recolours(g, DoorPass(s, g), From(s), To(s))
  {
    if |g| >= 2 {
      DoorRowsRecolours(s, g, |g| - 1);
    }
  }

  // ---------------------------------------------------------------------------
  // Where the doors end up
  // ---------------------------------------------------------------------------

  /** One of two opposite neighbours is ROOM and the other CORRIDOR or DOOR. */
  predicate RoomFacing(a: TileType, b: TileType)
  {
    (a == ROOM && b in {CORRIDOR, DOOR}) || (b == ROOM && a in {CORRIDOR, DOOR})
  }

  /** (x, y) is a doorway: a WALL on one axis, and on the other axis a ROOM facing a CORRIDOR or
      DOOR cell. */
  predicate InDoorway(g: Grid, x: int, y: int)
    requires IsGrid(g) && Interior(|g|, x, y)
  {
    ((g[x][y - 1].id == WALL || g[x][y + 1].id == WALL) && RoomFacing(g[x + 1][y].id, g[x - 1][y].id)) ||
    ((g[x - 1][y].id == WALL || g[x + 1][y].id == WALL) && RoomFacing(g[x][y + 1].id, g[x][y - 1].id))
  }

  /** Every DOOR of h that was not a DOOR in g is an interior doorway. */
  ghost predicate NewDoorsSited(g: Grid, h: Grid)
    requires IsGrid(g) && IsGrid(h) && |g| == |h|
  {
    forall x, y :: InBounds(|g|, x, y) && h[x][y].id == DOOR && g[x][y].id != DOOR ==>
      Interior(|g|, x, y) && InDoorway(h, x, y)
  }

  /** Recolouring between CORRIDOR and DOOR keeps every ROOM and WALL cell and keeps the other
      cells within CORRIDOR and DOOR, so it keeps InDoorway at every cell. */
  lemma InDoorwayStable(h: Grid, k: Grid, from: TileType, to: TileType)
    requires IsGrid(h) && IsGrid(k) && |h| == |k|
    requires from in {CORRIDOR, DOOR} && to in {CORRIDOR, DOOR}
    requires Recolours(h, k, from, to)
    ensures forall x, y :: Interior(|h|, x, y) ==> (InDoorway(h, x, y) <==> InDoorway(k, x, y))
  {
    forall x: int, y: int | Interior(|h|, x, y)
      ensures InDoorway(h, x, y) <==> InDoorway(k, x, y)
    {
      assert InBounds(|h|, x - 1, y) && InBounds(|h|, x + 1, y);
      assert InBounds(|h|, x, y - 1) && InBounds(|h|, x, y + 1);
    }
  }

  lemma {:induction false} DetectRowSites(g: Grid, y: int, x: int)
    requires IsGrid(g) && 1 <= y < |g| - 1 && 1 <= x <= |g| - 1
    ensures NewDoorsSited(g, DoorRow(Detect, g, y, x))
    decreases x
  {
    if x > 1 {
      var h := DoorRow(Detect, g, y, x - 1);
      var k := DoorRow(Detect, g, y, x);
      DetectRowSites(g, y, x - 1);
      DoorRowRecolours(Detect, g, y, x - 1);
      assert Recolours(h, k, CORRIDOR, DOOR) by {
        assert k == Set(h, x - 1, y, DoorAt(Detect, h, x - 1, y));
      }
      InDoorwayStable(h, k, CORRIDOR, DOOR);
      forall i: int, j: int | InBounds(|g|, i, j) && k[i][j].id == DOOR && g[i][j].id != DOOR
        ensures Interior(|g|, i, j) && InDoorway(k, i, j)
      {
        if h[i][j].id != DOOR {
          assert i == x - 1 && j == y;
          assert InDoorway(h, i, j);
        }
      }
    }
  }

  lemma {:induction false} DetectRowsSites(g: Grid, y: int)
    requires IsGrid(g) && 1 <= y && (y == 1 || y <= |g| - 1)
    ensures NewDoorsSited(g, DoorRows(Detect, g, y))
    decreases y
  {
    if y > 1 {
      var h := DoorRows(Detect, g, y - 1);
      var k := DoorRows(Detect, g, y);
      DetectRowsSites(g, y - 1);
      DoorRowsRecolours(Detect, g, y - 1);
      DetectRowSites(h, y - 1, |g| - 1);
      DoorRowRecolours(Detect, h, y - 1, |g| - 1);
      InDoorwayStable(h, k, CORRIDOR, DOOR);
    }
  }

  /** After GenerateDoors, ROOM and WALL cells are as they were, a cell changed only if it is an
      interior CORRIDOR or DOOR cell and it changed between those two kinds, and every DOOR that
      was not a DOOR before sits in a doorway: a WALL neighbour on one axis, and on the other a
      ROOM facing a CORRIDOR or DOOR. */
  lemma GenerateDoorsFacts(g: Grid)
    requires IsGrid(g)
    ensures var h := GenerateDoorsGrid(g);
      forall x, y :: InBounds(|g|, x, y) ==>
        && (h[x][y] == g[x][y] ||
            (Interior(|g|, x, y) && g[x][y].id in {CORRIDOR, DOOR} && h[x][y].id in {CORRIDOR, DOOR} &&
             h[x][y].room == g[x][y].room))
        && (h[x][y].id == DOOR && g[x][y].id != DOOR ==> Interior(|g|, x, y) && InDoorway(h, x, y))
  {
    var d := DoorPass(Detect, g);
    var h := DoorPass(Correct, d);
    DoorPassRecolours(Detect, g);
    DoorPassRecolours(Correct, d);
    if |g| >= 2 {
      DetectRowsSites(g, |g| - 1);
    }
    assert NewDoorsSited(g, d);
    InDoorwayStable(d, h, DOOR, CORRIDOR);
    forall x: int, y: int | InBounds(|g|, x, y) && h[x][y].id == DOOR && g[x][y].id != DOOR
      ensures Interior(|g|, x, y) && InDoorway(h, x, y)
    {
      assert d[x][y].id == DOOR;
      assert InDoorway(d, x, y);
    }
  }

  // ---------------------------------------------------------------------------
  // The correction scan is not idempotent
  // ---------------------------------------------------------------------------

  function Blank(): Tile { NewTile(EMPTY) }

  /** A 4 x 4 map with DOOR cells at (1, 1) and (2, 1). ROOM lies to one side and CORRIDOR to the
      other of both, across the second index; (0, 1) is WALL and (3, 1) is CORRIDOR. */
  function TwoDoors(): (g: Grid)
    ensures IsGrid(g) && |g| == 4
  {
    [[Blank(), NewTile(WALL), Blank(), Blank()],
     [NewTile(ROOM), NewTile(DOOR), NewTile(CORRIDOR), Blank()],
     [NewTile(ROOM), NewTile(DOOR), NewTile(CORRIDOR), Blank()],
     [Blank(), NewTile(CORRIDOR), Blank(), Blank()]]
  }

  /** One correction scan over TwoDoors reverts (2, 1), whose right neighbour is CORRIDOR, but
      keeps (1, 1), which was visited while its right neighbour was still a DOOR. A second scan
      then reverts (1, 1) too: running the correction scan twice is not running it once. */
  lemma CorrectionNotIdempotent()
    ensures var once := DoorPass(Correct, TwoDoors());
      once[1][1].id == DOOR && once[2][1].id == CORRIDOR &&
      DoorPass(Correct, once)[1][1].id == CORRIDOR
  {
    var g: Grid := TwoDoors();
    var a: Grid := DoorRow(Correct, g, 1, 2);
    assert a == Set(g, 1, 1, DoorAt(Correct, g, 1, 1));
    assert a[1][1].id == DOOR;
    var b: Grid := DoorRow(Correct, g, 1, 3);
    assert b == Set(a, 2, 1, DoorAt(Correct, a, 2, 1));
    assert b[2][1].id == CORRIDOR && b[1][1].id == DOOR;
    var once: Grid := DoorPass(Correct, g);
    assert once == DoorRow(Correct, b, 2, 3);
    DoorRowRecolours(Correct, b, 2, 3);
    assert once[1][1] == b[1][1] && once[2][1] == b[2][1];
    assert once[1][0].id == ROOM && once[1][2].id == CORRIDOR && once[2][1].id == CORRIDOR;
    var c: Grid := DoorRow(Correct, once, 1, 2);
    assert c == Set(once, 1, 1, DoorAt(Correct, once, 1, 1));
    assert c[1][1].id == CORRIDOR;
    var twice: Grid := DoorPass(Correct, once);
    DoorRowRecolours(Correct, c, 1, 3);
    DoorRowsRecolours(Correct, DoorRows(Correct, once, 2), 3);
    assert twice[1][1].id == CORRIDOR;
  }
}
