/** What digging a room and digging a corridor do to the map, stated on map values. */
module Carving {
  import opened Tiles
  import opened Grids

  function Min(a: int, b: int): int { if a <= b then a else b }
  function Max(a: int, b: int): int { if a <= b then b else a }

  // ---------------------------------------------------------------------------
  // Rooms
  // ---------------------------------------------------------------------------

  /** The inclusive bounds handed to DigRoom: rows rowBottom..rowTop, columns colLeft..colRight. */
  datatype Rect = Rect(rowBottom: int, colLeft: int, rowTop: int, colRight: int)

  /** The bounds after DigRoom has swapped each reversed pair into order. */
  function Ordered(r: Rect): (o: Rect)
    ensures o.rowBottom <= o.rowTop && o.colLeft <= o.colRight
    ensures {o.rowBottom, o.rowTop} == {r.rowBottom, r.rowTop}
    ensures {o.colLeft, o.colRight} == {r.colLeft, r.colRight}
  {
    var rows := if r.rowTop < r.rowBottom then (r.rowTop, r.rowBottom) else (r.rowBottom, r.rowTop);
    var cols := if r.colRight < r.colLeft then (r.colRight, r.colLeft) else (r.colLeft, r.colRight);
    Rect(rows.0, cols.0, rows.1, cols.1)
  }

  /** DigRoom digs only when no edge of the ordered rectangle lies outside the n x n map. */
  predicate Fits(n: int, o: Rect)
  {
    o.rowTop <= n - 1 && 0 <= o.rowBottom && o.colRight <= n - 1 && 0 <= o.colLeft
  }

  predicate InRect(o: Rect, x: int, y: int)
  {
    o.rowBottom <= x <= o.rowTop && o.colLeft <= y <= o.colRight
  }

  /** A tile carved for room `id`. */
  function RoomTile(id: nat): Tile
  {
    Tile(ROOM, Some(id))
  }

  /** The map after DigRoom(room, r) for the room with id `id`. */
  function DigRoomGrid(g: Grid, r: Rect, id: nat): (h: Grid)
    requires IsGrid(g)
    ensures IsGrid(h) && |h| == |g|
  {
    var o := Ordered(r);
    if !Fits(|g|, o) then g
    else seq(|g|, x requires 0 <= x < |g| =>
           seq(|g|, y requires 0 <= y < |g| => if InRect(o, x, y) then RoomTile(id) else g[x][y]))
  }

  /** The cells of row `row` from colLeft to colRight, in the order the inner loop visits them. */
  function RowSpan(row: int, colLeft: int, colRight: int): seq<Pos>
    decreases colRight - colLeft
  {
    if colRight < colLeft then [] else RowSpan(row, colLeft, colRight - 1) + [(row, colRight)]
  }

  /** The cells of the rectangle, row by row from rowBottom up, in loop order. */
  function RectRows(rowBottom: int, rowTop: int, colLeft: int, colRight: int): seq<Pos>
    decreases rowTop - rowBottom
  {
    if rowTop < rowBottom then []
    else RectRows(rowBottom, rowTop - 1, colLeft, colRight) + RowSpan(rowTop, colLeft, colRight)
  }

  /** The positions DigRoom appends to the room's tile list, in order. */
  function DugCells(n: int, r: Rect): seq<Pos>
  {
    var o := Ordered(r);
    if Fits(n, o) then RectRows(o.rowBottom, o.rowTop, o.colLeft, o.colRight) else []
  }

  predicate NoDuplicates(s: seq<Pos>)
  {
    forall i, j :: 0 <= i < j < |s| ==> s[i] != s[j]
  }

  lemma {:induction false} RowSpanFacts(row: int, colLeft: int, colRight: int)
    ensures |RowSpan(row, colLeft, colRight)| == if colRight < colLeft then 0 else colRight - colLeft + 1
    ensures forall p :: p in RowSpan(row, colLeft, colRight) <==> p.0 == row && colLeft <= p.1 <= colRight
    ensures NoDuplicates(RowSpan(row, colLeft, colRight))
    decreases colRight - colLeft
  {
    if colLeft <= colRight {
      RowSpanFacts(row, colLeft, colRight - 1);
    }
  }

  /** The rectangle's cell list has one entry per cell: its length is the area, its members
      are exactly the cells inside, and no cell is listed twice. */
  lemma {:induction false} RectRowsFacts(rowBottom: int, rowTop: int, colLeft: int, colRight: int)
    requires colLeft <= colRight
    ensures |RectRows(rowBottom, rowTop, colLeft, colRight)|
         == (if rowTop < rowBottom then 0 else rowTop - rowBottom + 1) * (colRight - colLeft + 1)
    ensures forall p :: p in RectRows(rowBottom, rowTop, colLeft, colRight) <==> InRect(Rect(rowBottom, colLeft, rowTop, colRight), p.0, p.1)
    ensures NoDuplicates(RectRows(rowBottom, rowTop, colLeft, colRight))
    decreases rowTop - rowBottom
  {
    if rowBottom <= rowTop {
      RectRowsFacts(rowBottom, rowTop - 1, colLeft, colRight);
      RowSpanFacts(rowTop, colLeft, colRight);
      var a := RectRows(rowBottom, rowTop - 1, colLeft, colRight);
      var b := RowSpan(rowTop, colLeft, colRight);
      assert (rowTop - rowBottom + 1) * (colRight - colLeft + 1)
          == (rowTop - rowBottom) * (colRight - colLeft + 1) + (colRight - colLeft + 1);
      forall i, j | 0 <= i < j < |a + b|
        ensures (a + b)[i] != (a + b)[j]
      {
        if j < |a| {
        } else if i >= |a| {
          assert (a + b)[i] == b[i - |a|] && (a + b)[j] == b[j - |a|];
        } else {
          assert (a + b)[i] in a && (a + b)[j] in b;
        }
      }
    }
  }

  /** DigRoom grows the room's tile list by the rectangle's area when the rectangle fits, by
      nothing otherwise; the list holds each cell of the ordered rectangle exactly once. */
  lemma DugCellsFacts(n: int, r: Rect)
    ensures var o := Ordered(r);
      |DugCells(n, r)| == if Fits(n, o) then (o.rowTop - o.rowBottom + 1) * (o.colRight - o.colLeft + 1) else 0
    ensures forall p :: p in DugCells(n, r) <==> Fits(n, Ordered(r)) && InRect(Ordered(r), p.0, p.1)
    ensures NoDuplicates(DugCells(n, r))
  {
    var o := Ordered(r);
    RectRowsFacts(o.rowBottom, o.rowTop, o.colLeft, o.colRight);
  }

  /** The order in which DigRoom's bounds are given does not matter. */
  lemma DigRoomOrderFree(g: Grid, r: Rect, id: nat)
    requires IsGrid(g)
    ensures DigRoomGrid(g, Rect(r.rowTop, r.colLeft, r.rowBottom, r.colRight), id) == DigRoomGrid(g, r, id)
    ensures DigRoomGrid(g, Rect(r.rowBottom, r.colRight, r.rowTop, r.colLeft), id) == DigRoomGrid(g, r, id)
    ensures DugCells(|g|, Rect(r.rowTop, r.colLeft, r.rowBottom, r.colRight)) == DugCells(|g|, r)
    ensures DugCells(|g|, Rect(r.rowBottom, r.colRight, r.rowTop, r.colLeft)) == DugCells(|g|, r)
    ensures DugCells(|g|, Rect(r.rowTop, r.colRight, r.rowBottom, r.colLeft)) == DugCells(|g|, r)
  {
  }

  /** After DigRoom for a room whose id no cell carries yet, the cells pointing back to the room
      are exactly the cells on its tile list, and each of them is a ROOM tile; every other cell is
      as it was. */
  lemma DigRoomBackReferences(g: Grid, r: Rect, id: nat)
    requires IsGrid(g)
    requires forall x, y :: InBounds(|g|, x, y) ==> g[x][y].room != Some(id)
    ensures var h := DigRoomGrid(g, r, id);
      forall x, y :: InBounds(|g|, x, y) ==>
        && (h[x][y].room == Some(id) <==> (x, y) in DugCells(|g|, r))
        && (h[x][y].room == Some(id) ==> h[x][y].id == ROOM)
        && ((x, y) !in DugCells(|g|, r) ==> h[x][y] == g[x][y])
  {
    DugCellsFacts(|g|, r);
  }

  /** Digging the same room twice leaves the map as digging it once. */
  lemma DigRoomIdempotent(g: Grid, r: Rect, id: nat)
    requires IsGrid(g)
    ensures DigRoomGrid(DigRoomGrid(g, r, id), r, id) == DigRoomGrid(g, r, id)
  {
    var h := DigRoomGrid(g, r, id);
    Ext(DigRoomGrid(h, r, id), h);
  }

  // ---------------------------------------------------------------------------
  // Room enumeration over the space partition
  // ---------------------------------------------------------------------------

  /** The tile bounds of the room box sampled for a leaf: bottom and left inclusive, top and
      right exclusive (the box's BottomTile, LeftTile, TopTile and RightTile). */
  datatype TileBox = TileBox(bottom: int, left: int, top: int, right: int)

  /** A node of the space partition: a leaf has no children, and carries the tile box of the room
      that is placed in it. */
  datatype QuadTree = QuadTree(roomBox: TileBox,
                               northWest: Option<QuadTree>, northEast: Option<QuadTree>,
                               southWest: Option<QuadTree>, southEast: Option<QuadTree>)

  predicate IsLeaf(t: QuadTree)
  {
    t.northWest.None? && t.northEast.None? && t.southWest.None? && t.southEast.None?
  }

  /** The room boxes of the childless nodes, visiting children NW, NE, SW, SE depth first. */
  function Leaves(t: QuadTree): seq<TileBox>
    decreases t
  {
    if IsLeaf(t) then [t.roomBox]
    else
      (if t.northWest.Some? then Leaves(t.northWest.value) else [])
      + (if t.northEast.Some? then Leaves(t.northEast.value) else [])
      + (if t.southWest.Some? then Leaves(t.southWest.value) else [])
      + (if t.southEast.Some? then Leaves(t.southEast.value) else [])
  }

  /** The room boxes below an optional child: none when the child is absent. */
  function ChildLeaves(c: Option<QuadTree>): seq<TileBox>
  {
    if c.Some? then Leaves(c.value) else []
  }

  /** The number of childless nodes of the tree. */
  function LeafCount(t: QuadTree): nat
    decreases t
  {
    if IsLeaf(t) then 1
    else
      (if t.northWest.Some? then LeafCount(t.northWest.value) else 0)
      + (if t.northEast.Some? then LeafCount(t.northEast.value) else 0)
      + (if t.southWest.Some? then LeafCount(t.southWest.value) else 0)
      + (if t.southEast.Some? then LeafCount(t.southEast.value) else 0)
  }

  /** One room box per childless node. */
  lemma {:induction false} LeavesCount(t: QuadTree)
    ensures |Leaves(t)| == LeafCount(t) >= 1
    decreases t
  {
    if !IsLeaf(t) {
      if t.northWest.Some? { LeavesCount(t.northWest.value); }
      if t.northEast.Some? { LeavesCount(t.northEast.value); }
      if t.southWest.Some? { LeavesCount(t.southWest.value); }
      if t.southEast.Some? { LeavesCount(t.southEast.value); }
    }
  }

  /** The inclusive bounds GenerateRoom passes to DigRoom for a room box. */
  function RoomRect(b: TileBox): Rect
  {
    Rect(b.bottom, b.left, b.top - 1, b.right - 1)
  }

  /** The map after digging the rooms of `boxes` in order, with ids firstId, firstId + 1, ... */
  function DigRooms(g: Grid, boxes: seq<TileBox>, firstId: nat): (h: Grid)
    requires IsGrid(g)
    ensures IsGrid(h) && |h| == |g|
    decreases |boxes|
  {
    if boxes == [] then g
    else DigRooms(DigRoomGrid(g, RoomRect(boxes[0]), firstId), boxes[1..], firstId + 1)
  }

  /** Digging two lists of rooms one after the other is digging their concatenation,
      the second list's ids continuing where the first's stopped. */
  lemma {:induction false} DigRoomsAppend(g: Grid, a: seq<TileBox>, b: seq<TileBox>, firstId: nat)
    requires IsGrid(g)
    ensures DigRooms(g, a + b, firstId) == DigRooms(DigRooms(g, a, firstId), b, firstId + |a|)
    decreases |a|
  {
    if a == [] {
      assert a + b == b;
    } else {
      assert (a + b)[0] == a[0];
      assert (a + b)[1..] == a[1..] + b;
      DigRoomsAppend(DigRoomGrid(g, RoomRect(a[0]), firstId), a[1..], b, firstId + 1);
    }
  }

  // ---------------------------------------------------------------------------
  // Corridors
  // ---------------------------------------------------------------------------

  /** Digging a corridor through one tile: a ROOM tile is kept, any other becomes CORRIDOR. */
  function DigCorridorTile(t: Tile): Tile
  {
    if t.id != ROOM then t.(id := CORRIDOR) else t
  }

  /** A dug tile is passable, keeps its room reference, and digging it again changes nothing. */
  lemma DigCorridorTileFacts(t: Tile)
    ensures PassableKind(DigCorridorTile(t).id)
    ensures DigCorridorTile(t).room == t.room
    ensures DigCorridorTile(DigCorridorTile(t)) == DigCorridorTile(t)
    ensures t.id == ROOM <==> DigCorridorTile(t).id == ROOM
  {
  }

  /** The vertical band: `w` columns from col1, over the rows between row1 and row2. */
  predicate InVerticalBand(row1: int, col1: int, row2: int, w: int, row: int, col: int)
  {
    col1 <= col < col1 + w && Min(row1, row2) <= row <= Max(row1, row2)
  }

  /** The horizontal band as the code digs it: `w` rows from row2 over col1..col2 when
      col1 <= col2, but only row row2 over col2..col1 when col1 > col2. */
  predicate InHorizontalBand(col1: int, row2: int, col2: int, w: int, row: int, col: int)
  {
    if col1 <= col2 then row2 <= row < row2 + w && col1 <= col <= col2
    else 0 < w && row == row2 && col2 <= col <= col1
  }

  predicate InCorridor(row1: int, col1: int, row2: int, col2: int, w: int, row: int, col: int)
  {
    InVerticalBand(row1, col1, row2, w, row, col) || InHorizontalBand(col1, row2, col2, w, row, col)
  }

  /** Every cell the corridor digging visits lies inside the n x n map. */
  predicate CorridorInGrid(n: int, row1: int, col1: int, row2: int, col2: int, w: int)
  {
    w <= 0 ||
    (0 <= col1 && col1 + w <= n && 0 <= Min(row1, row2) && Max(row1, row2) < n &&
     if col1 <= col2 then 0 <= row2 && row2 + w <= n && col2 < n
     else 0 <= row2 < n && 0 <= col2 && col1 < n)
  }

  /** CorridorInGrid holds exactly when every cell of the corridor's footprint is in the map. */
  lemma CorridorInGridExact(n: int, row1: int, col1: int, row2: int, col2: int, w: int)
    ensures CorridorInGrid(n, row1, col1, row2, col2, w)
        <==> forall row, col :: InCorridor(row1, col1, row2, col2, w, row, col) ==> InBounds(n, row, col)
  {
    if !CorridorInGrid(n, row1, col1, row2, col2, w) {
      var lo, hi := Min(row1, row2), Max(row1, row2);
      var bad: Pos;
      if col1 < 0 { bad := (lo, col1); }
      else if col1 + w > n { bad := (lo, col1 + w - 1); }
      else if lo < 0 { bad := (lo, col1); }
      else if hi >= n { bad := (hi, col1); }
      else if col1 <= col2 {
        if row2 < 0 { bad := (row2, col1); }
        else if row2 + w > n { bad := (row2 + w - 1, col1); }
        else { bad := (row2, col2); }
      } else {
        if row2 < 0 || row2 >= n { bad := (row2, col2); }
        else if col2 < 0 { bad := (row2, col2); }
        else { bad := (row2, col1); }
      }
      assert InCorridor(row1, col1, row2, col2, w, bad.0, bad.1) && !InBounds(n, bad.0, bad.1);
    }
  }

  /** The map after DigCorridor(row1, col1, row2, col2) with corridor width w. */
  function CorridorGrid(g: Grid, row1: int, col1: int, row2: int, col2: int, w: int): (h: Grid)
    requires IsGrid(g)
    ensures IsGrid(h) && |h| == |g|
  {
    seq(|g|, x requires 0 <= x < |g| =>
      seq(|g|, y requires 0 <= y < |g| =>
        if InCorridor(row1, col1, row2, col2, w, x, y) then DigCorridorTile(g[x][y]) else g[x][y]))
  }

  /** The L-shaped path from (row1, col1) down column col1 to row row2, then along row row2 to col2. */
  predicate OnLPath(row1: int, col1: int, row2: int, col2: int, x: int, y: int)
  {
    (y == col1 && Min(row1, row2) <= x <= Max(row1, row2)) || (x == row2 && Min(col1, col2) <= y <= Max(col1, col2))
  }

  /** The corridor connects its end points: for a positive width, every cell of the L-shaped
      path that runs along column col1 from row1 to row2 and then along row row2 from col1 to col2
      is passable afterwards, and ROOM cells are still ROOM cells of the same room. */
  lemma CorridorConnects(g: Grid, row1: int, col1: int, row2: int, col2: int, w: int)
    requires IsGrid(g) && w >= 1
    ensures var h := CorridorGrid(g, row1, col1, row2, col2, w);
      forall x, y :: InBounds(|g|, x, y) ==>
        && (OnLPath(row1, col1, row2, col2, x, y) ==> PassableKind(h[x][y].id))
        && (g[x][y].id == ROOM ==> h[x][y] == g[x][y])
  {
    forall x: int, y: int | InBounds(|g|, x, y)
      ensures PassableKind(CorridorGrid(g, row1, col1, row2, col2, w)[x][y].id) || !InCorridor(row1, col1, row2, col2, w, x, y)
    {
      DigCorridorTileFacts(g[x][y]);
    }
  }

  /** The two column orders are not mirror images: with c1 < c2 and width at least 2 the
      horizontal band covers row row2 + 1, but with the columns swapped it covers row row2 only. */
  lemma HorizontalBandAsymmetric(row2: int, c1: int, c2: int, w: int)
    requires c1 < c2 && w >= 2
    ensures InHorizontalBand(c1, row2, c2, w, row2 + 1, c1)
    ensures !InHorizontalBand(c2, row2, c1, w, row2 + 1, c1)
    ensures InHorizontalBand(c2, row2, c1, w, row2, c1)
  {
  }

  /** A request to dig a corridor between two tile positions. */
  datatype CorridorDig = CorridorDig(row1: int, col1: int, row2: int, col2: int)

  /** The map after digging the corridors of `digs` in order. */
  function DigCorridors(g: Grid, digs: seq<CorridorDig>, w: int): (h: Grid)
    requires IsGrid(g)
    ensures IsGrid(h) && |h| == |g|
    decreases |digs|
  {
    if digs == [] then g
    else DigCorridors(CorridorGrid(g, digs[0].row1, digs[0].col1, digs[0].row2, digs[0].col2, w), digs[1..], w)
  }
}
