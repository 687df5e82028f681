/** The wall pass, the wall-corner pass and the map-border repair, stated on map values. */
module Walls {
  import opened Tiles
  import opened Grids

  // ---------------------------------------------------------------------------
  // Wall pass
  // ---------------------------------------------------------------------------

  /** Some in-bounds 4-neighbour of (x, y) is passable. */
  predicate PassableNeighbour(g: Grid, x: int, y: int)
    requires IsGrid(g) && InBounds(|g|, x, y)
  {
    var n := |g|;
    (x > 0 && PassableKind(g[x - 1][y].id)) || (x < n - 1 && PassableKind(g[x + 1][y].id)) ||
    (y > 0 && PassableKind(g[x][y - 1].id)) || (y < n - 1 && PassableKind(g[x][y + 1].id))
  }

  /** The wall pass's verdict on one cell, taken from the map as it was before the pass. */
  function WallCell(g: Grid, x: int, y: int): Tile
    requires IsGrid(g) && InBounds(|g|, x, y)
  {
    var t := g[x][y];
    if !PassableKind(t.id) && PassableNeighbour(g, x, y) then t.(id := WALL) else t
  }

  /** The map after the wall pass, every cell decided from the map before the pass. */
  function WallPass(g: Grid): (h: Grid)
    requires IsGrid(g)
    ensures IsGrid(h) && |h| == |g|
  {
    seq(|g|, x requires 0 <= x < |g| => seq(|g|, y requires 0 <= y < |g| => WallCell(g, x, y)))
  }

  /** The wall pass keeps passable cells, turns a non-passable cell into WALL exactly when it was
      WALL already or has a passable in-bounds 4-neighbour, keeps every other cell, and never
      touches a room reference. */
  lemma WallPassFacts(g: Grid)
    requires IsGrid(g)
    ensures var h := WallPass(g);
      forall x, y :: InBounds(|g|, x, y) ==>
        && h[x][y].room == g[x][y].room
        && PassableKind(h[x][y].id) == PassableKind(g[x][y].id)
        && (PassableKind(g[x][y].id) ==> h[x][y] == g[x][y])
        && (!PassableKind(g[x][y].id) ==> (h[x][y].id == WALL <==> g[x][y].id == WALL || PassableNeighbour(g, x, y)))
        && (h[x][y].id != WALL ==> h[x][y] == g[x][y])
  {
  }

  /** Running the wall pass a second time changes nothing. */
  lemma WallPassIdempotent(g: Grid)
    requires IsGrid(g)
    ensures WallPass(WallPass(g)) == WallPass(g)
  {
    var h: Grid := WallPass(g);
    WallPassFacts(g);
    forall x: int, y: int | InBounds(|g|, x, y)
      ensures WallPass(h)[x][y] == h[x][y]
    {
      assert PassableNeighbour(h, x, y) == PassableNeighbour(g, x, y);
    }
    Ext(WallPass(h), h);
  }

  /** Every in-bounds 4-neighbour of cell (x, y) is passable or WALL. */
  predicate Enclosed(g: Grid, x: int, y: int)
    requires IsGrid(g) && InBounds(|g|, x, y)
  {
    var n := |g|;
    (x > 0 ==> PassableKind(g[x - 1][y].id) || g[x - 1][y].id == WALL) &&
    (x < n - 1 ==> PassableKind(g[x + 1][y].id) || g[x + 1][y].id == WALL) &&
    (y > 0 ==> PassableKind(g[x][y - 1].id) || g[x][y - 1].id == WALL) &&
    (y < n - 1 ==> PassableKind(g[x][y + 1].id) || g[x][y + 1].id == WALL)
  }

  /** After the wall pass every passable cell is fenced in: each of its 4-neighbours is passable
      or WALL, so no passable cell touches an EMPTY, WALLCORNER or DOOR cell. */
  lemma WallPassEncloses(g: Grid)
    requires IsGrid(g)
    ensures var h := WallPass(g);
      forall x, y :: InBounds(|g|, x, y) && PassableKind(h[x][y].id) ==> Enclosed(h, x, y)
  {
    var h: Grid := WallPass(g);
    WallPassFacts(g);
    forall x: int, y: int | InBounds(|g|, x, y) && PassableKind(h[x][y].id)
      ensures Enclosed(h, x, y)
    {
      var n := |g|;
      if x > 0 { assert PassableNeighbour(g, x - 1, y); }
      if x < n - 1 { assert PassableNeighbour(g, x + 1, y); }
      if y > 0 { assert PassableNeighbour(g, x, y - 1); }
      if y < n - 1 { assert PassableNeighbour(g, x, y + 1); }
    }
  }

  // ---------------------------------------------------------------------------
  // Wall-corner pass
  // ---------------------------------------------------------------------------

  /** The corner pass's verdict on one cell, taken from the map as it was before the pass. */
  function CornerCell(g: Grid, x: int, y: int): Tile
    requires IsGrid(g) && InBounds(|g|, x, y)
  {
    if IsWallCornerAt(g, x, y) then g[x][y].(id := WALLCORNER) else g[x][y]
  }

  /** The map after the corner pass, every cell decided from the map before the pass. */
  function CornerPass(g: Grid): (h: Grid)
    requires IsGrid(g)
    ensures IsGrid(h) && |h| == |g|
  {
    seq(|g|, x requires 0 <= x < |g| => seq(|g|, y requires 0 <= y < |g| => CornerCell(g, x, y)))
  }

  /** Two maps that agree on which cells are WALL everywhere, and agree on cell (x, y) itself,
      give the same corner test at (x, y). */
  lemma CornerTestStable(g: Grid, h: Grid, x: int, y: int)
    requires IsGrid(g) && IsGrid(h) && |g| == |h| && InBounds(|g|, x, y)
    requires h[x][y] == g[x][y]
    requires forall i, j :: InBounds(|g|, i, j) ==> (h[i][j].id == WALL <==> g[i][j].id == WALL)
    ensures IsWallCornerAt(h, x, y) == IsWallCornerAt(g, x, y)
  {
  }

  /** The corner pass changes only EMPTY cells, and only to WALLCORNER; a cell changes exactly
      when the corner test holds for it; the WALL cells are the same before and after. */
  lemma CornerPassFacts(g: Grid)
    requires IsGrid(g)
    ensures var h := CornerPass(g);
      forall x, y :: InBounds(|g|, x, y) ==>
        && (h[x][y] != g[x][y] <==> IsWallCornerAt(g, x, y))
        && (h[x][y] != g[x][y] ==> g[x][y].id == EMPTY && h[x][y] == g[x][y].(id := WALLCORNER))
        && (h[x][y].id == WALL <==> g[x][y].id == WALL)
  {
  }

  /** Marking a corner never alters another cell's test, so a second corner pass changes nothing. */
  lemma CornerPassIdempotent(g: Grid)
    requires IsGrid(g)
    ensures CornerPass(CornerPass(g)) == CornerPass(g)
  {
    var h: Grid := CornerPass(g);
    CornerPassFacts(g);
    forall x: int, y: int | InBounds(|g|, x, y)
      ensures CornerPass(h)[x][y] == h[x][y]
    {
      if !IsWallCornerAt(g, x, y) {
        CornerTestStable(g, h, x, y);
      }
    }
    Ext(CornerPass(h), h);
  }

  /** GenerateWalls: the wall pass over the whole map, then the corner pass. */
  function GenerateWallsGrid(g: Grid): (h: Grid)
    requires IsGrid(g)
    ensures IsGrid(h) && |h| == |g|
  {
    CornerPass(WallPass(g))
  }

  /** After both passes every passable cell is still fenced in by passable or WALL cells, and
      the passable cells are those of the map before. */
  lemma GenerateWallsEncloses(g: Grid)
    requires IsGrid(g)
    ensures var h := GenerateWallsGrid(g);
      forall x, y :: InBounds(|g|, x, y) ==>
        && PassableKind(h[x][y].id) == PassableKind(g[x][y].id)
        && (PassableKind(h[x][y].id) ==> Enclosed(h, x, y))
  {
    var w := WallPass(g);
    WallPassFacts(g);
    WallPassEncloses(g);
    CornerPassFacts(w);
  }

  // ---------------------------------------------------------------------------
  // Map-border repair
  // ---------------------------------------------------------------------------

  /** Whether the border scan, standing at ring cell (x, y), finds cell (i, j) to be a wall
      (WALL, WALLCORNER or DOOR). A ring cell the scan has already passed was turned into a
      wall kind exactly when it was not EMPTY; every other cell is still as it was. */
  predicate SeenWall(g: Grid, i: int, j: int, x: int, y: int)
    requires IsGrid(g) && InBounds(|g|, i, j)
  {
    if OnRing(|g|, i, j) && Before(i, j, x, y) then g[i][j].id != EMPTY else IsWall(g[i][j])
  }

  /** The inward neighbour of ring cell (x, y), on any side the cell lies on, is seen as a wall. */
  predicate InwardWall(g: Grid, x: int, y: int)
    requires IsGrid(g) && |g| >= 2 && InBounds(|g|, x, y)
  {
    var n := |g|;
    (x == 0 && SeenWall(g, x + 1, y, x, y)) || (y == 0 && SeenWall(g, x, y + 1, x, y)) ||
    (x == n - 1 && SeenWall(g, x - 1, y, x, y)) || (y == n - 1 && SeenWall(g, x, y - 1, x, y))
  }

  /** Partway through the scan, at ring or interior cell (x, y), a cell (i, j) other than (x, y)
      holds its repaired value if the scan has passed it and its old value otherwise; either way it
      is a wall kind exactly when SeenWall says so. */
  lemma SeenWallMatches(g: Grid, x: int, y: int)
    requires IsGrid(g) && |g| >= 2 && InBounds(|g|, x, y)
    ensures forall i, j :: InBounds(|g|, i, j) ==>
      IsWall(if Before(i, j, x, y) then BorderCell(g, i, j) else g[i][j]) == SeenWall(g, i, j, x, y)
  {
  }

  /** The border repair's verdict on one cell, taken from the map before the repair. */
  function BorderCell(g: Grid, x: int, y: int): Tile
    requires IsGrid(g) && InBounds(|g|, x, y)
    requires |g| >= 2 || g[x][y].id == EMPTY
  {
    var t := g[x][y];
    if !OnRing(|g|, x, y) || t.id == EMPTY then t
    else t.(id := if InwardWall(g, x, y) then WALLCORNER else WALL)
  }

  /** The map after GenerateWallsOnMapBorders. On a 1 x 1 map the code reads outside the map
      unless the single cell is EMPTY. */
  function BorderPass(g: Grid): (h: Grid)
    requires IsGrid(g) && (|g| != 1 || g[0][0].id == EMPTY)
    ensures IsGrid(h) && |h| == |g|
  {
    seq(|g|, x requires 0 <= x < |g| => seq(|g|, y requires 0 <= y < |g| => BorderCell(g, x, y)))
  }

  /** The repair leaves interior cells and EMPTY cells alone and turns every other ring cell into
      WALL or WALLCORNER, keeping its room reference. */
  lemma BorderPassFacts(g: Grid)
    requires IsGrid(g) && (|g| != 1 || g[0][0].id == EMPTY)
    ensures var h := BorderPass(g);
      forall x, y :: InBounds(|g|, x, y) ==>
        && h[x][y].room == g[x][y].room
        && (!OnRing(|g|, x, y) || g[x][y].id == EMPTY ==> h[x][y] == g[x][y])
        && (OnRing(|g|, x, y) && g[x][y].id != EMPTY ==> h[x][y].id in {WALL, WALLCORNER})
  {
  }

  /** After the repair no ring cell can be walked on: each is EMPTY, WALL or WALLCORNER. */
  lemma BorderPassSealsRing(g: Grid)
    requires IsGrid(g) && (|g| != 1 || g[0][0].id == EMPTY)
    ensures var h := BorderPass(g);
      forall x, y :: InBounds(|g|, x, y) && OnRing(|g|, x, y) ==>
        !Walkable(h[x][y]) && h[x][y].id in {EMPTY, WALL, WALLCORNER}
  {
    BorderPassFacts(g);
  }
}
