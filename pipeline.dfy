/** A whole GenerateDungeon run as one function of the map size, the corridor width, the space
    partition and the corridor requests, and what the pass order guarantees about its result. */
module Pipeline {
  import opened Tiles
  import opened Grids
  import opened Carving
  import opened Walls
  import opened Doors

  /** The map once rooms and corridors have been dug into an empty n x n map. */
  function CarvedGrid(n: nat, w: int, t: QuadTree, digs: seq<CorridorDig>): (g: Grid)
    ensures IsGrid(g) && |g| == n
  {
    DigCorridors(DigRooms(EmptyGrid(n), Leaves(t), 0), digs, w)
  }

  /** The map after the wall pass and the door pass, before the border repair. */
  function DoorsStage(n: nat, w: int, t: QuadTree, digs: seq<CorridorDig>): (g: Grid)
    ensures IsGrid(g) && |g| == n
  {
    GenerateDoorsGrid(GenerateWallsGrid(CarvedGrid(n, w, t, digs)))
  }

  /** A run the border repair can complete: on a 1 x 1 map it reads outside the map unless the
      single cell is still EMPTY when the repair starts. */
  predicate Completes(n: nat, w: int, t: QuadTree, digs: seq<CorridorDig>)
  {
    n != 1 || DoorsStage(n, w, t, digs)[0][0].id == EMPTY
  }

  /** The map GenerateDungeon leaves behind: the border repair runs last. */
  function GeneratedGrid(n: nat, w: int, t: QuadTree, digs: seq<CorridorDig>): (g: Grid)
    requires Completes(n, w, t, digs)
    ensures IsGrid(g) && |g| == n
  {
    BorderPass(DoorsStage(n, w, t, digs))
  }

  // ---------------------------------------------------------------------------
  // No DOOR exists before the door pass
  // ---------------------------------------------------------------------------

  lemma {:induction false} DigRoomsNoDoor(g: Grid, boxes: seq<TileBox>, firstId: nat)
    requires IsGrid(g) && NoKind(g, DOOR)
    ensures NoKind(DigRooms(g, boxes, firstId), DOOR)
    decreases |boxes|
  {
    if boxes != [] {
      var h := DigRoomGrid(g, RoomRect(boxes[0]), firstId);
      assert NoKind(h, DOOR);
      DigRoomsNoDoor(h, boxes[1..], firstId + 1);
    }
  }

  lemma {:induction false} DigCorridorsNoDoor(g: Grid, digs: seq<CorridorDig>, w: int)
    requires IsGrid(g) && NoKind(g, DOOR)
    ensures NoKind(DigCorridors(g, digs, w), DOOR)
    decreases |digs|
  {
    if digs != [] {
      var h := CorridorGrid(g, digs[0].row1, digs[0].col1, digs[0].row2, digs[0].col2, w);
      assert NoKind(h, DOOR);
      DigCorridorsNoDoor(h, digs[1..], w);
    }
  }

  /** Digging and the wall passes create no DOOR cell, so every DOOR in the final map was made by
      the door pass. */
  lemma NoDoorBeforeDoorPass(n: nat, w: int, t: QuadTree, digs: seq<CorridorDig>)
    ensures NoKind(GenerateWallsGrid(CarvedGrid(n, w, t, digs)), DOOR)
  {
    var e := EmptyGrid(n);
    var r := DigRooms(e, Leaves(t), 0);
    var c := CarvedGrid(n, w, t, digs);
    DigRoomsNoDoor(e, Leaves(t), 0);
    DigCorridorsNoDoor(r, digs, w);
    WallPassFacts(c);
    CornerPassFacts(WallPass(c));
  }

  // ---------------------------------------------------------------------------
  // What the pass order guarantees
  // ---------------------------------------------------------------------------

  /** Because the border repair runs last, no cell of the outer ring can be walked on in the
      generated map: each is EMPTY, WALL or WALLCORNER. */
  lemma GeneratedRingSealed(n: nat, w: int, t: QuadTree, digs: seq<CorridorDig>)
    requires Completes(n, w, t, digs)
    ensures var g := GeneratedGrid(n, w, t, digs);
      forall x, y :: InBounds(n, x, y) && OnRing(n, x, y) ==>
        !Walkable(g[x][y]) && g[x][y].id in {EMPTY, WALL, WALLCORNER}
  {
    BorderPassSealsRing(DoorsStage(n, w, t, digs));
  }

  /** Every DOOR of the generated map is an interior cell that the border repair left alone, and
      when the door pass finished it sat in a doorway: a WALL neighbour on one axis, and on the
      other a ROOM facing a CORRIDOR or DOOR. */
  lemma GeneratedDoorsSited(n: nat, w: int, t: QuadTree, digs: seq<CorridorDig>)
    requires Completes(n, w, t, digs)
    ensures var d := DoorsStage(n, w, t, digs);
      var g := GeneratedGrid(n, w, t, digs);
      forall x, y :: InBounds(n, x, y) && g[x][y].id == DOOR ==>
        Interior(n, x, y) && g[x][y] == d[x][y] && InDoorway(d, x, y)
  {
    var walls := GenerateWallsGrid(CarvedGrid(n, w, t, digs));
    var d := DoorsStage(n, w, t, digs);
    NoDoorBeforeDoorPass(n, w, t, digs);
    GenerateDoorsFacts(walls);
    BorderPassFacts(d);
  }

  // ---------------------------------------------------------------------------
  // Room references
  // ---------------------------------------------------------------------------

  /** A cell refers back to a room exactly when it is a ROOM cell. */
  ghost predicate RefsMatchRooms(g: Grid)
    requires IsGrid(g)
  {
    forall x, y :: InBounds(|g|, x, y) ==> (g[x][y].room.Some? <==> g[x][y].id == ROOM)
  }

  lemma {:induction false} DigRoomsRefs(g: Grid, boxes: seq<TileBox>, firstId: nat)
    requires IsGrid(g) && RefsMatchRooms(g)
    ensures RefsMatchRooms(DigRooms(g, boxes, firstId))
    decreases |boxes|
  {
    if boxes != [] {
      var h := DigRoomGrid(g, RoomRect(boxes[0]), firstId);
      assert RefsMatchRooms(h);
      DigRoomsRefs(h, boxes[1..], firstId + 1);
    }
  }

  lemma {:induction false} DigCorridorsRefs(g: Grid, digs: seq<CorridorDig>, w: int)
    requires IsGrid(g) && RefsMatchRooms(g)
    ensures RefsMatchRooms(DigCorridors(g, digs, w))
    decreases |digs|
  {
    if digs != [] {
      var h := CorridorGrid(g, digs[0].row1, digs[0].col1, digs[0].row2, digs[0].col2, w);
      assert RefsMatchRooms(h);
      DigCorridorsRefs(h, digs[1..], w);
    }
  }

  /** Up to the border repair, the cells referring back to a room are exactly the ROOM cells:
      digging a corridor keeps ROOM cells, and the wall, corner and door passes only change cells
      that are not ROOM, into kinds that are not ROOM, keeping their (empty) reference. */
  lemma DoorsStageRoomRefs(n: nat, w: int, t: QuadTree, digs: seq<CorridorDig>)
    ensures RefsMatchRooms(DoorsStage(n, w, t, digs))
  {
    var e := EmptyGrid(n);
    var c := CarvedGrid(n, w, t, digs);
    DigRoomsRefs(e, Leaves(t), 0);
    DigCorridorsRefs(DigRooms(e, Leaves(t), 0), digs, w);
    WallPassFacts(c);
    CornerPassFacts(WallPass(c));
    GenerateDoorsFacts(GenerateWallsGrid(c));
  }

  /** In the generated map a cell refers back to a room exactly when it was a ROOM cell before
      the border repair: every ROOM cell does, and the only other cells that do are ring cells
      the repair turned into WALL or WALLCORNER. */
  lemma GeneratedRoomRefs(n: nat, w: int, t: QuadTree, digs: seq<CorridorDig>)
    requires Completes(n, w, t, digs)
    ensures var d := DoorsStage(n, w, t, digs);
      var g := GeneratedGrid(n, w, t, digs);
      forall x, y :: InBounds(n, x, y) ==>
        && (g[x][y].room.Some? <==> d[x][y].id == ROOM)
        && (g[x][y].id == ROOM ==> g[x][y].room.Some?)
        && (g[x][y].room.Some? && g[x][y].id != ROOM ==> OnRing(n, x, y) && g[x][y].id in {WALL, WALLCORNER})
  {
    DoorsStageRoomRefs(n, w, t, digs);
    BorderPassFacts(DoorsStage(n, w, t, digs));
  }
}
