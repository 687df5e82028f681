# Dungeon generator: tile-map passes

This project models the tile-map core of a Unity dungeon generator. The map is a square grid of
tiles. Each tile has one of six kinds (EMPTY, ROOM, WALL, CORRIDOR, WALLCORNER, DOOR) and may refer
back to the room it was carved for. A generation run does the following, in this order:

1. It resets the map to EMPTY.
2. It carves one rectangular room per childless node of a space-partition quadtree.
3. It digs L-shaped corridors between positions.
4. It fences every walkable area with WALL cells and marks the inner wall corners.
5. It places doors where a corridor meets a room through a wall opening, then removes some of them.
6. It repairs the outer ring of the map so that nothing there can be walked on.

The model has one module per part of the generator:

- `Tiles` holds the tile kinds, their enum codes and the per-tile predicates (`Tile.cs`).
- `Grids` holds the map as a value (`seq<seq<Tile>>`, indexed `g[x][y]`) and the cell tests.
- `Carving` covers rooms and corridors, stated on map values. It includes the room enumeration over an abstract quadtree.
- `Walls` covers the wall pass, the corner pass and the border repair, stated on map values.
- `Doors` covers door detection and correction, stated as folds over the scan order.
- `Pipeline` gives a whole run as one function of its inputs, with the guarantees that come from the order of the passes.
- `Generator` holds the classes.
  - `Room` has an id and a tile list.
  - `Dungeon` keeps the map in an `array2<Tile>` and has a room list. Its methods update both in place with the source's nested loops.

Every `Dungeon` method is proved to leave the map equal to the matching function of the map it
started from (`Cells() == WallPass(old(Cells()))` and so on). The lemmas about those functions then
carry over to the imperative code. Two kinds of pass are stated differently:

- **Wall and corner passes.** Their result is a pointwise function of the map before the pass, so the in-place update order provably does not matter.
- **Border repair and door scans.** These read cells that the same scan has already changed. The border repair is stated with a "visited before" relation. The door scans are row-by-row folds.

## Model

| member | source | states |
|---|---|---|
| Tiles.Code | Assets/Resources/dungeon/Script/generator/Tile.cs:6-13 | each kind's enum code lies in 0..5 |
| Tiles.KindOf | Assets/Resources/dungeon/Script/generator/Tile.cs:6-13 | an integer names a kind exactly when it lies in 0..5 |
| Tiles.CodeRoundTrip | Assets/Resources/dungeon/Script/generator/Tile.cs:6-13 | decoding a kind's code gives the kind back, and every code in 0..5 is the code of the kind it decodes to |
| Tiles.CodeInjective | Assets/Resources/dungeon/Script/generator/Tile.cs:6-13 | two kinds have the same code only if they are the same kind |
| Tiles.NewTile | Assets/Resources/dungeon/Script/generator/Tile.cs:36-38 | a new tile has the given kind and belongs to no room |
| Tiles.KindClasses | Assets/Resources/dungeon/Script/generator/Tile.cs:41-61 | walkable exactly for ROOM, CORRIDOR and DOOR; a wall exactly for WALL, WALLCORNER and DOOR; empty exactly for EMPTY; DOOR is the one kind that is both walkable and a wall; EMPTY is the one kind that is neither |
| Grids.PassableIsWalkable | Assets/Resources/dungeon/Script/generator/DungeonGenerator.cs:554-558 | a passable tile (ROOM or CORRIDOR) is walkable; DOOR is the one walkable kind that is not passable |
| Carving.Ordered | Assets/Resources/dungeon/Script/generator/DungeonGenerator.cs:594-605 | after the swaps each pair of bounds is in order, and each pair holds the same two values as before |
| Carving.RectRowsFacts | Assets/Resources/dungeon/Script/generator/DungeonGenerator.cs:613-615 | the cells the two loops visit number rows times columns, are exactly the cells of the rectangle, and include no cell twice |
| Carving.DugCellsFacts | Assets/Resources/dungeon/Script/generator/DungeonGenerator.cs:592-626 | the room's tile list grows by the rectangle's area when every edge is on the map, and by nothing otherwise; it lists each cell of the rectangle once |
| Carving.DigRoomOrderFree | Assets/Resources/dungeon/Script/generator/DungeonGenerator.cs:594-605 | giving either pair of bounds reversed changes neither the map nor the tile list |
| Carving.DigRoomBackReferences | Assets/Resources/dungeon/Script/generator/DungeonGenerator.cs:592-626 | for a room no cell referred to yet: afterwards the cells referring to it are exactly those on its tile list, each is ROOM, and every other cell is as before |
| Carving.DigRoomIdempotent | Assets/Resources/dungeon/Script/generator/DungeonGenerator.cs:592-616 | digging the same room twice leaves the map as digging it once |
| Carving.LeavesCount | Assets/Resources/dungeon/Script/generator/DungeonGenerator.cs:179-191 | the walk yields one room box per childless node, and at least one |
| Carving.DigRoomsAppend | Assets/Resources/dungeon/Script/generator/DungeonGenerator.cs:179-191 | digging two box lists one after the other, with the second list's ids following on from the first's, is digging their concatenation |
| Carving.DigCorridorTileFacts | Assets/Resources/dungeon/Script/generator/DungeonGenerator.cs:629-633 | a dug tile is passable, keeps its room reference, and digging it again changes nothing |
| Carving.CorridorInGridExact | Assets/Resources/dungeon/Script/generator/DungeonGenerator.cs:646-666 | the corridor precondition holds exactly when every cell the loops visit lies on the map |
| Carving.CorridorConnects | Assets/Resources/dungeon/Script/generator/DungeonGenerator.cs:646-666 | for a positive width, every cell of the L path (down column col1 from row1 to row2, then along row row2 to col2) is passable afterwards, and every ROOM cell keeps its tile |
| Carving.HorizontalBandAsymmetric | Assets/Resources/dungeon/Script/generator/DungeonGenerator.cs:657-665 | with width at least 2, the horizontal band covers row row2 + 1 when col1 < col2, but with the columns swapped it covers row row2 only |
| Walls.WallPassFacts | Assets/Resources/dungeon/Script/generator/DungeonGenerator.cs:244-255 | passable cells are unchanged; a non-passable cell ends as WALL exactly when it was WALL or has a passable in-bounds 4-neighbour; nothing else changes; room references are kept |
| Walls.WallPassIdempotent | Assets/Resources/dungeon/Script/generator/DungeonGenerator.cs:244-255 | a second wall pass changes nothing |
| Walls.WallPassEncloses | Assets/Resources/dungeon/Script/generator/DungeonGenerator.cs:244-255 | afterwards every in-bounds 4-neighbour of a passable cell is passable or WALL |
| Walls.CornerTestStable | Assets/Resources/dungeon/Script/generator/DungeonGenerator.cs:566-573 | the corner test at a cell depends only on that cell and on which cells are WALL, so marking corners elsewhere never alters it |
| Walls.CornerPassFacts | Assets/Resources/dungeon/Script/generator/DungeonGenerator.cs:258-262 | a cell changes exactly when the corner test holds for it in the map before the pass; it can only change from EMPTY to WALLCORNER; the WALL cells stay the same |
| Walls.CornerPassIdempotent | Assets/Resources/dungeon/Script/generator/DungeonGenerator.cs:258-262 | a second corner pass changes nothing |
| Walls.GenerateWallsEncloses | Assets/Resources/dungeon/Script/generator/DungeonGenerator.cs:242-263 | after both loops the passable cells are those of the map before, and each is fenced in by passable or WALL cells |
| Walls.BorderPassFacts | Assets/Resources/dungeon/Script/generator/DungeonGenerator.cs:266-282 | interior cells and EMPTY cells are unchanged; every non-empty ring cell ends as WALL or WALLCORNER; room references are kept |
| Walls.BorderPassSealsRing | Assets/Resources/dungeon/Script/generator/DungeonGenerator.cs:266-282 | afterwards no ring cell is walkable: each is EMPTY, WALL or WALLCORNER |
| Doors.DoorPassRecolours | Assets/Resources/dungeon/Script/generator/DungeonGenerator.cs:285-337 | detection changes only interior CORRIDOR cells, and only to DOOR; correction changes only interior DOOR cells, and only to CORRIDOR |
| Doors.GenerateDoorsFacts | Assets/Resources/dungeon/Script/generator/DungeonGenerator.cs:285-337 | after both scans only interior CORRIDOR and DOOR cells have changed, between those two kinds and with their room kept; every new DOOR sits in a doorway: a WALL neighbour on one axis, and on the other a ROOM facing a CORRIDOR or DOOR, as detection found it |
| Doors.CorrectionNotIdempotent | Assets/Resources/dungeon/Script/generator/DungeonGenerator.cs:315-336 | on a concrete 4 x 4 map one correction scan leaves a DOOR that a second scan reverts, because its neighbour was reverted only after it had been visited |
| Pipeline.NoDoorBeforeDoorPass | Assets/Resources/dungeon/Script/generator/DungeonGenerator.cs:104-149 | no DOOR exists after rooms, corridors and walls, so every DOOR comes from the door pass |
| Pipeline.GeneratedRingSealed | Assets/Resources/dungeon/Script/generator/DungeonGenerator.cs:148-154 | with the border repair last, no ring cell of the generated map is walkable |
| Pipeline.GeneratedDoorsSited | Assets/Resources/dungeon/Script/generator/DungeonGenerator.cs:148-154 | every DOOR of the generated map is interior and was left alone by the border repair; when the door pass ended it sat in a doorway, a WALL on one axis and a ROOM facing a CORRIDOR or DOOR on the other |
| Pipeline.DoorsStageRoomRefs | Assets/Resources/dungeon/Script/generator/DungeonGenerator.cs:104-154 | up to the border repair, a cell refers back to a room exactly when it is a ROOM cell |
| Pipeline.GeneratedRoomRefs | Assets/Resources/dungeon/Script/generator/DungeonGenerator.cs:148-154 | in the generated map a cell refers back to a room exactly when it was ROOM before the repair; every ROOM cell does, and any other cell that does is a ring cell turned into WALL or WALLCORNER |
| Generator.Room.constructor | Assets/Resources/dungeon/Script/generator/DungeonGenerator.cs:226 | a new room has the given id and an empty tile list |
| Generator.Dungeon.Init | Assets/Resources/dungeon/Script/generator/DungeonGenerator.cs:70-84 | a fresh map of the given size, every cell a new EMPTY tile, and no rooms |
| Generator.Dungeon.ResetDungeon | Assets/Resources/dungeon/Script/generator/DungeonGenerator.cs:88-98 | every cell becomes a new EMPTY tile, and the room list is emptied |
| Generator.Dungeon.IsEmpty | Assets/Resources/dungeon/Script/generator/DungeonGenerator.cs:549-551 | answers the map-level EMPTY test on the current map |
| Generator.Dungeon.IsPassable | Assets/Resources/dungeon/Script/generator/DungeonGenerator.cs:554-558 | answers the map-level passability test (ROOM or CORRIDOR) on the current map |
| Generator.Dungeon.IsWallCorner | Assets/Resources/dungeon/Script/generator/DungeonGenerator.cs:566-573 | answers the map-level four-configuration corner test on the current map |
| Generator.Dungeon.SetWall | Assets/Resources/dungeon/Script/generator/DungeonGenerator.cs:576-578 | the cell's kind becomes WALL, its room is kept, and no other cell changes |
| Generator.Dungeon.SetWallCorner | Assets/Resources/dungeon/Script/generator/DungeonGenerator.cs:581-583 | the cell's kind becomes WALLCORNER, its room is kept, and no other cell changes |
| Generator.Dungeon.SetDoor | Assets/Resources/dungeon/Script/generator/DungeonGenerator.cs:586-588 | the cell's kind becomes DOOR, its room is kept, and no other cell changes |
| Generator.Dungeon.DigRoomAt | Assets/Resources/dungeon/Script/generator/DungeonGenerator.cs:619-626 | the cell becomes a ROOM tile of the room and is appended to the room's tile list; no other cell changes |
| Generator.Dungeon.DigRoom | Assets/Resources/dungeon/Script/generator/DungeonGenerator.cs:592-616 | the map becomes the room-digging function of the old map for the given bounds, and the tile list grows by the dug cells in loop order |
| Generator.Dungeon.DigRoomRow | Assets/Resources/dungeon/Script/generator/DungeonGenerator.cs:614-615 | one row of the rectangle becomes ROOM tiles of the room, appended left to right |
| Generator.Dungeon.GenerateRoom | Assets/Resources/dungeon/Script/generator/DungeonGenerator.cs:222-232 | a new room with the given id is dug at the leaf box's tile bounds, with top and right made inclusive |
| Generator.Dungeon.GenerateRooms | Assets/Resources/dungeon/Script/generator/DungeonGenerator.cs:179-191 | the room list grows by one new room per childless node in NW, NE, SW, SE order, with ids continuing the list's indices; earlier rooms are kept; the map is the fold of the room digs |
| Generator.Dungeon.GenerateChildRooms | Assets/Resources/dungeon/Script/generator/DungeonGenerator.cs:187-190 | a present child's rooms follow on from those already added for its node's earlier children |
| Generator.Dungeon.DigCorridorAt | Assets/Resources/dungeon/Script/generator/DungeonGenerator.cs:629-633 | a ROOM cell is kept; any other becomes CORRIDOR; no other cell changes |
| Generator.Dungeon.DigColumns | Assets/Resources/dungeon/Script/generator/DungeonGenerator.cs:647-655 | exactly the cells of the vertical band are dug, column by column |
| Generator.Dungeon.DigRows | Assets/Resources/dungeon/Script/generator/DungeonGenerator.cs:657-660 | exactly the cells of the horizontal band are dug, row by row |
| Generator.Dungeon.DigCorridor | Assets/Resources/dungeon/Script/generator/DungeonGenerator.cs:646-666 | the map becomes the corridor function of the old map: the vertical band and the horizontal band as the code digs them |
| Generator.Dungeon.GenerateCorridors | Assets/Resources/dungeon/Script/generator/DungeonGenerator.cs:236-238 | the map becomes the fold of the corridor digs in the order given |
| Generator.Dungeon.PlaceWalls | Assets/Resources/dungeon/Script/generator/DungeonGenerator.cs:244-255 | the in-place loop leaves the map equal to the wall pass applied to the map before it |
| Generator.Dungeon.PlaceWallAt | Assets/Resources/dungeon/Script/generator/DungeonGenerator.cs:246-253 | one loop step extends "visited cells hold their wall verdict" by one cell |
| Generator.Dungeon.PlaceWallCorners | Assets/Resources/dungeon/Script/generator/DungeonGenerator.cs:258-262 | the in-place loop leaves the map equal to the corner pass applied to the map before it |
| Generator.Dungeon.GenerateWalls | Assets/Resources/dungeon/Script/generator/DungeonGenerator.cs:242-263 | the map becomes the corner pass of the wall pass of the old map |
| Generator.Dungeon.GenerateWallsOnMapBorders | Assets/Resources/dungeon/Script/generator/DungeonGenerator.cs:266-282 | the in-place loop leaves the map equal to the border repair of the map before it |
| Generator.Dungeon.PlaceDoors | Assets/Resources/dungeon/Script/generator/DungeonGenerator.cs:287-312 | the map becomes the detection fold of the old map |
| Generator.Dungeon.PlaceDoorsInRow | Assets/Resources/dungeon/Script/generator/DungeonGenerator.cs:288-311 | one row of detection, as the fold over that row |
| Generator.Dungeon.PlaceDoorAt | Assets/Resources/dungeon/Script/generator/DungeonGenerator.cs:289-310 | one cell of detection, decided on the map as the scan finds it |
| Generator.Dungeon.RemoveBadDoors | Assets/Resources/dungeon/Script/generator/DungeonGenerator.cs:315-336 | the map becomes the correction fold of the old map |
| Generator.Dungeon.RemoveBadDoorsInRow | Assets/Resources/dungeon/Script/generator/DungeonGenerator.cs:316-335 | one row of correction, as the fold over that row |
| Generator.Dungeon.RemoveBadDoorAt | Assets/Resources/dungeon/Script/generator/DungeonGenerator.cs:317-334 | one cell of correction, decided on the map as the scan finds it |
| Generator.Dungeon.GenerateDoors | Assets/Resources/dungeon/Script/generator/DungeonGenerator.cs:285-337 | the map becomes correction applied after detection of the old map |
| Generator.Dungeon.GenerateDungeon | Assets/Resources/dungeon/Script/generator/DungeonGenerator.cs:106-154 | the map becomes the whole-run function, in the code's pass order; the room list holds one new room per leaf, with room k having id k and the tiles dug for the k-th leaf box |

## Behaviour of the code worth knowing

- **Pass order.** `GenerateDungeon` runs walls, then doors, then the border repair (DungeonGenerator.cs:148-154). So door detection sees the ring cells before they are repaired, and a door can only survive off the ring (`Pipeline.GeneratedDoorsSited`).
- **Correction condition.** Correction looks at no walls. It reverts a DOOR when a ROOM faces a CORRIDOR across one axis and either neighbour on the other axis is CORRIDOR (DungeonGenerator.cs:320-333); it does not need a CORRIDOR on both sides.
- **Out-of-range rooms.** `DigRoom` does nothing at all when any edge of the ordered rectangle is off the map (DungeonGenerator.cs:607-610); the room's tile list stays as it was.
- **Room references on wall cells.** Before the border repair, a cell refers back to a room exactly when it is ROOM (`Pipeline.DoorsStageRoomRefs`). The border repair turns ROOM ring cells into WALL or WALLCORNER and keeps their reference, so in the generated map a reference marks a ROOM cell or a walled ring cell (`Pipeline.GeneratedRoomRefs`).
- **Correction is not idempotent.** The correction scan reads cells it has already changed, so a second scan can revert doors the first one kept (`Doors.CorrectionNotIdempotent`).
- **Corridor width.** When `col1 > col2`, the horizontal band is one row high: every iteration of the outer loop digs row `row2` (DungeonGenerator.cs:662-664). When `col1 <= col2` it is `CORRIDOR_WIDTH` rows high. `Carving.InHorizontalBand` models this as written, and `Carving.HorizontalBandAsymmetric` exhibits the difference.

## Left out

- **Map dimensions.** Width and height are one size, `mapSize`. The code indexes the array with either bound on either index (DungeonGenerator.cs:72, 249-252, 569-571), which only works when they are equal.
- **Room placement.** `GenerateRoom` samples the room's centre and half-size with floating-point `Random.Range` and retries on a bad aspect ratio. The model takes the integer tile box that sampling produces as part of each quadtree leaf.
- **The quadtree.** The class is not part of this model. It becomes a datatype with four optional children and a room box per leaf. `GenerateQuadTree`, the quadtree's own corridor generation and the zone list are left out. The corridors it digs are a parameter: a list of corridor requests dug in order.
- **Room fields.** `Room.cs` is not part of this model. A room keeps only its id and its tile list. The AABB, the quadtree back-reference and the colour are left out.
- **Tile references.** A room's tile list holds map positions rather than tile references. The code never shares one tile object between two cells, so a position identifies the tile.
- **Tile fields.** The tile colour and the tile's GameObject are left out, as is `TileNeighbours`.
- **Float helpers.** The `DigCorridor(XY, XY)` and `IsPassable(XY)` overloads round floats and are left out. So are `getTileAtPos` and `getRandomPosInDungeon`.
- **Unity, I/O and logging.** GameObject creation and destruction, textures, file output and logging are left out. This covers `GenerateGameObjects`, the create methods, `DungeonToTexture`, `TextureToFile`, `logGrid` and `logRooms`.
- Generator.Dungeon.DigCorridor: requires every cell the loops visit to lie on the map. Generator.Dungeon.GenerateCorridors and Generator.Dungeon.GenerateDungeon carry the same requirement for every corridor request, so runs whose partition asks for an off-map corridor are excluded. The code throws partway through otherwise, after some cells are already dug; the partial dig is not modelled. `Carving.CorridorInGridExact` shows the requirement is exactly "every visited cell is on the map".
- Generator.Dungeon.GenerateWallsOnMapBorders: on a 1 x 1 map whose cell is not EMPTY, the code reads outside the map and throws. The model requires that case away.
- Generator.Dungeon.GenerateCorridors: requires every corridor request to stay on the map, as `DigCorridor` does; the code throws on the first request that leaves it.
- Generator.Dungeon.GenerateDungeon: requires `Pipeline.Completes`: a 1 x 1 map whose cell is not EMPTY when the border repair starts is excluded, for the same reason. Every 1 x 1 run the code completes is covered. It also requires every corridor request to stay on the map, as `GenerateCorridors` does.
