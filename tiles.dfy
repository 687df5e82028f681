/** Tile kinds and the per-tile classification predicates of the dungeon generator. */
module Tiles {

  datatype Option<T> = None | Some(value: T)

  /** The six kinds a map cell can hold, in the order of their enum codes. */
  datatype TileType = EMPTY | ROOM | WALL | CORRIDOR | WALLCORNER | DOOR

  /** The integer code the enum gives each kind. */
  function Code(k: TileType): (c: nat)
    ensures c <= 5
  {
    match k
    case EMPTY => 0
    case ROOM => 1
    case WALL => 2
    case CORRIDOR => 3
    case WALLCORNER => 4
    case DOOR => 5
  }

  /** The kind an integer code stands for, if any. */
  function KindOf(c: int): (k: Option<TileType>)
    ensures k.Some? <==> 0 <= c <= 5
  {
    if c == 0 then Some(EMPTY)
    else if c == 1 then Some(ROOM)
    else if c == 2 then Some(WALL)
    else if c == 3 then Some(CORRIDOR)
    else if c == 4 then Some(WALLCORNER)
    else if c == 5 then Some(DOOR)
    else None
  }

  /** The codes are 0..5 and tell the kinds apart: decoding a code gives its kind back,
      and every code in 0..5 is the code of the kind it decodes to. */
  lemma CodeRoundTrip(k: TileType, c: int)
    ensures KindOf(Code(k)) == Some(k)
    ensures 0 <= c <= 5 ==> Code(KindOf(c).value) == c
  {
  }

  lemma CodeInjective(a: TileType, b: TileType)
    ensures Code(a) == Code(b) <==> a == b
  {
    CodeRoundTrip(a, 0);
    CodeRoundTrip(b, 0);
  }

  /** A map cell: its kind and the id of the room it was carved for, if any. */
  datatype Tile = Tile(id: TileType, room: Option<nat>)

  /** `new Tile(kind)`: a tile of the given kind that belongs to no room. */
  function NewTile(id: TileType): (t: Tile)
    ensures t.id == id && t.room == None
  {
    Tile(id, None)
  }

  /** Whether a character can stand on the tile. */
  predicate Walkable(t: Tile)
  {
    match t.id
    case ROOM => true
    case CORRIDOR => true
    case DOOR => true
    case _ => false
  }

  /** Whether the tile is drawn as wall geometry (doors sit in wall openings). */
  predicate IsWall(t: Tile)
  {
    t.id == WALL || t.id == WALLCORNER || t.id == DOOR
  }

  predicate IsEmpty(t: Tile)
  {
    t.id == EMPTY
  }

  /** How the three predicates partition the six kinds: DOOR is the one kind that is both
      walkable and a wall, EMPTY the one kind that is neither, and every other kind is
      exactly one of the two. */
  lemma KindClasses(t: Tile)
    ensures Walkable(t) <==> t.id in {ROOM, CORRIDOR, DOOR}
    ensures IsWall(t) <==> t.id in {WALL, WALLCORNER, DOOR}
    ensures IsEmpty(t) <==> t.id == EMPTY
    ensures Walkable(t) && IsWall(t) <==> t.id == DOOR
    ensures !Walkable(t) && !IsWall(t) <==> IsEmpty(t)
  {
  }
}
