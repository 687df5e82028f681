/** Square tile maps as values, and the cell-level tests the generator's passes use.
    A map is indexed `g[x][y]`; the first index is also called the row. */
module Grids {
  import opened Tiles

  type Pos = (int, int)
  type Grid = seq<seq<Tile>>

  /** Every column is as long as the map is wide: an N x N map. */
  predicate IsGrid(g: Grid)
  {
    forall x :: 0 <= x < |g| ==> |g[x]| == |g|
  }

  predicate InBounds(n: int, x: int, y: int)
  {
    0 <= x < n && 0 <= y < n
  }

  /** The outer ring of an n x n map. */
  predicate OnRing(n: int, x: int, y: int)
  {
    x == 0 || y == 0 || x == n - 1 || y == n - 1
  }

  /** Cell (i, j) comes before cell (x, y) in the generator's scan order:
      the outer loop runs over the second index, the inner loop over the first. */
  predicate Before(i: int, j: int, x: int, y: int)
  {
    j < y || (j == y && i < x)
  }

  function Kind(g: Grid, x: int, y: int): TileType
    requires IsGrid(g) && InBounds(|g|, x, y)
  {
    g[x][y].id
  }

  /** The map with one cell replaced. */
  function Set(g: Grid, x: int, y: int, t: Tile): (h: Grid)
    requires IsGrid(g) && InBounds(|g|, x, y)
    ensures IsGrid(h) && |h| == |g|
    ensures forall i, j :: InBounds(|g|, i, j) ==> h[i][j] == if i == x && j == y then t else g[i][j]
  {
    g[x := g[x][y := t]]
  }

  /** The freshly reset map: every cell an EMPTY tile of no room. */
  function EmptyGrid(n: nat): (g: Grid)
    ensures IsGrid(g) && |g| == n
    ensures forall x, y :: InBounds(n, x, y) ==> g[x][y] == NewTile(EMPTY)
  {
    seq(n, x => seq(n, y => NewTile(EMPTY)))
  }

  /** Two maps of the same size that agree cell by cell are equal. */
  lemma Ext(a: Grid, b: Grid)
    requires IsGrid(a) && IsGrid(b) && |a| == |b|
    requires forall x, y :: InBounds(|a|, x, y) ==> a[x][y] == b[x][y]
    ensures a == b
  {
    forall x | 0 <= x < |a|
      ensures a[x] == b[x]
    {
      assert forall y :: 0 <= y < |a| ==> a[x][y] == b[x][y];
    }
  }

  /** The kinds a character can move through while walls are being placed. */
  predicate PassableKind(k: TileType)
  {
    k == ROOM || k == CORRIDOR
  }

  /** Passable tiles are walkable; DOOR is the one walkable kind that is not passable. */
  lemma PassableIsWalkable(t: Tile)
    ensures PassableKind(t.id) ==> Walkable(t)
    ensures Walkable(t) && !PassableKind(t.id) <==> t.id == DOOR
  {
  }

  predicate IsEmptyAt(g: Grid, row: int, col: int)
    requires IsGrid(g) && InBounds(|g|, row, col)
  {
    g[row][col].id == EMPTY
  }

  predicate IsPassableAt(g: Grid, row: int, col: int)
    requires IsGrid(g) && InBounds(|g|, row, col)
  {
    PassableKind(g[row][col].id)
  }

  /** An EMPTY cell is an inner wall corner when, for one of its four diagonals, the two
      orthogonal neighbours flanking that diagonal are WALL and the diagonal cell is not. */
  predicate IsWallCornerAt(g: Grid, row: int, col: int)
    requires IsGrid(g) && InBounds(|g|, row, col)
  {
    var n := |g|;
    g[row][col].id == EMPTY &&
    ((row > 0 && col > 0 && g[row - 1][col].id == WALL && g[row][col - 1].id == WALL && g[row - 1][col - 1].id != WALL) ||
     (row > 0 && col < n - 1 && g[row - 1][col].id == WALL && g[row][col + 1].id == WALL && g[row - 1][col + 1].id != WALL) ||
     (row < n - 1 && col > 0 && g[row + 1][col].id == WALL && g[row][col - 1].id == WALL && g[row + 1][col - 1].id != WALL) ||
     (row < n - 1 && col < n - 1 && g[row + 1][col].id == WALL && g[row][col + 1].id == WALL && g[row + 1][col + 1].id != WALL))
  }

  /** Whether no cell of the map holds the given kind. */
  ghost predicate NoKind(g: Grid, k: TileType)
    requires IsGrid(g)
  {
    forall x, y :: InBounds(|g|, x, y) ==> g[x][y].id != k
  }
}
