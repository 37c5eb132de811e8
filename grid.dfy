/** A value snapshot of the world's tile array, with the bounds-checked lookup and the
    neighbour query the graph is built from. */
module Grids {
  import opened Wrappers
  import opened Tiles

  /** Offsets of the neighbour slots, in the order the world fills them:
      N, E, S, W, then NE, SE, SW, NW. */
  function Dx(k: int): int
    requires 0 <= k < 8
  {
    [0, 1, 0, -1, 1, 1, -1, -1][k]
  }

  function Dy(k: int): int
    requires 0 <= k < 8
  {
    [1, 0, -1, 0, 1, -1, -1, 1][k]
  }

  /** Two positions are at most one step apart on each axis: the cells whose edges a change
      at one of them can affect. */
  predicate Near(p: Pos, q: Pos) {
    -1 <= p.x - q.x <= 1 && -1 <= p.y - q.y <= 1
  }

  /** `cells[x][y]` is the tile in column x, row y, as in the world's `tiles[x, y]`. */
  datatype Grid = Grid(width: nat, height: nat, cells: seq<seq<Tile>>) {

    ghost predicate Valid() {
      && |cells| == width
      && (forall x :: 0 <= x < width ==> |cells[x]| == height)
      && (forall x, y :: 0 <= x < width && 0 <= y < height ==> cells[x][y].Position == Pos(x, y))
    }

    predicate InBounds(p: Pos) {
      0 <= p.x < width && 0 <= p.y < height
    }

    /** GetTileAt: no tile outside [0, width) x [0, height), otherwise the tile stored there,
        whose position is the one asked for. */
    function TileAt(x: int, y: int): (t: Option<Tile>)
      requires Valid()
      ensures t.None? <==> !InBounds(Pos(x, y))
      ensures t.Some? ==> t.value.Position == Pos(x, y) && t.value == cells[x][y]
    {
      if x >= width || x < 0 || y >= height || y < 0 then None else Some(cells[x][y])
    }

    /** The movement cost of the tile at an in-bounds position. */
    function Cost(p: Pos): (c: real)
      requires Valid() && InBounds(p)
      ensures c >= 0.0
    {
      cells[p.x][p.y].MovementCost()
    }

    /** GetNeighbours: 4 slots, or 8 when diagonals are asked for; slot k holds the tile at the
        k-th offset, or nothing when that position is off the grid. */
    function Neighbours(p: Pos, diagonal: bool): (ns: seq<Option<Tile>>)
      requires Valid()
      ensures |ns| == if diagonal then 8 else 4
      ensures forall k :: 0 <= k < |ns| ==> ns[k] == TileAt(p.x + Dx(k), p.y + Dy(k))
      ensures forall k :: 0 <= k < |ns| ==> (ns[k].None? <==> !InBounds(Pos(p.x + Dx(k), p.y + Dy(k))))
    {
      var cardinal := [TileAt(p.x, p.y + 1), TileAt(p.x + 1, p.y), TileAt(p.x, p.y - 1), TileAt(p.x - 1, p.y)];
      if !diagonal then cardinal
      else cardinal + [TileAt(p.x + 1, p.y + 1), TileAt(p.x + 1, p.y - 1), TileAt(p.x - 1, p.y - 1), TileAt(p.x - 1, p.y + 1)]
    }

    /** The grid after the tile at `p` is given type `t`: only that cell's type changes. */
    function Retype(p: Pos, t: TileType): (g: Grid)
      requires Valid() && InBounds(p)
      ensures g.Valid() && g.width == width && g.height == height
      ensures g.TileAt(p.x, p.y) == Some(cells[p.x][p.y].WithType(t))
      ensures forall x, y :: Pos(x, y) != p ==> g.TileAt(x, y) == TileAt(x, y)
    {
      Grid(width, height, cells[p.x := cells[p.x][p.y := cells[p.x][p.y].WithType(t)]])
    }
  }

  /** Two valid grids of the same size that agree on every cell are the same grid. */
  lemma {:induction false} SameCells(g: Grid, h: Grid)
    requires g.Valid() && h.Valid() && g.width == h.width && g.height == h.height
    requires forall x, y :: 0 <= x < g.width && 0 <= y < g.height ==> g.cells[x][y] == h.cells[x][y]
    ensures g == h
  {
    forall x | 0 <= x < g.width
      ensures g.cells[x] == h.cells[x]
    {
      assert forall y :: 0 <= y < g.height ==> g.cells[x][y] == h.cells[x][y];
    }
    assert g.cells == h.cells;
  }

  /** The first four neighbour slots are the same whether or not diagonals are requested. */
  lemma CardinalSlotsAgree(g: Grid, p: Pos)
    requires g.Valid()
    ensures g.Neighbours(p, true)[..4] == g.Neighbours(p, false)
  {
  }
}
