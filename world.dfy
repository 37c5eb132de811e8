/** The part of the world controller the pathfinder depends on: the tile array filled at start-up,
    the bounds-checked lookup, the neighbour query and retyping a tile. */
module Worlds {
  import opened Wrappers
  import opened Tiles
  import opened Grids

  /** The type a cell gets at start-up. `obstacles` holds the cells where random obstacle generation
      was on and the random draw fell at or under the obstacle chance; in maze mode the parity
      rule overrides it (odd/odd cells are floor, all others wall). */
  function InitialType(x: nat, y: nat, obstacles: set<Pos>, maze: bool): (t: TileType)
    ensures maze ==> (t == Floor <==> x % 2 == 1 && y % 2 == 1)
    ensures !maze ==> (t == Floor <==> Pos(x, y) !in obstacles)
    ensures t == Floor || t == Wall
  {
    var drawn := if Pos(x, y) in obstacles then Wall else Floor;
    if maze then (if x % 2 != 0 && y % 2 != 0 then Floor else Wall) else drawn
  }

  class WorldController {
    const Width: nat
    const Height: nat
    const tiles: array2<Tile>
    /** The tile array as a value, kept equal to it cell by cell. */
    ghost var grid: Grid

    ghost predicate Valid()
      reads this, tiles
    {
      && tiles.Length0 == Width && tiles.Length1 == Height
      && grid.Valid() && grid.width == Width && grid.height == Height
      && forall x, y :: 0 <= x < Width && 0 <= y < Height ==> tiles[x, y] == grid.cells[x][y]
    }

    /** A copy of the tile array, for the queries that take the grid as a value. */
    function View(): (g: Grid)
      reads this, tiles
      requires Valid()
      ensures g == grid
    {
      var g := Grid(Width, Height,
        seq(Width, x reads tiles requires 0 <= x < Width =>
          seq(Height, y reads tiles requires 0 <= y < Height => tiles[x, y])));
      SameCells(g, grid);
      g
    }

    /** The grid fill of Start: every cell gets a fresh tile at its own position. */
    constructor (width: nat, height: nat, obstacles: set<Pos>, maze: bool)
      ensures Valid() && Width == width && Height == height
      ensures forall x: nat, y: nat :: x < width && y < height ==>
        grid.TileAt(x, y) == Some(Tile(Pos(x, y), InitialType(x, y, obstacles, maze)))
    {
      var a := new Tile[width, height];
      for x := 0 to width
        invariant forall i: nat, j: nat :: i < x && j < height ==>
          a[i, j] == Tile(Pos(i, j), InitialType(i, j, obstacles, maze))
      {
        for y := 0 to height
          invariant forall i: nat, j: nat :: i < x && j < height ==>
            a[i, j] == Tile(Pos(i, j), InitialType(i, j, obstacles, maze))
          invariant forall j: nat :: j < y ==> a[x, j] == Tile(Pos(x, j), InitialType(x, j, obstacles, maze))
        {
          var tile := Tile(Pos(x, y), Floor);
          if Pos(x, y) in obstacles && !maze {
            tile := tile.WithType(Wall);
          }
          if maze {
            if x % 2 != 0 && y % 2 != 0 {
              tile := tile.WithType(Floor);
            } else {
              tile := tile.WithType(Wall);
            }
          }
          a[x, y] := tile;
        }
      }
      Width, Height, tiles := width, height, a;
      grid := Grid(width, height,
        seq(width, x requires 0 <= x < width =>
          seq(height, y requires 0 <= y < height => Tile(Pos(x, y), InitialType(x, y, obstacles, maze)))));
    }

    /** GetTileAt: nothing off the grid, otherwise the tile stored at (x, y). */
    function GetTileAt(x: int, y: int): (t: Option<Tile>)
      reads this, tiles
      requires Valid()
      ensures t.None? <==> !(0 <= x < Width && 0 <= y < Height)
      ensures t == grid.TileAt(x, y)
    {
      if x >= Width || x < 0 || y >= Height || y < 0 then None else Some(tiles[x, y])
    }

    /** GetNeighbours fills a fresh array slot by slot: N, E, S, W and, when asked, NE, SE, SW, NW. */
    method GetNeighbours(tile: Pos, diagonal: bool) returns (neighbours: array<Option<Tile>>)
      requires Valid()
      ensures fresh(neighbours)
      ensures neighbours[..] == grid.Neighbours(tile, diagonal)
    {
      var x, y := tile.x, tile.y;
      neighbours := new Option<Tile>[if diagonal then 8 else 4];
      var tileAt := GetTileAt(x, y + 1);
      neighbours[0] := tileAt;
      tileAt := GetTileAt(x + 1, y);
      neighbours[1] := tileAt;
      tileAt := GetTileAt(x, y - 1);
      neighbours[2] := tileAt;
      tileAt := GetTileAt(x - 1, y);
      neighbours[3] := tileAt;
      if diagonal {
        tileAt := GetTileAt(x + 1, y + 1);
        neighbours[4] := tileAt;
        tileAt := GetTileAt(x + 1, y - 1);
        neighbours[5] := tileAt;
        tileAt := GetTileAt(x - 1, y - 1);
        neighbours[6] := tileAt;
        tileAt := GetTileAt(x - 1, y + 1);
        neighbours[7] := tileAt;
      }
      ghost var ns := grid.Neighbours(tile, diagonal);
      forall k | 0 <= k < neighbours.Length
        ensures neighbours[k] == ns[k]
      {
        assert k == 0 || k == 1 || k == 2 || k == 3 || k == 4 || k == 5 || k == 6 || k == 7;
      }
    }

    /** Assigning a new type to the tile at (x, y); its position and every other tile stay. */
    method SetType(x: int, y: int, t: TileType)
      requires Valid() && 0 <= x < Width && 0 <= y < Height
      modifies this, tiles
      ensures Valid()
      ensures grid == old(grid).Retype(Pos(x, y), t)
    {
      tiles[x, y] := tiles[x, y].WithType(t);
      grid := grid.Retype(Pos(x, y), t);
      forall i, j | 0 <= i < Width && 0 <= j < Height
        ensures tiles[i, j] == grid.cells[i][j]
      {
        assert grid.TileAt(i, j).value == grid.cells[i][j];
      }
    }
  }
}
