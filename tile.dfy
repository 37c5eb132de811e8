/** A cell of the grid: its fixed position, its settable type and the movement cost derived from the type. */
module Tiles {

  /** A grid coordinate (a Vector2Int). Tiles are one-to-one with coordinates, so a position also
      serves as the identity of its tile. */
  datatype Pos = Pos(x: int, y: int)

  /** The tile type. Floor and Wall are the named members; the enum can be cast from any integer,
      so every other value is represented by `Other`. */
  datatype TileType = Floor | Wall | Other(code: int)

  datatype Tile = Tile(Position: Pos, Type: TileType) {

    /** The cost of walking onto this tile, recomputed from the current type on every read;
        0 means impassable. */
    function MovementCost(): (c: real)
      ensures c == 1.0 <==> Type == Floor
      ensures c == 0.0 <==> Type != Floor
    {
      match Type
      case Floor => 1.0
      case Wall => 0.0
      case Other(_) => 0.0
    }

    /** Assigning the `Type` property: the position stays what the constructor set, and the
        cost follows the new type at once. */
    function WithType(t: TileType): (r: Tile)
      ensures r.Position == Position && r.Type == t
      ensures r.MovementCost() > 0.0 <==> t == Floor
    {
      this.(Type := t)
    }
  }
}
