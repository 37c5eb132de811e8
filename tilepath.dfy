/** A path handed out by the pathfinder: a fixed sequence of tiles (by position), absent when the
    path was built from nothing, and a cursor that hands the tiles out one at a time, counting down
    from the last stored tile. */
module Paths {
  import opened Wrappers
  import opened Tiles
  import opened Sequences

  class TilePath {
    /** The stored tiles; fixed at construction. */
    const path: Option<seq<Pos>>
    var currentTileIndex: int

    /** The cursor stays between one below the first tile and the last tile. */
    ghost predicate Valid()
      reads this
    {
      -1 <= currentTileIndex < Length()
    }

    /** Length: the number of stored tiles, 0 when there are none. */
    function Length(): (n: nat)
      ensures path.Some? ==> n == |path.value|
      ensures path.None? ==> n == 0
    {
      if path.None? then 0 else |path.value|
    }

    /** The tiles the cursor has yet to hand out, in the order it hands them out. */
    ghost function Remaining(): seq<Pos>
      reads this
      requires Valid()
    {
      if path.None? || currentTileIndex < 0 then [] else Reversed(path.value[..currentTileIndex + 1])
    }

    /** The constructor stores the tiles and puts the cursor on the last one. */
    constructor (tiles: Option<seq<Pos>>)
      ensures path == tiles && Valid()
      ensures currentTileIndex == Length() - 1
      ensures Remaining() == if tiles.None? then [] else Reversed(tiles.value)
    {
      path := tiles;
      currentTileIndex := if tiles.None? then -1 else |tiles.value| - 1;
      new;
      if tiles.Some? {
        assert tiles.value[..|tiles.value|] == tiles.value;
      }
    }

    /** StartTile: the first stored tile, nothing when there is no path; an empty array has none
        to give. */
    function StartTile(): (t: Option<Pos>)
      requires path.None? || |path.value| > 0
      ensures t.None? <==> path.None?
      ensures t.Some? ==> t.value == path.value[0]
    {
      if path.None? then None else Some(path.value[0])
    }

    /** DestinationTile: the last stored tile, nothing when there is no path. */
    function DestinationTile(): (t: Option<Pos>)
      requires path.None? || |path.value| > 0
      ensures t.None? <==> path.None?
      ensures t.Some? ==> t.value == path.value[Length() - 1]
    {
      if path.None? then None else Some(path.value[|path.value| - 1])
    }

    /** Reverse, and the enumeration built on it: the stored tiles last to first. It reads only the
        fixed tiles, so it neither depends on nor moves the cursor. */
    function Reverse(): (r: Option<seq<Pos>>)
      ensures r.None? <==> path.None?
      ensures r.Some? ==> |r.value| == Length() && forall i :: 0 <= i < Length() ==> r.value[i] == path.value[Length() - 1 - i]
    {
      if path.None? then None else Some(Reversed(path.value))
    }

    /** NextTile: the tile under the cursor, after which the cursor moves down one; nothing, and no
        move, once the cursor has passed the first tile or when there is no path. */
    method NextTile() returns (t: Option<Pos>)
      requires Valid()
      modifies this
      ensures Valid()
      ensures old(currentTileIndex) < 0 || path.None? ==> t.None? && currentTileIndex == old(currentTileIndex)
      ensures old(currentTileIndex) >= 0 && path.Some? ==>
        t == Some(path.value[old(currentTileIndex)]) && currentTileIndex == old(currentTileIndex) - 1
      ensures old(Remaining()) == (if t.Some? then [t.value] else []) + Remaining()
    {
      if path.None? || currentTileIndex < 0 {
        t := None;
      } else {
        t := Some(path.value[currentTileIndex]);
        ghost var before := path.value[..currentTileIndex + 1];
        currentTileIndex := currentTileIndex - 1;
        assert before == path.value[..currentTileIndex + 1] + [t.value];
        ReversedSnoc(path.value[..currentTileIndex + 1], t.value);
      }
    }
  }

  /** A fresh cursor hands out exactly what the enumeration yields. */
  lemma FreshCursorYieldsReverse(p: TilePath)
    requires p.Valid() && p.currentTileIndex == p.Length() - 1
    ensures p.Remaining() == if p.path.None? then [] else p.Reverse().value
  {
    if p.path.Some? {
      assert p.path.value[..p.currentTileIndex + 1] == p.path.value;
    }
  }
}
