/** The tile graph: one node per cell of the world, keyed by the cell's position, with the edge
    lists the admission rule gives; rebuilt locally when a cell changes, and searched by the A*
    loop of its own FindPath. */
module Tilegraphs {
  import opened Wrappers
  import opened Tiles
  import opened Grids
  import opened Worlds
  import opened Graphs
  import opened Search
  import opened Paths

  /** `nodes` with the edge lists of the keys in `done` recomputed on `g`. */
  ghost function Refreshed(nodes: NodeMap, g: Grid, done: set<Pos>): NodeMap
    requires g.Valid() && KeyedBy(nodes, g.width, g.height)
  {
    map p | p in nodes :: if p in done then nodes[p].(Edges := Some(EdgesFor(g, p))) else nodes[p]
  }

  /** Every cell around `c` other than `c` is one of the eight neighbour slots. */
  lemma NearIsSlot(c: Pos, q: Pos) returns (k: int)
    requires Near(q, c) && q != c
    ensures 0 <= k < 8 && q == Pos(c.x + Dx(k), c.y + Dy(k))
  {
    var dx, dy := q.x - c.x, q.y - c.y;
    k := if dx == 0 && dy == 1 then 0
      else if dx == 1 && dy == 0 then 1
      else if dx == 0 && dy == -1 then 2
      else if dx == -1 && dy == 0 then 3
      else if dx == 1 && dy == 1 then 4
      else if dx == 1 && dy == -1 then 5
      else if dx == -1 && dy == -1 then 6
      else 7;
  }

  /** One node per cell of a `width` by `height` grid, keyed by its own position. */
  ghost predicate KeyedBy(nodes: NodeMap, width: nat, height: nat) {
    && (forall p {:trigger p in nodes} :: p in nodes <==> 0 <= p.x < width && 0 <= p.y < height)
    && (forall p :: p in nodes ==> nodes[p].Data == p)
  }

  /** Every node has an edge list, and every edge leads to a node among the eight around it. */
  ghost predicate Linked(nodes: NodeMap) {
    && (forall p :: p in nodes ==> nodes[p].Edges.Some?)
    && (forall p, i :: p in nodes && 0 <= i < |Succ(nodes, p)| ==> Succ(nodes, p)[i].Target in nodes)
    && EdgesNear(nodes)
  }

  /** Keyed by the cells of `g` is what the graph predicates call having one node per cell. */
  lemma KeyedByIsHasNodes(nodes: NodeMap, g: Grid)
    requires g.Valid() && KeyedBy(nodes, g.width, g.height)
    ensures HasNodes(nodes, g)
    ensures Linked(nodes) ==> Searchable(nodes, g)
  {
  }

  /** A graph consistent with `g` is keyed by its cells and has every edge leading to a node. */
  lemma ConsistentIsKeyedAndLinked(nodes: NodeMap, g: Grid)
    requires Graphs.Consistent(nodes, g)
    ensures KeyedBy(nodes, g.width, g.height) && Linked(nodes)
  {
    ConsistentIsSearchable(nodes, g);
  }

  /** The nested loop of the Tilegraph constructor: a node without edges for the tile of every cell,
      keyed by the tile's position. */
  method NodesWithoutEdges(world: WorldController) returns (nodes: NodeMap)
    requires world.Valid()
    ensures KeyedBy(nodes, world.Width, world.Height)
    ensures forall p :: p in nodes ==> nodes[p].Edges.None?
  {
    nodes := map[];
    for x := 0 to world.Width
      invariant forall p :: p in nodes <==> 0 <= p.x < x && 0 <= p.y < world.Height
      invariant forall p :: p in nodes ==> nodes[p] == Node(p, None)
    {
      for y := 0 to world.Height
        invariant forall p :: p in nodes <==>
          (0 <= p.x < x && 0 <= p.y < world.Height) || (p.x == x && 0 <= p.y < y)
        invariant forall p :: p in nodes ==> nodes[p] == Node(p, None)
      {
        var tile := world.GetTileAt(x, y);
        nodes := nodes[tile.value.Position := Node(tile.value.Position, None)];
      }
    }
  }

  class Tilegraph {
    var Nodes: NodeMap
    const world: WorldController

    /** One node per cell of the world, keyed by its own position. */
    ghost predicate Keyed()
      reads this, world, world.tiles
    {
      world.Valid() && KeyedBy(Nodes, world.Width, world.Height)
    }

    /** Keyed, and every node has an edge list whose edges lead to nodes. */
    ghost predicate Valid()
      reads this, world, world.tiles
    {
      Keyed() && Linked(Nodes)
    }

    /** Every edge list is the one the admission rule gives on the world as it is now. */
    ghost predicate Consistent()
      reads this, world, world.tiles
    {
      world.Valid() && Graphs.Consistent(Nodes, world.grid)
    }

    /** The constructor adds a node without edges for every cell, then generates every node's
        edges, in no particular order. */
    constructor (worldController: WorldController)
      requires worldController.Valid()
      ensures world == worldController
      ensures Valid() && Consistent()
    {
      world := worldController;
      var nodes := NodesWithoutEdges(worldController);
      Nodes := nodes;
      new;
      GenerateAllEdges();
    }

    /** The foreach of the constructor: GenerateEdges for every node, in no particular order. */
    method GenerateAllEdges()
      requires Keyed()
      modifies this
      ensures Valid() && Consistent()
    {
      ghost var g := world.grid;
      ghost var nodes := Nodes;
      RefreshNone(nodes, g);
      var todo := Nodes.Keys;
      ghost var done: set<Pos> := {};
      while todo != {}
        invariant Keyed() && world.grid == g
        invariant todo <= nodes.Keys && done == nodes.Keys - todo
        invariant Nodes == Refreshed(nodes, g, done)
        decreases todo
      {
        var p :| p in todo;
        GenerateEdges(p);
        RefreshOne(nodes, g, done, p);
        done := done + {p};
        todo := todo - {p};
      }
      assert done == nodes.Keys;
      RefreshAll(nodes, g);
      ConsistentIsKeyedAndLinked(Nodes, g);
    }

    /** GenerateEdges: the node of `p` gets the edges the admission rule gives for its eight
        neighbour slots; nothing else changes. */
    method GenerateEdges(p: Pos)
      requires Keyed() && p in Nodes
      modifies this
      ensures Keyed() && Nodes.Keys == old(Nodes.Keys)
      ensures Nodes == old(Nodes)[p := old(Nodes)[p].(Edges := Some(EdgesFor(world.grid, p)))]
    {
      var neighbours := world.GetNeighbours(p, true);
      var edges := Admit(world.View(), p, neighbours[..]);
      Nodes := Nodes[p := Nodes[p].(Edges := Some(edges))];
    }

    /** Regenerate: nothing for no tile; otherwise the edges of the tile's node and of the nodes of
        its non-empty neighbour slots are recomputed, and no other node changes. */
    method Regenerate(tile: Option<Pos>)
      requires Valid()
      requires tile.Some? ==> tile.value in Nodes
      modifies this
      ensures Valid()
      ensures tile.None? ==> Nodes == old(Nodes)
      ensures tile.Some? ==> Nodes == Regenerated(old(Nodes), world.grid, tile.value)
    {
      if tile.None? {
        return;
      }
      var c := tile.value;
      ghost var g := world.grid;
      ghost var nodes := Nodes;
      RefreshNone(nodes, g);
      GenerateEdges(c);
      RefreshOne(nodes, g, {}, c);
      var neighbours := world.GetNeighbours(c, true);
      var ns := neighbours[..];
      for k := 0 to |ns|
        invariant Keyed() && world.grid == g
        invariant Nodes == Refreshed(nodes, g, {c} + SlotKeys(ns, k))
      {
        RefreshSlot(nodes, g, c, ns, k);
        if ns[k].Some? {
          GenerateEdges(ns[k].value.Position);
        }
      }
      RefreshedSlotsRegenerate(nodes, g, c, ns);
    }

    /** FindPath: nothing when either tile is missing or has no node; otherwise the A* loop runs
        until the goal is taken from the open set, giving the path from the start to the goal, or
        until the open set is empty, giving nothing, which happens only when no route exists. */
    method FindPath(startTile: Option<Pos>, endTile: Option<Pos>, sqrt: real -> real) returns (result: TilePath?)
      requires Valid()
      ensures startTile.None? || endTile.None? ==> result == null
      ensures startTile.Some? && startTile.value !in Nodes ==> result == null
      ensures endTile.Some? && endTile.value !in Nodes ==> result == null
      ensures result != null ==> fresh(result) && result.Valid() && result.currentTileIndex == result.Length() - 1
      ensures result != null ==>
        (startTile.Some? && endTile.Some? && result.path.Some? &&
         IsRoute(Nodes, result.path.value, startTile.value, endTile.value))
      ensures result == null && startTile.Some? && endTile.Some? && startTile.value in Nodes && endTile.value in Nodes ==>
        forall route :: !IsRoute(Nodes, route, startTile.value, endTile.value)
    {
      if startTile.None? || endTile.None? {
        return null;
      }
      var start, goal := startTile.value, endTile.value;
      if start !in Nodes || goal !in Nodes {
        return null;
      }
      var nodes, grid := Nodes, world.View();
      KeyedByIsHasNodes(nodes, grid);
      var s := Init(start, goal, sqrt);
      ghost var rank: map<Pos, nat> := map[];
      InitInv(nodes, start, goal, sqrt);
      while s.open != map[]
        invariant Inv(nodes, start, goal, s, rank) && StrongClosure(nodes, s)
        invariant s.closed == {} ==> s.open != map[]
        decreases nodes.Keys - s.closed
      {
        var path: Option<seq<Pos>>;
        ghost var current: Pos;
        s, path, rank, current := Step(nodes, grid, start, goal, sqrt, s, rank);
        if path.Some? {
          result := new TilePath(path);
          return;
        }
      }
      NoRouteWhenExhausted(nodes, start, goal, s, rank);
      return null;
    }
  }

  /** The keys of `nodes` at `c` and around it. */
  ghost function NearKeys(nodes: NodeMap, c: Pos): set<Pos> {
    set p | p in nodes && Near(p, c)
  }

  lemma RefreshNone(nodes: NodeMap, g: Grid)
    requires g.Valid() && KeyedBy(nodes, g.width, g.height)
    ensures Refreshed(nodes, g, {}) == nodes
  {
  }

  /** Refreshing one more key is one more map update. */
  lemma RefreshOne(nodes: NodeMap, g: Grid, done: set<Pos>, q: Pos)
    requires g.Valid() && KeyedBy(nodes, g.width, g.height) && q in nodes
    ensures var r := Refreshed(nodes, g, done);
      Refreshed(nodes, g, done + {q}) == r[q := r[q].(Edges := Some(EdgesFor(g, q)))]
  {
  }

  /** Refreshing every key gives a graph consistent with `g`. */
  lemma RefreshAll(nodes: NodeMap, g: Grid)
    requires g.Valid() && KeyedBy(nodes, g.width, g.height)
    ensures Graphs.Consistent(Refreshed(nodes, g, nodes.Keys), g)
  {
  }

  /** Refreshing the keys around `c` is what Regenerate is specified to do. */
  lemma RefreshNear(nodes: NodeMap, g: Grid, c: Pos)
    requires g.Valid() && KeyedBy(nodes, g.width, g.height)
    ensures Refreshed(nodes, g, NearKeys(nodes, c)) == Regenerated(nodes, g, c)
  {
  }

  /** A non-empty neighbour slot of `c` holds the tile of a key around `c`. */
  lemma SlotIsNearKey(nodes: NodeMap, g: Grid, c: Pos, ns: seq<Option<Tile>>, k: int)
    requires g.Valid() && KeyedBy(nodes, g.width, g.height)
    requires ns == g.Neighbours(c, true) && 0 <= k < 8 && ns[k].Some?
    ensures ns[k].value.Position in nodes && Near(ns[k].value.Position, c)
  {
    SlotOffsets(k);
    var q := ns[k].value.Position;
    assert q == Pos(c.x + Dx(k), c.y + Dy(k)) && g.InBounds(q);
    assert q in nodes;
  }

  /** The positions of the tiles in the first `k` slots of `ns`. */
  ghost function SlotKeys(ns: seq<Option<Tile>>, k: nat): set<Pos>
    requires k <= |ns|
  {
    if k == 0 then {}
    else SlotKeys(ns, k - 1) + if ns[k - 1].Some? then {ns[k - 1].value.Position} else {}
  }

  /** Refreshing the key of one more non-empty slot is one more map update. */
  lemma RefreshSlot(nodes: NodeMap, g: Grid, c: Pos, ns: seq<Option<Tile>>, k: nat)
    requires g.Valid() && KeyedBy(nodes, g.width, g.height)
    requires ns == g.Neighbours(c, true) && k < 8
    ensures ns[k].Some? ==> ns[k].value.Position in nodes
    ensures var r := Refreshed(nodes, g, {c} + SlotKeys(ns, k));
      Refreshed(nodes, g, {c} + SlotKeys(ns, k + 1)) ==
        if ns[k].Some? then r[ns[k].value.Position := r[ns[k].value.Position].(Edges := Some(EdgesFor(g, ns[k].value.Position)))]
        else r
  {
    var done := {c} + SlotKeys(ns, k);
    if ns[k].Some? {
      var q := ns[k].value.Position;
      SlotIsNearKey(nodes, g, c, ns, k);
      RefreshOne(nodes, g, done, q);
      assert done + {q} == {c} + SlotKeys(ns, k + 1);
    } else {
      assert done == {c} + SlotKeys(ns, k + 1);
    }
  }

  /** The key of `c` and the keys of the non-empty neighbour slots of `c` are all the keys around `c`. */
  lemma SlotsCoverNear(nodes: NodeMap, g: Grid, c: Pos, ns: seq<Option<Tile>>)
    requires g.Valid() && KeyedBy(nodes, g.width, g.height) && c in nodes
    requires ns == g.Neighbours(c, true)
    ensures {c} + SlotKeys(ns, 8) == NearKeys(nodes, c)
  {
    forall q | q in NearKeys(nodes, c)
      ensures q in {c} + SlotKeys(ns, 8)
    {
      if q != c {
        var k := NearIsSlot(c, q);
        assert ns[k] == g.TileAt(q.x, q.y);
        SlotKeysHas(ns, k, 8);
      }
    }
    forall q | q in SlotKeys(ns, 8)
      ensures q in NearKeys(nodes, c)
    {
      var k := SlotKeysFrom(ns, 8, q);
      SlotIsNearKey(nodes, g, c, ns, k);
    }
  }

  lemma {:induction false} SlotKeysHas(ns: seq<Option<Tile>>, k: nat, n: nat)
    requires k < n <= |ns| && ns[k].Some?
    ensures ns[k].value.Position in SlotKeys(ns, n)
  {
    if k < n - 1 {
      SlotKeysHas(ns, k, n - 1);
    }
  }

  lemma {:induction false} SlotKeysFrom(ns: seq<Option<Tile>>, n: nat, q: Pos) returns (k: nat)
    requires n <= |ns| && q in SlotKeys(ns, n)
    ensures k < n && ns[k].Some? && ns[k].value.Position == q
  {
    if ns[n - 1].Some? && ns[n - 1].value.Position == q {
      k := n - 1;
    } else {
      k := SlotKeysFrom(ns, n - 1, q);
    }
  }

  /** Regenerating keeps every edge leading to a node. */
  /** Refreshing `c` and its eight neighbour slots is the regeneration around `c`, and it keeps
      the graph keyed and linked. */
  lemma RefreshedSlotsRegenerate(nodes: NodeMap, g: Grid, c: Pos, ns: seq<Option<Tile>>)
    requires g.Valid() && KeyedBy(nodes, g.width, g.height) && Linked(nodes) && c in nodes
    requires ns == g.Neighbours(c, true)
    ensures Refreshed(nodes, g, {c} + SlotKeys(ns, |ns|)) == Regenerated(nodes, g, c)
    ensures KeyedBy(Regenerated(nodes, g, c), g.width, g.height) && Linked(Regenerated(nodes, g, c))
  {
    SlotsCoverNear(nodes, g, c, ns);
    RefreshNear(nodes, g, c);
    RegeneratedKeepsLinked(nodes, g, c);
  }

  lemma RegeneratedKeepsLinked(nodes: NodeMap, g: Grid, c: Pos)
    requires g.Valid() && KeyedBy(nodes, g.width, g.height) && Linked(nodes)
    ensures KeyedBy(Regenerated(nodes, g, c), g.width, g.height) && Linked(Regenerated(nodes, g, c))
  {
    var r := Regenerated(nodes, g, c);
    assert KeyedBy(r, g.width, g.height) by {
      assert forall p {:trigger p in r} :: p in r <==> p in nodes;
    }
    forall p | p in r
      ensures r[p].Edges.Some? && forall i :: 0 <= i < |Succ(r, p)| ==> Succ(r, p)[i].Target in r && Near(Succ(r, p)[i].Target, p)
    {
      if Near(p, c) {
        RegeneratedEdgesLead(g, p, Succ(r, p), r);
      } else {
        KeptEdgesLead(nodes, r, p);
      }
    }
  }

  /** An edge list carried over unchanged still leads to neighbouring keys. */
  lemma KeptEdgesLead(nodes: NodeMap, r: NodeMap, p: Pos)
    requires Linked(nodes) && p in nodes && r.Keys == nodes.Keys && p in r && r[p] == nodes[p]
    ensures r[p].Edges.Some? && forall i :: 0 <= i < |Succ(r, p)| ==> Succ(r, p)[i].Target in r && Near(Succ(r, p)[i].Target, p)
  {
    assert Succ(r, p) == Succ(nodes, p);
  }

  /** A freshly generated edge list leads to neighbouring keys of any map keyed by the cells of `g`. */
  lemma RegeneratedEdgesLead(g: Grid, p: Pos, es: seq<Edge>, r: NodeMap)
    requires g.Valid() && g.InBounds(p) && es == EdgesFor(g, p)
    requires forall q {:trigger q in r} :: q in r <==> g.InBounds(q)
    ensures forall i :: 0 <= i < |es| ==> es[i].Target in r && Near(es[i].Target, p)
  {
    EdgesAreAdmitted(g, p);
    forall i | 0 <= i < |es|
      ensures es[i].Target in r && Near(es[i].Target, p)
    {
      assert es[i] in EdgesFor(g, p);
    }
  }
}
