/** Nodes, edges and the edge-admission rule of the tile graph, as values. A node is keyed by the
    position of its tile; an edge names its target by that key. */
module Graphs {
  import opened Wrappers
  import opened Tiles
  import opened Grids

  /** An edge: the cost of entering the target and the target node's key. */
  datatype Edge = Edge(Cost: real, Target: Pos)

  /** A node: its tile (by position) and its edge list, which is absent until first generated. */
  datatype Node = Node(Data: Pos, Edges: Option<seq<Edge>>)

  type NodeMap = map<Pos, Node>

  function Abs(n: int): nat {
    if n < 0 then -n else n
  }

  /** Diagonal adjacency: one step on each axis. */
  predicate IsDiagonal(a: Pos, b: Pos) {
    Abs(a.x - b.x) == 1 && Abs(a.y - b.y) == 1
  }

  /** IsClippingCorner: a move whose deltas sum to 2 is refused when the cell
      (neighbour.x, current.y) or the cell (current.x, neighbour.y) is impassable. Both probes lie on
      the grid whenever both endpoints do, so neither lookup comes back empty. */
  function IsClippingCorner(g: Grid, current: Pos, neighbour: Pos): (r: bool)
    requires g.Valid() && g.InBounds(current) && g.InBounds(neighbour)
    ensures r ==> Abs(current.x - neighbour.x) + Abs(current.y - neighbour.y) == 2
    ensures IsDiagonal(current, neighbour) ==>
      (r <==> g.Cost(Pos(neighbour.x, current.y)) == 0.0 || g.Cost(Pos(current.x, neighbour.y)) == 0.0)
  {
    var dx := current.x - neighbour.x;
    var dy := current.y - neighbour.y;
    if Abs(dx) + Abs(dy) != 2 then false
    else if g.TileAt(current.x - dx, current.y).value.MovementCost() == 0.0 then true
    else g.TileAt(current.x, current.y - dy).value.MovementCost() == 0.0
  }

  /** Every slot that holds a tile holds one on the grid. */
  ghost predicate OnGrid(g: Grid, slots: seq<Option<Tile>>) {
    forall k :: 0 <= k < |slots| && slots[k].Some? ==> g.InBounds(slots[k].value.Position)
  }

  /** The admission rule: the neighbour exists, can be walked on, and is not reached by cutting a
      wall corner. */
  predicate Admits(g: Grid, current: Pos, slot: Option<Tile>)
    requires g.Valid() && g.InBounds(current) && (slot.Some? ==> g.InBounds(slot.value.Position))
    ensures Admits(g, current, slot) ==> slot.Some? && slot.value.Type == Floor
    ensures slot.Some? && slot.value.Type != Floor ==> !Admits(g, current, slot)
  {
    slot.Some? && slot.value.MovementCost() > 0.0 && !IsClippingCorner(g, current, slot.value.Position)
  }

  /** The edge a slot contributes: the neighbour's movement cost, to the neighbour's node. */
  function EdgeTo(t: Tile): Edge {
    Edge(t.MovementCost(), t.Position)
  }

  /** The comprehension of GenerateEdges: one edge per admitted slot, in slot order. */
  function Admit(g: Grid, current: Pos, slots: seq<Option<Tile>>): (es: seq<Edge>)
    requires g.Valid() && g.InBounds(current) && OnGrid(g, slots)
    ensures |es| <= |slots|
    ensures forall e :: e in es ==>
      exists t :: Some(t) in slots && Admits(g, current, Some(t)) && e == EdgeTo(t)
    ensures forall k :: 0 <= k < |slots| && Admits(g, current, slots[k]) ==> EdgeTo(slots[k].value) in es
    decreases |slots|
  {
    if slots == [] then []
    else
      var rest := Admit(g, current, slots[1..]);
      assert forall t :: Some(t) in slots[1..] ==> Some(t) in slots;
      if Admits(g, current, slots[0]) then [EdgeTo(slots[0].value)] + rest else rest
  }

  /** The edge list GenerateEdges gives the node at `p`: at most one edge per neighbour slot, each
      onto a floor tile and so of cost 1. */
  function EdgesFor(g: Grid, p: Pos): (es: seq<Edge>)
    requires g.Valid() && g.InBounds(p)
    ensures |es| <= 8
    ensures forall i :: 0 <= i < |es| ==> es[i].Cost == 1.0
  {
    var es := Admit(g, p, g.Neighbours(p, true));
    assert forall i :: 0 <= i < |es| ==> es[i].Cost == 1.0 by {
      forall i | 0 <= i < |es|
        ensures es[i].Cost == 1.0
      {
        assert es[i] in es;
        var t :| Some(t) in g.Neighbours(p, true) && Admits(g, p, Some(t)) && es[i] == EdgeTo(t);
      }
    }
    es
  }

  /** The outgoing edges of a key, empty when it has none. */
  function Succ(nodes: NodeMap, a: Pos): seq<Edge> {
    if a in nodes && nodes[a].Edges.Some? then nodes[a].Edges.value else []
  }

  /** `a` has an edge to `b`. */
  ghost predicate HasEdge(nodes: NodeMap, a: Pos, b: Pos) {
    exists i :: 0 <= i < |Succ(nodes, a)| && Succ(nodes, a)[i].Target == b
  }

  /** One node per cell, keyed by its own tile. */
  ghost predicate HasNodes(nodes: NodeMap, g: Grid) {
    && (forall p {:trigger p in nodes} :: p in nodes <==> g.InBounds(p))
    && (forall p :: p in nodes ==> nodes[p].Data == p)
  }

  /** What the search needs of a graph: every node has an edge list and every edge leads to a node. */
  ghost predicate Searchable(nodes: NodeMap, g: Grid) {
    && g.Valid()
    && (forall p :: p in nodes ==> g.InBounds(p) && nodes[p].Edges.Some?)
    && (forall p, i :: p in nodes && 0 <= i < |Succ(nodes, p)| ==> Succ(nodes, p)[i].Target in nodes)
    && EdgesNear(nodes)
  }

  /** Every edge joins a node to one of the eight cells around it. */
  ghost predicate EdgesNear(nodes: NodeMap) {
    forall p, i :: p in nodes && 0 <= i < |Succ(nodes, p)| ==> Near(Succ(nodes, p)[i].Target, p)
  }

  /** Every node's edge list is the one the admission rule gives on grid `g`. */
  ghost predicate Consistent(nodes: NodeMap, g: Grid) {
    && g.Valid()
    && HasNodes(nodes, g)
    && (forall p :: p in nodes ==> nodes[p].Edges == Some(EdgesFor(g, p)))
  }

  /** The slot positions of the neighbour query: the eight cells around `p`, none of them `p`. */
  lemma SlotOffsets(k: int)
    requires 0 <= k < 8
    ensures -1 <= Dx(k) <= 1 && -1 <= Dy(k) <= 1 && (Dx(k), Dy(k)) != (0, 0)
    ensures k < 4 <==> Abs(Dx(k)) + Abs(Dy(k)) == 1
  {
    assert k == 0 || k == 1 || k == 2 || k == 3 || k == 4 || k == 5 || k == 6 || k == 7;
  }

  /** Edge admission: every generated edge leads to one of the eight cells around `p`, on the grid,
      with positive movement cost and without clipping a corner, and costs what that cell costs;
      conversely every such cell gets an edge. */
  lemma EdgeAdmission(g: Grid, p: Pos)
    requires g.Valid() && g.InBounds(p)
    ensures forall e :: e in EdgesFor(g, p) ==>
      && g.InBounds(e.Target) && Near(e.Target, p) && e.Target != p
      && g.Cost(e.Target) > 0.0 && !IsClippingCorner(g, p, e.Target)
      && e.Cost == g.Cost(e.Target)
    ensures forall k :: 0 <= k < 8 ==>
      var q := Pos(p.x + Dx(k), p.y + Dy(k));
      g.InBounds(q) && g.Cost(q) > 0.0 && !IsClippingCorner(g, p, q) ==> Edge(g.Cost(q), q) in EdgesFor(g, p)
  {
    EdgesAreAdmitted(g, p);
    AdmittedAreEdges(g, p);
  }

  /** Every generated edge passes the admission rule. */
  lemma {:induction false} EdgesAreAdmitted(g: Grid, p: Pos)
    requires g.Valid() && g.InBounds(p)
    ensures forall e :: e in EdgesFor(g, p) ==>
      && g.InBounds(e.Target) && Near(e.Target, p) && e.Target != p
      && g.Cost(e.Target) > 0.0 && !IsClippingCorner(g, p, e.Target)
      && e.Cost == g.Cost(e.Target)
  {
    var ns := g.Neighbours(p, true);
    forall e | e in EdgesFor(g, p)
      ensures g.InBounds(e.Target) && Near(e.Target, p) && e.Target != p
      ensures g.Cost(e.Target) > 0.0 && !IsClippingCorner(g, p, e.Target)
      ensures e.Cost == g.Cost(e.Target)
    {
      var t :| Some(t) in ns && Admits(g, p, Some(t)) && e == EdgeTo(t);
      var k :| 0 <= k < |ns| && ns[k] == Some(t);
      SlotTile(g, p, k);
    }
  }

  /** The tile in a filled neighbour slot sits on the grid next to `p`, at the slot's offset, and
      costs what the grid says. */
  lemma SlotTile(g: Grid, p: Pos, k: nat)
    requires g.Valid() && g.InBounds(p) && k < 8 && g.Neighbours(p, true)[k].Some?
    ensures var t := g.Neighbours(p, true)[k].value;
      && t.Position == Pos(p.x + Dx(k), p.y + Dy(k))
      && g.InBounds(t.Position) && Near(t.Position, p) && t.Position != p
      && t.MovementCost() == g.Cost(t.Position)
  {
    SlotOffsets(k);
  }

  /** Every neighbour slot that passes the admission rule gives an edge. */
  lemma {:induction false} AdmittedAreEdges(g: Grid, p: Pos)
    requires g.Valid() && g.InBounds(p)
    ensures forall k :: 0 <= k < 8 ==>
      var q := Pos(p.x + Dx(k), p.y + Dy(k));
      g.InBounds(q) && g.Cost(q) > 0.0 && !IsClippingCorner(g, p, q) ==> Edge(g.Cost(q), q) in EdgesFor(g, p)
  {
    var ns := g.Neighbours(p, true);
    forall k | 0 <= k < 8
      ensures var q := Pos(p.x + Dx(k), p.y + Dy(k));
        g.InBounds(q) && g.Cost(q) > 0.0 && !IsClippingCorner(g, p, q) ==> Edge(g.Cost(q), q) in EdgesFor(g, p)
    {
      var q := Pos(p.x + Dx(k), p.y + Dy(k));
      if g.InBounds(q) && g.Cost(q) > 0.0 && !IsClippingCorner(g, p, q) {
        assert Admits(g, p, ns[k]);
      }
    }
  }

  /** Two grids agree on the three-by-three block of cells around `p`. */
  ghost predicate AgreeNear(g: Grid, h: Grid, p: Pos)
    requires g.Valid() && h.Valid()
  {
    forall x, y :: Near(Pos(x, y), p) ==> g.TileAt(x, y) == h.TileAt(x, y)
  }

  /** The comprehension only looks at cells around `current`. */
  lemma {:induction false} AdmitLocal(g: Grid, h: Grid, current: Pos, slots: seq<Option<Tile>>)
    requires g.Valid() && h.Valid() && g.InBounds(current) && AgreeNear(g, h, current)
    requires OnGrid(g, slots)
    requires forall k :: 0 <= k < |slots| && slots[k].Some? ==> Near(slots[k].value.Position, current)
    ensures h.InBounds(current) && OnGrid(h, slots)
    ensures Admit(g, current, slots) == Admit(h, current, slots)
    decreases |slots|
  {
    assert g.TileAt(current.x, current.y) == h.TileAt(current.x, current.y);
    forall k | 0 <= k < |slots| && slots[k].Some?
      ensures h.InBounds(slots[k].value.Position)
    {
      var q := slots[k].value.Position;
      assert g.TileAt(q.x, q.y) == h.TileAt(q.x, q.y);
    }
    if slots != [] {
      AdmitLocal(g, h, current, slots[1..]);
      if slots[0].Some? {
        var n := slots[0].value.Position;
        assert g.TileAt(n.x, current.y) == h.TileAt(n.x, current.y);
        assert g.TileAt(current.x, n.y) == h.TileAt(current.x, n.y);
        assert Admits(g, current, slots[0]) == Admits(h, current, slots[0]);
      }
    }
  }

  /** The edges of `p` depend only on the cells around `p`. */
  lemma EdgesLocal(g: Grid, h: Grid, p: Pos)
    requires g.Valid() && h.Valid() && g.InBounds(p) && AgreeNear(g, h, p)
    ensures h.InBounds(p) && EdgesFor(g, p) == EdgesFor(h, p)
  {
    var ns := g.Neighbours(p, true);
    assert g.TileAt(p.x, p.y) == h.TileAt(p.x, p.y);
    forall k | 0 <= k < 8
      ensures ns[k] == h.Neighbours(p, true)[k]
      ensures ns[k].Some? ==> Near(ns[k].value.Position, p)
    {
      SlotOffsets(k);
    }
    assert ns == h.Neighbours(p, true);
    AdmitLocal(g, h, p, ns);
  }

  /** Regenerate's effect on the node map: the node of `c` and of every cell around it get their
      edges recomputed on the current grid; every other node keeps its edges. */
  function Regenerated(nodes: NodeMap, g: Grid, c: Pos): (r: NodeMap)
    requires g.Valid() && forall p :: p in nodes ==> g.InBounds(p)
    ensures r.Keys == nodes.Keys
    ensures forall p {:trigger r[p]} :: p in nodes && !Near(p, c) ==> r[p] == nodes[p]
    ensures forall p {:trigger r[p]} :: p in nodes && Near(p, c) ==> r[p].Data == nodes[p].Data && r[p].Edges == Some(EdgesFor(g, p))
  {
    map p | p in nodes :: if Near(p, c) then nodes[p].(Edges := Some(EdgesFor(g, p))) else nodes[p]
  }

  /** Regenerating twice with no grid change in between gives the edge lists of regenerating once. */
  lemma RegenerateIdempotent(nodes: NodeMap, g: Grid, c: Pos)
    requires g.Valid() && forall p :: p in nodes ==> g.InBounds(p)
    ensures Regenerated(Regenerated(nodes, g, c), g, c) == Regenerated(nodes, g, c)
  {
  }

  /** Retyping a cell leaves the block around every cell not near it as it was. */
  lemma RetypeAgreesAway(g: Grid, c: Pos, t: TileType, p: Pos)
    requires g.Valid() && g.InBounds(c) && !Near(p, c)
    ensures AgreeNear(g, g.Retype(c, t), p)
  {
    var h := g.Retype(c, t);
    forall x, y | Near(Pos(x, y), p)
      ensures g.TileAt(x, y) == h.TileAt(x, y)
    {
      assert Pos(x, y) != c;
    }
  }

  /** Retyping `c` leaves the edges of every cell not near `c` as they were. */
  lemma RetypeKeepsFarEdges(g: Grid, c: Pos, t: TileType, p: Pos)
    requires g.Valid() && g.InBounds(c) && g.InBounds(p) && !Near(p, c)
    ensures g.Retype(c, t).InBounds(p) && EdgesFor(g.Retype(c, t), p) == EdgesFor(g, p)
  {
    RetypeAgreesAway(g, c, t, p);
    EdgesLocal(g, g.Retype(c, t), p);
  }

  /** Retyping one cell and regenerating around it restores a consistent graph: the cells whose
      edges can change are exactly those Regenerate revisits. */
  lemma {:induction false} RegenerateRestoresConsistency(nodes: NodeMap, g: Grid, c: Pos, t: TileType)
    requires Consistent(nodes, g) && g.InBounds(c)
    ensures Consistent(Regenerated(nodes, g.Retype(c, t), c), g.Retype(c, t))
  {
    var h := g.Retype(c, t);
    var r := Regenerated(nodes, h, c);
    forall p | p in r
      ensures r[p].Edges == Some(EdgesFor(h, p))
    {
      if !Near(p, c) {
        RetypeKeepsFarEdges(g, c, t, p);
      }
    }
  }

  /** A consistent graph is one the search can run on: every edge leads to a neighbouring node. */
  lemma ConsistentIsSearchable(nodes: NodeMap, g: Grid)
    requires Consistent(nodes, g)
    ensures Searchable(nodes, g)
  {
    forall p, i | p in nodes && 0 <= i < |Succ(nodes, p)|
      ensures Succ(nodes, p)[i].Target in nodes && Near(Succ(nodes, p)[i].Target, p)
    {
      EdgesAreAdmitted(g, p);
      assert Succ(nodes, p)[i] in EdgesFor(g, p);
    }
  }
}
