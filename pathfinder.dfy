/** The step-by-step search the demo drives one expansion at a time: the open set, closed set,
    came-from map and costs of one A* search from a start node to an end node, and the path once
    it is found. The graph is the tile graph's node map, with its costs read from the grid. */
module Pathfinders {
  import opened Wrappers
  import opened Tiles
  import opened Grids
  import opened Graphs
  import opened Search
  import opened Paths

  /** The search invariant over the state of a pathfinder and the path it has found: while no path
      has been found, every edge out of a closed node also stays inside the open and closed sets,
      and the start is open until something is closed. */
  ghost predicate SearchValid(nodes: NodeMap, grid: Grid, start: Pos, goal: Pos, s: SearchState, rank: map<Pos, nat>, found: Option<seq<Pos>>)
  {
    && Searchable(nodes, grid)
    && Inv(nodes, start, goal, s, rank)
    && (found.Some? ==> IsRoute(nodes, found.value, start, goal))
    && (found.None? ==> StrongClosure(nodes, s))
    && (found.None? && s.closed == {} ==> s.open != map[])
  }

  class Pathfinder {
    const StartNode: Pos
    const EndNode: Pos
    /** The node map searched and the grid its movement costs come from. */
    const nodes: NodeMap
    const grid: Grid
    /** Stands for Mathf.Sqrt in the heuristic and the step length. */
    const sqrt: real -> real

    var openSet: map<Pos, real>
    var closedSet: set<Pos>
    var cameFrom: map<Pos, Pos>
    /** The G and H costs the source keeps on the nodes themselves. */
    var GCost: map<Pos, real>
    var HCost: map<Pos, real>
    var Path: TilePath?
    /** The order in which the closed nodes were closed. */
    ghost var rank: map<Pos, nat>

    /** The search state held in the fields. */
    function State(): SearchState
      reads this
    {
      SearchState(openSet, closedSet, cameFrom, GCost, HCost)
    }

    /** The tiles of the path found so far, nothing while there is none. */
    function Tiles(): Option<seq<Pos>>
      reads this
    {
      if Path == null then None else Path.path
    }

    ghost predicate Valid()
      reads this
    {
      && (Path != null ==> Path.path.Some?)
      && SearchValid(nodes, grid, StartNode, EndNode, State(), rank, Tiles())
    }

    /** The start node alone in the open set with priority 0, with G cost 0 and H cost its
        heuristic distance to the end node; nothing closed, no parents, no path. */
    constructor (startNode: Pos, endNode: Pos, nodes: NodeMap, grid: Grid, sqrt: real -> real)
      requires Searchable(nodes, grid) && startNode in nodes && endNode in nodes
      ensures Valid()
      ensures StartNode == startNode && EndNode == endNode
      ensures this.nodes == nodes && this.grid == grid && this.sqrt == sqrt
      ensures openSet == map[startNode := 0.0] && closedSet == {} && cameFrom == map[]
      ensures startNode in GCost && GCost[startNode] == 0.0
      ensures startNode in HCost && HCost[startNode] == Heuristic(startNode, endNode, sqrt)
      ensures Path == null
    {
      StartNode, EndNode := startNode, endNode;
      this.nodes, this.grid, this.sqrt := nodes, grid, sqrt;
      closedSet := {};
      openSet := map[startNode := 0.0];
      cameFrom := map[];
      GCost := map[startNode := 0.0];
      HCost := map[startNode := Heuristic(startNode, endNode, sqrt)];
      Path := null;
      rank := map[];
      new;
      InitInv(nodes, startNode, endNode, sqrt);
      assert State() == Init(startNode, endNode, sqrt);
    }

    /** SearchIsComplete: the open set is empty. */
    predicate SearchIsComplete()
      reads this
      ensures SearchIsComplete() <==> GetOpenSet() == {}
    {
      |openSet| <= 0
    }

    /** HasFoundPath: a path has been constructed. */
    predicate HasFoundPath()
      reads this
      ensures Valid() ==> (HasFoundPath() <==> Tiles().Some?)
    {
      Path != null
    }

    /** IsInOpenSet: membership of the open set. */
    predicate IsInOpenSet(node: Pos)
      reads this
      ensures IsInOpenSet(node) <==> node in GetOpenSet()
    {
      node in openSet
    }

    /** IsInClosedSet: membership of the closed set. */
    predicate IsInClosedSet(node: Pos)
      reads this
      ensures IsInClosedSet(node) <==> node in GetClosedSet()
    {
      node in closedSet
    }

    /** The nodes of the open set, as a collection without order. */
    function GetOpenSet(): (r: set<Pos>)
      reads this
      ensures r == State().open.Keys
      ensures Valid() ==> r <= nodes.Keys && r !! GetClosedSet()
      ensures Valid() && !HasFoundPath() && GetClosedSet() == {} ==> r == {StartNode}
    {
      openSet.Keys
    }

    /** The nodes of the closed set. */
    function GetClosedSet(): (r: set<Pos>)
      reads this
      ensures r == State().closed
      ensures Valid() ==> r <= nodes.Keys && EndNode !in r
      ensures Valid() && r != {} ==> StartNode in r
    {
      closedSet
    }

    /** One step: take a node of least priority from the open set. The end node gives the path
        along the came-from chain; any other node is closed and each of its edge targets outside
        the closed set is relaxed. `current` is the node taken. */
    method ExecutePathfindingStep() returns (ghost current: Pos)
      requires Valid() && openSet != map[]
      modifies this
      ensures Valid()
      ensures current == EndNode ==>
        && Path != null && fresh(Path) && Path.path.Some?
        && Found(nodes, StartNode, EndNode, old(State()), State(), Path.path.value)
        && Path.currentTileIndex == Path.Length() - 1
      ensures current != EndNode ==>
        && Path == old(Path)
        && Expanded(nodes, grid, sqrt, EndNode, old(State()), State(), current)
    {
      var s', path, rank', c := Step(nodes, grid, StartNode, EndNode, sqrt, State(), rank);
      current := c;
      Commit(s', path, rank', if path.Some? then path else Tiles());
    }

    /** Stores the state a step produced, and the path when it found one. */
    method Commit(s': SearchState, path: Option<seq<Pos>>, ghost rank': map<Pos, nat>, ghost found: Option<seq<Pos>>)
      requires Path != null ==> Path.path.Some?
      requires found == if path.Some? then path else Tiles()
      requires SearchValid(nodes, grid, StartNode, EndNode, s', rank', found)
      modifies this
      ensures Valid() && State() == s'
      ensures path.Some? ==> Path != null && fresh(Path) && Path.path == path && Path.currentTileIndex == Path.Length() - 1
      ensures path.None? ==> Path == old(Path)
    {
      openSet, closedSet, cameFrom, GCost, HCost := s'.open, s'.closed, s'.cameFrom, s'.gCost, s'.hCost;
      rank := rank';
      if path.Some? {
        Path := new TilePath(path);
      }
      assert Tiles() == found;
    }

    /** FindPath: steps until a path is found or the open set runs empty, and gives the path,
        which is nothing only when no route from the start node to the end node exists. */
    method FindPath() returns (result: TilePath?)
      requires Valid()
      modifies this
      ensures Valid() && result == Path
      ensures old(Path) != null ==> result != null
      ensures result != null ==> result.path.Some? && IsRoute(nodes, result.path.value, StartNode, EndNode)
      ensures result == null ==> SearchIsComplete() && forall route :: !IsRoute(nodes, route, StartNode, EndNode)
    {
      while openSet != map[]
        invariant Valid()
        invariant old(Path) != null ==> Path != null
        decreases nodes.Keys - closedSet
      {
        var current := ExecutePathfindingStep();
        if Path != null {
          break;
        }
      }
      result := Path;
      if result == null {
        NoRouteWhenExhausted(nodes, StartNode, EndNode, State(), rank);
      }
    }

    /** No node is ever both in the open set and in the closed set. */
    lemma OpenAndClosedAreDisjoint(node: Pos)
      requires Valid()
      ensures !(IsInOpenSet(node) && IsInClosedSet(node))
    {
      assert openSet.Keys !! closedSet;
    }

    /** A search that ran out of open nodes without a path proves the end node unreachable. */
    lemma CompleteWithoutPath()
      requires Valid() && SearchIsComplete() && !HasFoundPath()
      ensures forall route :: !IsRoute(nodes, route, StartNode, EndNode)
    {
      NoRouteWhenExhausted(nodes, StartNode, EndNode, State(), rank);
    }
  }
}
