/** One A* expansion over an open set, a closed set and a came-from map, and the reconstruction of
    the path from the came-from chain. Both search drivers (the graph's own FindPath and the
    resumable Pathfinder) run this step. Node costs are kept in maps keyed by node, local to one
    search. */
module Search {
  import opened Wrappers
  import opened Tiles
  import opened Grids
  import opened Graphs
  import opened PriorityQueue
  import opened Sequences

  /** The state of one search: the open set with priorities, the closed set, the came-from map and
      the G and H costs of the nodes it has reached. */
  datatype SearchState = SearchState(
    open: map<Pos, real>,
    closed: set<Pos>,
    cameFrom: map<Pos, Pos>,
    gCost: map<Pos, real>,
    hCost: map<Pos, real>)

  /** The diagonal step length the source writes as the float literal 1.41421356237f. */
  const Sqrt2: real := 1.41421356237

  /** CalculateHeuristicCost: the straight-line distance to the goal; `sqrt` stands for Mathf.Sqrt.
      Except for a unit or a diagonal step, it is the step length the search uses. */
  function Heuristic(a: Pos, b: Pos, sqrt: real -> real): (h: real)
    ensures Abs(a.x - b.x) + Abs(a.y - b.y) != 1 && !IsDiagonal(a, b) ==> h == DistanceBetween(a, b, sqrt)
  {
    var dx := a.x - b.x;
    var dy := a.y - b.y;
    sqrt((dx * dx + dy * dy) as real)
  }

  /** DistanceBetween as written: the diagonal test checks |dx| twice, so every pair with |dx| = 1
      that is not a unit step gets the diagonal length. Where |dx| is not 1 it agrees with the
      corrected distance. */
  function DistanceAsWritten(a: Pos, b: Pos, sqrt: real -> real): (d: real)
    ensures Abs(a.x - b.x) == 1 && a.y != b.y ==> d == Sqrt2
    ensures Abs(a.x - b.x) != 1 ==> d == DistanceBetween(a, b, sqrt)
  {
    var dx := a.x - b.x;
    var dy := a.y - b.y;
    if Abs(dx) + Abs(dy) == 1 then 1.0
    else if Abs(dx) == 1 && Abs(dx) == 1 then Sqrt2
    else sqrt((dx * dx + dy * dy) as real)
  }

  /** The as-written test gives the diagonal length to (0,0) -> (1,3), which is not a diagonal
      step; the corrected distance gives the Euclidean length there, and for any square root of 10
      the two differ. */
  lemma DistanceAsWrittenMisjudges(sqrt: real -> real)
    requires sqrt(10.0) * sqrt(10.0) == 10.0
    ensures !IsDiagonal(Pos(0, 0), Pos(1, 3))
    ensures DistanceAsWritten(Pos(0, 0), Pos(1, 3), sqrt) == Sqrt2
    ensures DistanceBetween(Pos(0, 0), Pos(1, 3), sqrt) == sqrt(10.0)
    ensures DistanceAsWritten(Pos(0, 0), Pos(1, 3), sqrt) != DistanceBetween(Pos(0, 0), Pos(1, 3), sqrt)
  {
    assert Sqrt2 * Sqrt2 < 10.0;
  }

  /** DistanceBetween with the diagonal test on both axes: 1 for a unit step, the diagonal length
      for a diagonal neighbour, the Euclidean formula for every other pair. */
  function DistanceBetween(a: Pos, b: Pos, sqrt: real -> real): (d: real)
    ensures Abs(a.x - b.x) + Abs(a.y - b.y) == 1 ==> d == 1.0
    ensures IsDiagonal(a, b) ==> d == Sqrt2
    ensures Abs(a.x - b.x) + Abs(a.y - b.y) != 1 && !IsDiagonal(a, b) ==>
      d == sqrt(((a.x - b.x) * (a.x - b.x) + (a.y - b.y) * (a.y - b.y)) as real)
  {
    var dx := a.x - b.x;
    var dy := a.y - b.y;
    if Abs(dx) + Abs(dy) == 1 then 1.0
    else if Abs(dx) == 1 && Abs(dy) == 1 then Sqrt2
    else sqrt((dx * dx + dy * dy) as real)
  }

  /** On the pairs the search ever measures (grid neighbours) the two versions agree. */
  lemma DistanceAgreesOnNeighbours(a: Pos, b: Pos, sqrt: real -> real)
    requires Near(a, b)
    ensures DistanceAsWritten(a, b, sqrt) == DistanceBetween(a, b, sqrt)
  {
  }

  /** The cost of reaching `q` through `current`: current's G cost plus q's movement cost times the
      step length. */
  function Tentative(grid: Grid, sqrt: real -> real, gCurrent: real, current: Pos, q: Pos): (g: real)
    requires grid.Valid() && grid.InBounds(q)
    ensures Abs(current.x - q.x) + Abs(current.y - q.y) == 1 ==> g == gCurrent + grid.Cost(q)
    ensures IsDiagonal(current, q) ==> g == gCurrent + grid.Cost(q) * Sqrt2
    ensures grid.Cost(q) == 0.0 ==> g == gCurrent
  {
    gCurrent + grid.Cost(q) * DistanceBetween(current, q, sqrt)
  }

  /** Every edge of a searchable graph joins neighbouring cells, so the cost the search gives a step
      along an edge is the one the as-written distance gives. */
  lemma TentativeAsWritten(nodes: NodeMap, grid: Grid, sqrt: real -> real, gCurrent: real, current: Pos, i: nat)
    requires Searchable(nodes, grid) && current in nodes && i < |Succ(nodes, current)|
    ensures var q := Succ(nodes, current)[i].Target;
      && grid.InBounds(q)
      && Tentative(grid, sqrt, gCurrent, current, q) == gCurrent + grid.Cost(q) * DistanceAsWritten(current, q, sqrt)
  {
    var q := Succ(nodes, current)[i].Target;
    StepCostAsWritten(grid, sqrt, gCurrent, current, q);
  }

  /** The cost of a step between neighbouring cells is the same with either distance. */
  lemma StepCostAsWritten(grid: Grid, sqrt: real -> real, gCurrent: real, current: Pos, q: Pos)
    requires grid.Valid() && grid.InBounds(q) && Near(q, current)
    ensures Tentative(grid, sqrt, gCurrent, current, q) == gCurrent + grid.Cost(q) * DistanceAsWritten(current, q, sqrt)
  {
    var d := DistanceBetween(current, q, sqrt);
    DistanceAgreesOnNeighbours(current, q, sqrt);
    assert Tentative(grid, sqrt, gCurrent, current, q) == gCurrent + grid.Cost(q) * d;
  }

  /** The state a search starts in: the start node alone in the open set with priority 0, with G cost
      0 and H cost its heuristic distance to the goal. */
  function Init(start: Pos, goal: Pos, sqrt: real -> real): (s: SearchState)
    ensures s.open == map[start := 0.0] && s.closed == {} && s.cameFrom == map[]
    ensures start in s.gCost && s.gCost[start] == 0.0
    ensures start in s.hCost && s.hCost[start] == Heuristic(start, goal, sqrt)
  {
    SearchState(map[start := 0.0], {}, map[], map[start := 0.0], map[start := Heuristic(start, goal, sqrt)])
  }

  ghost predicate Frontier(s: SearchState, q: Pos) {
    q in s.open || q in s.closed
  }

  /** The parent of `c` is closed, was closed before `c` if `c` is closed, and has an edge to `c`. */
  ghost predicate Parented(nodes: NodeMap, s: SearchState, rank: map<Pos, nat>, c: Pos)
    requires c in s.cameFrom
  {
    var p := s.cameFrom[c];
    && p in s.closed && p in rank
    && (c in s.closed ==> c in rank && rank[p] < rank[c])
    && HasEdge(nodes, p, c)
  }

  /** Every edge out of a closed node leads into the open or closed set, or to the goal. */
  ghost predicate WeakClosure(nodes: NodeMap, goal: Pos, s: SearchState) {
    forall c, i :: c in s.closed && 0 <= i < |Succ(nodes, c)| ==>
      Frontier(s, Succ(nodes, c)[i].Target) || Succ(nodes, c)[i].Target == goal
  }

  /** Every edge out of a closed node leads into the open or closed set. */
  ghost predicate StrongClosure(nodes: NodeMap, s: SearchState) {
    forall c, i :: c in s.closed && 0 <= i < |Succ(nodes, c)| ==> Frontier(s, Succ(nodes, c)[i].Target)
  }

  /** The search invariant. `rank` numbers the closed nodes in the order they were closed; it is
      what makes the came-from chain well-founded. */
  ghost predicate Inv(nodes: NodeMap, start: Pos, goal: Pos, s: SearchState, rank: map<Pos, nat>) {
    InvSets(nodes, start, goal, s) && InvTree(nodes, start, s, rank) && WeakClosure(nodes, goal, s)
  }

  /** The open and closed sets: graph nodes, disjoint, the open ones with costs; the goal is never
      closed; the start is closed once anything is. */
  ghost predicate InvSets(nodes: NodeMap, start: Pos, goal: Pos, s: SearchState) {
    && start in nodes && goal in nodes
    && s.open.Keys <= nodes.Keys && s.closed <= nodes.Keys
    && s.open.Keys !! s.closed
    && s.open.Keys <= s.gCost.Keys && s.open.Keys <= s.hCost.Keys
    && goal !in s.closed
    && (s.closed == {} ==> s.open.Keys <= {start} && s.cameFrom == map[])
    && (s.closed != {} ==> start in s.closed)
  }

  /** The came-from map: every reached node but the start has a parent, and parents are ranked
      closed nodes. */
  ghost predicate InvTree(nodes: NodeMap, start: Pos, s: SearchState, rank: map<Pos, nat>) {
    && rank.Keys == s.closed
    && (forall q :: q in rank ==> rank[q] < |s.closed|)
    && (forall c {:trigger Parented(nodes, s, rank, c)} :: c in s.cameFrom ==> Parented(nodes, s, rank, c))
    && start !in s.cameFrom
    && (forall q {:trigger Frontier(s, q)} :: Frontier(s, q) && q != start ==> q in s.cameFrom)
  }

  lemma InitInv(nodes: NodeMap, start: Pos, goal: Pos, sqrt: real -> real)
    requires start in nodes && goal in nodes
    ensures Inv(nodes, start, goal, Init(start, goal, sqrt), map[])
    ensures StrongClosure(nodes, Init(start, goal, sqrt))
  {
  }

  /** `route` runs from `a` to `b` along edges of the graph. */
  ghost predicate IsRoute(nodes: NodeMap, route: seq<Pos>, a: Pos, b: Pos) {
    && |route| >= 1 && route[0] == a && route[|route| - 1] == b
    && forall i :: 0 <= i < |route| - 1 ==> HasEdge(nodes, route[i], route[i + 1])
  }

  /** Each node of `route` after the first is preceded by its came-from parent, and the first has none. */
  ghost predicate FollowsCameFrom(cameFrom: map<Pos, Pos>, route: seq<Pos>) {
    && |route| >= 1 && route[0] !in cameFrom
    && forall i :: 0 < i < |route| ==> route[i] in cameFrom && cameFrom[route[i]] == route[i - 1]
  }

  /** ConstructPath: follow the came-from map back from `goal`, collecting the nodes, and return them
      reversed, so that the route starts at the node without a parent and ends at `goal`. `rank`
      only proves that the walk ends. */
  method ConstructPath(cameFrom: map<Pos, Pos>, goal: Pos, ghost rank: map<Pos, nat>) returns (route: seq<Pos>)
    requires forall c :: c in cameFrom ==> cameFrom[c] in rank && (c in rank ==> rank[cameFrom[c]] < rank[c])
    ensures FollowsCameFrom(cameFrom, route) && route[|route| - 1] == goal
  {
    var totalPath := [goal];
    var current := goal;
    while current in cameFrom
      invariant |totalPath| >= 1 && totalPath[0] == goal && totalPath[|totalPath| - 1] == current
      invariant forall i :: 0 <= i < |totalPath| - 1 ==>
        totalPath[i] in cameFrom && cameFrom[totalPath[i]] == totalPath[i + 1]
      decreases if current in rank then 0 else 1, if current in rank then rank[current] else 0
    {
      current := cameFrom[current];
      totalPath := totalPath + [current];
    }
    route := Reversed(totalPath);
  }

  /** A route read off the came-from map from a node in the open set starts at the start node and
      follows edges of the graph. */
  lemma {:induction false} CameFromRoute(nodes: NodeMap, start: Pos, goal: Pos, s: SearchState, rank: map<Pos, nat>, route: seq<Pos>)
    requires Inv(nodes, start, goal, s, rank) && goal in s.open
    requires FollowsCameFrom(s.cameFrom, route) && route[|route| - 1] == goal
    ensures IsRoute(nodes, route, start, goal)
  {
    if |route| == 1 {
      assert Frontier(s, goal);
    } else {
      assert Parented(nodes, s, rank, route[1]);
      assert Frontier(s, route[0]);
    }
    forall i | 0 <= i < |route| - 1
      ensures HasEdge(nodes, route[i], route[i + 1])
    {
      assert Parented(nodes, s, rank, route[i + 1]);
    }
  }

  /** The goal was taken from the open set: the state is left as it was but for the goal leaving
      the open set, and `route` is the came-from chain from the start to the goal. */
  ghost predicate Found(nodes: NodeMap, start: Pos, goal: Pos, s: SearchState, s': SearchState, route: seq<Pos>) {
    && IsMin(s.open, goal)
    && s' == s.(open := s.open - {goal})
    && IsRoute(nodes, route, start, goal)
    && FollowsCameFrom(s.cameFrom, route)
  }

  /** Both maps hold the same entry for `k`, or neither holds one. */
  ghost predicate SameAt<K, V>(m: map<K, V>, m': map<K, V>, k: K) {
    (k in m <==> k in m') && (k in m ==> m[k] == m'[k])
  }

  /** Nothing the search keeps about `q` changed. */
  ghost predicate Untouched(s: SearchState, s': SearchState, q: Pos) {
    SameAt(s.open, s'.open, q) && SameAt(s.cameFrom, s'.cameFrom, q) && SameAt(s.gCost, s'.gCost, q) && SameAt(s.hCost, s'.hCost, q)
  }

  /** The relaxation test of the source: a neighbour is updated unless it is already open with a
      G cost no greater than the tentative one. */
  ghost predicate Improves(grid: Grid, sqrt: real -> real, s: SearchState, current: Pos, q: Pos)
    requires grid.Valid() && grid.InBounds(q) && current in s.gCost
    requires q in s.open ==> q in s.gCost
  {
    !(q in s.open && Tentative(grid, sqrt, s.gCost[current], current, q) >= s.gCost[q])
  }

  /** `q` was updated through `current`: it is a neighbour of `current` that passed the relaxation
      test, and it is open with its new G cost, H cost, and G + H as its priority. */
  ghost predicate Relaxed(nodes: NodeMap, grid: Grid, sqrt: real -> real, goal: Pos, s: SearchState, s': SearchState, current: Pos, q: Pos)
    requires grid.Valid() && current in s.gCost
    requires forall r :: r in s.open ==> r in s.gCost
  {
    && HasEdge(nodes, current, q) && grid.InBounds(q) && Improves(grid, sqrt, s, current, q) && q !in s'.closed
    && q in s'.open && q in s'.gCost && q in s'.hCost
    && s'.gCost[q] == Tentative(grid, sqrt, s.gCost[current], current, q)
    && s'.hCost[q] == Heuristic(q, goal, sqrt)
    && s'.open[q] == s'.gCost[q] + s'.hCost[q]
  }

  /** `current`, a non-goal node of least priority, was moved to the closed set and its neighbours
      were relaxed: a neighbour outside the closed set is updated exactly when the relaxation test
      passes, and every other node is left as it was. */
  ghost predicate Expanded(nodes: NodeMap, grid: Grid, sqrt: real -> real, goal: Pos, s: SearchState, s': SearchState, current: Pos)
    requires Searchable(nodes, grid)
    requires forall q :: q in s.open ==> q in s.gCost
  {
    && IsMin(s.open, current) && current != goal && current !in s.closed
    && s'.closed == s.closed + {current}
    && current !in s'.open
    && SameAt(s.cameFrom, s'.cameFrom, current) && SameAt(s.gCost, s'.gCost, current) && SameAt(s.hCost, s'.hCost, current)
    && (forall q :: Updated(s', current, q) ==> Relaxed(nodes, grid, sqrt, goal, s, s', current, q))
    && (forall q {:trigger Untouched(s, s', q)} :: q != current && !Updated(s', current, q) ==> Untouched(s, s', q))
    && (forall i :: 0 <= i < |Succ(nodes, current)| && Succ(nodes, current)[i].Target !in s'.closed ==>
          var q := Succ(nodes, current)[i].Target;
          Updated(s', current, q) <==> Improves(grid, sqrt, s, current, q))
  }

  /** The relaxation of one edge target `q` of `current`: nothing happens when `q` is closed, or
      open with a G cost no greater than the tentative one; otherwise `q` takes `current` as its
      parent, the tentative G cost, its H cost, and is enqueued (or re-prioritised) at G + H. */
  function RelaxEdge(grid: Grid, sqrt: real -> real, goal: Pos, current: Pos, st: SearchState, q: Pos): (r: SearchState)
    requires grid.Valid() && grid.InBounds(q) && current in st.gCost
    requires q in st.open ==> q in st.gCost
    ensures r.closed == st.closed
    ensures q in st.closed ==> r == st
    ensures q !in st.closed ==> r.open.Keys == st.open.Keys + {q} && q in r.gCost
    ensures q in st.open && q !in st.closed ==> r.gCost[q] <= st.gCost[q]
    ensures r != st ==> q in r.hCost && r.cameFrom == st.cameFrom[q := current] && r.open[q] == r.gCost[q] + r.hCost[q]
  {
    if q in st.closed then st
    else
      var tentative := Tentative(grid, sqrt, st.gCost[current], current, q);
      if q in st.open && tentative >= st.gCost[q] then st
      else
        var h := Heuristic(q, goal, sqrt);
        st.(cameFrom := st.cameFrom[q := current], gCost := st.gCost[q := tentative], hCost := st.hCost[q := h],
            open := EnqueueOrUpdate(st.open, q, tentative + h))
  }

  ghost predicate Updated(st: SearchState, current: Pos, q: Pos) {
    q in st.cameFrom && st.cameFrom[q] == current
  }

  /** What holds after the first `i` edges of `current` were relaxed, starting from `s`. */
  ghost predicate Progress(nodes: NodeMap, grid: Grid, sqrt: real -> real, goal: Pos, s: SearchState, current: Pos, st: SearchState, i: nat)
    requires Searchable(nodes, grid) && current in s.gCost
    requires forall q :: q in s.open ==> q in s.gCost
  {
    ProgressNodes(nodes, grid, sqrt, goal, s, current, st, i) && ProgressEdges(nodes, grid, sqrt, s, current, st, i)
  }

  /** The node-by-node half of Progress: `current` closed, updated nodes relaxed, the rest untouched. */
  ghost predicate ProgressNodes(nodes: NodeMap, grid: Grid, sqrt: real -> real, goal: Pos, s: SearchState, current: Pos, st: SearchState, i: nat)
    requires Searchable(nodes, grid) && current in s.gCost
    requires forall q :: q in s.open ==> q in s.gCost
  {
    && i <= |Succ(nodes, current)|
    && st.closed == s.closed + {current}
    && current !in st.open && current in st.gCost && st.gCost[current] == s.gCost[current]
    && SameAt(s.cameFrom, st.cameFrom, current) && SameAt(s.hCost, st.hCost, current)
    && (forall q :: q in st.open ==> q in st.gCost && q in st.hCost)
    && (forall q :: Updated(st, current, q) ==> Relaxed(nodes, grid, sqrt, goal, s, st, current, q))
    && (forall q {:trigger Untouched(s, st, q)} :: q != current && !Updated(st, current, q) ==> Untouched(s, st, q))
  }

  /** The edge-by-edge half of Progress: each of the first `i` edge targets not closed was updated
      exactly when the relaxation test passed, and is now open or closed. */
  ghost predicate ProgressEdges(nodes: NodeMap, grid: Grid, sqrt: real -> real, s: SearchState, current: Pos, st: SearchState, i: nat)
    requires Searchable(nodes, grid) && current in s.gCost
    requires forall q :: q in s.open ==> q in s.gCost
  {
    && i <= |Succ(nodes, current)|
    && (forall j :: 0 <= j < i && Succ(nodes, current)[j].Target !in st.closed ==>
          var q := Succ(nodes, current)[j].Target;
          Updated(st, current, q) <==> Improves(grid, sqrt, s, current, q))
    && (forall j :: 0 <= j < i ==> Frontier(st, Succ(nodes, current)[j].Target))
  }

  lemma {:induction false} RelaxStep(nodes: NodeMap, grid: Grid, sqrt: real -> real, goal: Pos, s: SearchState, current: Pos, st: SearchState, i: nat)
    requires Searchable(nodes, grid) && current in s.gCost && current in nodes
    requires forall q :: q in s.open ==> q in s.gCost
    requires Progress(nodes, grid, sqrt, goal, s, current, st, i) && i < |Succ(nodes, current)|
    ensures var q := Succ(nodes, current)[i].Target;
      q in nodes && grid.InBounds(q) && (q in st.open ==> q in st.gCost) &&
      Progress(nodes, grid, sqrt, goal, s, current, RelaxEdge(grid, sqrt, goal, current, st, q), i + 1)
  {
    var q := Succ(nodes, current)[i].Target;
    assert q in nodes;
    if RelaxEdge(grid, sqrt, goal, current, st, q) == st {
      RelaxSkipped(nodes, grid, sqrt, goal, s, current, st, i);
    } else {
      RelaxUpdated(nodes, grid, sqrt, goal, s, current, st, i);
    }
  }

  /** An edge target the relaxation leaves alone keeps the progress facts. */
  lemma RelaxSkipped(nodes: NodeMap, grid: Grid, sqrt: real -> real, goal: Pos, s: SearchState, current: Pos, st: SearchState, i: nat)
    requires Searchable(nodes, grid) && current in s.gCost && current in nodes
    requires forall q :: q in s.open ==> q in s.gCost
    requires Progress(nodes, grid, sqrt, goal, s, current, st, i) && i < |Succ(nodes, current)|
    requires Succ(nodes, current)[i].Target in nodes
    requires RelaxEdge(grid, sqrt, goal, current, st, Succ(nodes, current)[i].Target) == st
    ensures Progress(nodes, grid, sqrt, goal, s, current, st, i + 1)
  {
    var q := Succ(nodes, current)[i].Target;
    if q !in st.closed {
      if Updated(st, current, q) {
        assert Relaxed(nodes, grid, sqrt, goal, s, st, current, q);
      } else {
        assert Untouched(s, st, q);
        assert q in st.open;
      }
    }
  }

  /** An edge target the relaxation updates keeps the progress facts. */
  lemma RelaxUpdated(nodes: NodeMap, grid: Grid, sqrt: real -> real, goal: Pos, s: SearchState, current: Pos, st: SearchState, i: nat)
    requires Searchable(nodes, grid) && current in s.gCost && current in nodes
    requires forall q :: q in s.open ==> q in s.gCost
    requires Progress(nodes, grid, sqrt, goal, s, current, st, i) && i < |Succ(nodes, current)|
    requires Succ(nodes, current)[i].Target in nodes
    requires RelaxEdge(grid, sqrt, goal, current, st, Succ(nodes, current)[i].Target) != st
    ensures Progress(nodes, grid, sqrt, goal, s, current, RelaxEdge(grid, sqrt, goal, current, st, Succ(nodes, current)[i].Target), i + 1)
  {
    RelaxUpdatedNodes(nodes, grid, sqrt, goal, s, current, st, i);
    RelaxUpdatedEdges(nodes, grid, sqrt, goal, s, current, st, i);
  }

  lemma RelaxUpdatedNodes(nodes: NodeMap, grid: Grid, sqrt: real -> real, goal: Pos, s: SearchState, current: Pos, st: SearchState, i: nat)
    requires Searchable(nodes, grid) && current in s.gCost && current in nodes
    requires forall q :: q in s.open ==> q in s.gCost
    requires ProgressNodes(nodes, grid, sqrt, goal, s, current, st, i) && i < |Succ(nodes, current)|
    requires Succ(nodes, current)[i].Target in nodes
    requires RelaxEdge(grid, sqrt, goal, current, st, Succ(nodes, current)[i].Target) != st
    ensures ProgressNodes(nodes, grid, sqrt, goal, s, current, RelaxEdge(grid, sqrt, goal, current, st, Succ(nodes, current)[i].Target), i + 1)
  {
    var q := Succ(nodes, current)[i].Target;
    assert q !in st.closed && q != current;
    forall r | Updated(RelaxEdge(grid, sqrt, goal, current, st, q), current, r)
      ensures Relaxed(nodes, grid, sqrt, goal, s, RelaxEdge(grid, sqrt, goal, current, st, q), current, r)
    {
      if r == q {
        RelaxedNew(nodes, grid, sqrt, goal, s, current, st, i);
      } else {
        assert Updated(st, current, r);
      }
    }
    UntouchedAfterUpdate(nodes, grid, sqrt, goal, s, current, st, q);
  }

  /** The updated edge target is relaxed through `current`. */
  lemma RelaxedNew(nodes: NodeMap, grid: Grid, sqrt: real -> real, goal: Pos, s: SearchState, current: Pos, st: SearchState, i: nat)
    requires Searchable(nodes, grid) && current in s.gCost && current in nodes
    requires forall q :: q in s.open ==> q in s.gCost
    requires ProgressNodes(nodes, grid, sqrt, goal, s, current, st, i) && i < |Succ(nodes, current)|
    requires Succ(nodes, current)[i].Target in nodes
    requires RelaxEdge(grid, sqrt, goal, current, st, Succ(nodes, current)[i].Target) != st
    ensures var q := Succ(nodes, current)[i].Target;
      Relaxed(nodes, grid, sqrt, goal, s, RelaxEdge(grid, sqrt, goal, current, st, q), current, q)
  {
    var q := Succ(nodes, current)[i].Target;
    var st' := RelaxEdge(grid, sqrt, goal, current, st, q);
    var tentative := Tentative(grid, sqrt, s.gCost[current], current, q);
    assert q !in st.closed && q != current;
    assert HasEdge(nodes, current, q);
    if Updated(st, current, q) {
      assert false;
    }
    assert Untouched(s, st, q);
    assert Improves(grid, sqrt, s, current, q);
    assert st'.gCost[q] == tentative && st'.hCost[q] == Heuristic(q, goal, sqrt);
  }

  /** A relaxation that updates `q` touches nothing but `q`. */
  lemma UntouchedAfterUpdate(nodes: NodeMap, grid: Grid, sqrt: real -> real, goal: Pos, s: SearchState, current: Pos, st: SearchState, q: Pos)
    requires grid.Valid() && grid.InBounds(q) && current in st.gCost && (q in st.open ==> q in st.gCost)
    requires RelaxEdge(grid, sqrt, goal, current, st, q) != st
    requires forall r {:trigger Untouched(s, st, r)} :: r != current && !Updated(st, current, r) ==> Untouched(s, st, r)
    ensures var st' := RelaxEdge(grid, sqrt, goal, current, st, q);
      forall r {:trigger Untouched(s, st', r)} :: r != current && !Updated(st', current, r) ==> Untouched(s, st', r)
  {
    var st' := RelaxEdge(grid, sqrt, goal, current, st, q);
    forall r | r != current && !Updated(st', current, r)
      ensures Untouched(s, st', r)
    {
      assert r != q && !Updated(st, current, r);
      assert Untouched(s, st, r);
    }
  }

  lemma RelaxUpdatedEdges(nodes: NodeMap, grid: Grid, sqrt: real -> real, goal: Pos, s: SearchState, current: Pos, st: SearchState, i: nat)
    requires Searchable(nodes, grid) && current in s.gCost && current in nodes
    requires forall q :: q in s.open ==> q in s.gCost
    requires Progress(nodes, grid, sqrt, goal, s, current, st, i) && i < |Succ(nodes, current)|
    requires Succ(nodes, current)[i].Target in nodes
    requires RelaxEdge(grid, sqrt, goal, current, st, Succ(nodes, current)[i].Target) != st
    ensures ProgressEdges(nodes, grid, sqrt, s, current, RelaxEdge(grid, sqrt, goal, current, st, Succ(nodes, current)[i].Target), i + 1)
  {
    var es := Succ(nodes, current);
    var q := es[i].Target;
    var st' := RelaxEdge(grid, sqrt, goal, current, st, q);
    RelaxedNew(nodes, grid, sqrt, goal, s, current, st, i);
    assert q !in st.closed;
    assert st'.closed == st.closed && st'.cameFrom == st.cameFrom[q := current];
    assert st'.open.Keys == st.open.Keys + {q};
    forall j | 0 <= j < i + 1 && es[j].Target !in st'.closed
      ensures Updated(st', current, es[j].Target) <==> Improves(grid, sqrt, s, current, es[j].Target)
    {
      if es[j].Target != q {
        assert Updated(st', current, es[j].Target) == Updated(st, current, es[j].Target);
      }
    }
    forall j | 0 <= j < i + 1
      ensures Frontier(st', es[j].Target)
    {
      if es[j].Target != q {
        assert Frontier(st, es[j].Target);
      }
    }
  }

  /** The expansion half of ExecutePathfindingStep: close `current` (already taken from the open
      set, leaving `rest`) and relax each of its edges in order. */
  method Expand(nodes: NodeMap, grid: Grid, sqrt: real -> real, goal: Pos, s: SearchState, current: Pos, rest: map<Pos, real>)
    returns (s': SearchState)
    requires Searchable(nodes, grid)
    requires forall q :: q in s.open ==> q in s.gCost && q in s.hCost
    requires forall q :: q in s.cameFrom ==> s.cameFrom[q] in s.closed
    requires IsMin(s.open, current) && current != goal && current !in s.closed && current in nodes
    requires rest == s.open - {current}
    ensures Expanded(nodes, grid, sqrt, goal, s, s', current)
    ensures forall i :: 0 <= i < |Succ(nodes, current)| ==> Frontier(s', Succ(nodes, current)[i].Target)
    ensures forall q :: q in s'.open ==> q in s'.gCost && q in s'.hCost
  {
    var es := Succ(nodes, current);
    s' := s.(open := rest, closed := s.closed + {current});
    var i := 0;
    while i < |es|
      invariant 0 <= i <= |es|
      invariant Progress(nodes, grid, sqrt, goal, s, current, s', i)
    {
      RelaxStep(nodes, grid, sqrt, goal, s, current, s', i);
      s' := RelaxEdge(grid, sqrt, goal, current, s', es[i].Target);
      i := i + 1;
    }
  }

  /** Closing `current` and relaxing its edges keeps the search invariant, with `current` ranked
      after every node closed before it. */
  lemma ExpandKeepsInv(nodes: NodeMap, grid: Grid, sqrt: real -> real, start: Pos, goal: Pos,
                       s: SearchState, s': SearchState, rank: map<Pos, nat>, current: Pos)
    requires Searchable(nodes, grid) && Inv(nodes, start, goal, s, rank)
    requires Expanded(nodes, grid, sqrt, goal, s, s', current)
    requires forall i :: 0 <= i < |Succ(nodes, current)| ==> Frontier(s', Succ(nodes, current)[i].Target)
    requires forall q :: q in s'.open ==> q in s'.gCost && q in s'.hCost
    ensures Inv(nodes, start, goal, s', rank[current := |s.closed|])
    ensures StrongClosure(nodes, s) ==> StrongClosure(nodes, s')
  {
    SetsAfterExpand(nodes, grid, sqrt, start, goal, s, s', rank, current);
    TreeAfterExpand(nodes, grid, sqrt, start, goal, s, s', rank, rank[current := |s.closed|], current);
    ClosureCarries(nodes, grid, sqrt, start, goal, s, s', rank, current);
  }

  lemma SetsAfterExpand(nodes: NodeMap, grid: Grid, sqrt: real -> real, start: Pos, goal: Pos,
                        s: SearchState, s': SearchState, rank: map<Pos, nat>, current: Pos)
    requires Searchable(nodes, grid) && Inv(nodes, start, goal, s, rank)
    requires Expanded(nodes, grid, sqrt, goal, s, s', current)
    requires forall q :: q in s'.open ==> q in s'.gCost && q in s'.hCost
    ensures InvSets(nodes, start, goal, s')
  {
    StartClosedAfterExpand(nodes, grid, sqrt, start, goal, s, s', rank, current);
    OpenAfterExpand(nodes, grid, sqrt, start, goal, s, s', rank, current);
  }

  lemma TreeAfterExpand(nodes: NodeMap, grid: Grid, sqrt: real -> real, start: Pos, goal: Pos,
                        s: SearchState, s': SearchState, rank: map<Pos, nat>, rank': map<Pos, nat>, current: Pos)
    requires Searchable(nodes, grid) && Inv(nodes, start, goal, s, rank)
    requires Expanded(nodes, grid, sqrt, goal, s, s', current)
    requires rank' == rank[current := |s.closed|]
    ensures InvTree(nodes, start, s', rank')
  {
    RanksAfterClose(s.closed, s'.closed, rank, rank', current);
    ParentsAfterExpand(nodes, grid, sqrt, start, goal, s, s', rank, rank', current);
    CameFromAfterExpand(nodes, grid, sqrt, start, goal, s, s', rank, current);
  }

  /** Closing one more node gives it the next rank and keeps every rank below the number closed. */
  lemma RanksAfterClose(closed: set<Pos>, closed': set<Pos>, rank: map<Pos, nat>, rank': map<Pos, nat>, current: Pos)
    requires rank.Keys == closed && forall q :: q in rank ==> rank[q] < |closed|
    requires current !in closed && closed' == closed + {current}
    requires rank' == rank[current := |closed|]
    ensures rank'.Keys == closed' && forall q :: q in rank' ==> rank'[q] < |closed'|
  {
    assert |closed'| == |closed| + 1;
    forall q | q in rank'
      ensures rank'[q] < |closed'|
    {
      if q != current {
        assert rank'[q] == rank[q];
      }
    }
  }

  /** After an expansion the start is closed. */
  lemma StartClosedAfterExpand(nodes: NodeMap, grid: Grid, sqrt: real -> real, start: Pos, goal: Pos,
                        s: SearchState, s': SearchState, rank: map<Pos, nat>, current: Pos)
    requires Searchable(nodes, grid) && Inv(nodes, start, goal, s, rank)
    requires Expanded(nodes, grid, sqrt, goal, s, s', current)
    ensures start in s'.closed
  {
    if s.closed == {} {
      assert current in s.open;
    }
  }

  /** After an expansion the open set stays among the graph's nodes and apart from the closed set. */
  lemma OpenAfterExpand(nodes: NodeMap, grid: Grid, sqrt: real -> real, start: Pos, goal: Pos,
                        s: SearchState, s': SearchState, rank: map<Pos, nat>, current: Pos)
    requires Searchable(nodes, grid) && Inv(nodes, start, goal, s, rank)
    requires Expanded(nodes, grid, sqrt, goal, s, s', current)
    ensures forall q :: q in s'.open ==> q in nodes && q !in s'.closed
  {
    forall q | q in s'.open
      ensures q in nodes && q !in s'.closed
    {
      if !Updated(s', current, q) {
        assert Untouched(s, s', q);
      }
    }
  }

  /** After an expansion the start has no parent and every other reached node has one. */
  lemma CameFromAfterExpand(nodes: NodeMap, grid: Grid, sqrt: real -> real, start: Pos, goal: Pos,
                        s: SearchState, s': SearchState, rank: map<Pos, nat>, current: Pos)
    requires Searchable(nodes, grid) && Inv(nodes, start, goal, s, rank)
    requires Expanded(nodes, grid, sqrt, goal, s, s', current)
    ensures start !in s'.cameFrom
    ensures forall q :: Frontier(s', q) && q != start ==> q in s'.cameFrom
  {
    if start != current && !Updated(s', current, start) {
      assert Untouched(s, s', start);
    }
    forall q | Frontier(s', q) && q != start
      ensures q in s'.cameFrom
    {
      if !Updated(s', current, q) {
        if q != current {
          assert Untouched(s, s', q);
        }
        assert Frontier(s, q);
      }
    }
  }

  /** After an expansion every parent is closed, ranked below its closed child, and linked to it by
      an edge. */
  lemma ParentsAfterExpand(nodes: NodeMap, grid: Grid, sqrt: real -> real, start: Pos, goal: Pos,
                           s: SearchState, s': SearchState, rank: map<Pos, nat>, rank': map<Pos, nat>, current: Pos)
    requires Searchable(nodes, grid) && Inv(nodes, start, goal, s, rank)
    requires Expanded(nodes, grid, sqrt, goal, s, s', current)
    requires rank' == rank[current := |s.closed|]
    ensures forall c {:trigger Parented(nodes, s', rank', c)} :: c in s'.cameFrom ==> Parented(nodes, s', rank', c)
  {
    forall c | c in s'.cameFrom
      ensures Parented(nodes, s', rank', c)
    {
      if c == current {
        assert Parented(nodes, s, rank, c);
      } else if !Updated(s', current, c) {
        assert Untouched(s, s', c);
        assert Parented(nodes, s, rank, c);
      }
    }
  }

  /** An expansion loses no node from the open and closed sets together. */
  lemma FrontierGrows(nodes: NodeMap, grid: Grid, sqrt: real -> real, goal: Pos, s: SearchState, s': SearchState, current: Pos, q: Pos)
    requires Searchable(nodes, grid) && forall r :: r in s.open ==> r in s.gCost
    requires Expanded(nodes, grid, sqrt, goal, s, s', current)
    requires Frontier(s, q)
    ensures Frontier(s', q)
  {
    if q != current && !Updated(s', current, q) {
      assert Untouched(s, s', q);
    }
  }

  /** The edge-closure facts after an expansion: edges out of nodes closed before lead to where they
      led, which is still open or closed, and edges out of `current` were all relaxed. */
  lemma ClosureCarries(nodes: NodeMap, grid: Grid, sqrt: real -> real, start: Pos, goal: Pos,
                       s: SearchState, s': SearchState, rank: map<Pos, nat>, current: Pos)
    requires Searchable(nodes, grid) && Inv(nodes, start, goal, s, rank)
    requires Expanded(nodes, grid, sqrt, goal, s, s', current)
    requires forall i :: 0 <= i < |Succ(nodes, current)| ==> Frontier(s', Succ(nodes, current)[i].Target)
    ensures WeakClosure(nodes, goal, s')
    ensures StrongClosure(nodes, s) ==> StrongClosure(nodes, s')
  {
    forall c, i | c in s'.closed && 0 <= i < |Succ(nodes, c)|
      ensures Frontier(s', Succ(nodes, c)[i].Target) || Succ(nodes, c)[i].Target == goal
      ensures StrongClosure(nodes, s) ==> Frontier(s', Succ(nodes, c)[i].Target)
    {
      var t := Succ(nodes, c)[i].Target;
      if c != current && Frontier(s, t) {
        FrontierGrows(nodes, grid, sqrt, goal, s, s', current, t);
      }
    }
  }

  /** Every parent is a closed node ranked below its closed children. */
  lemma ParentsRanked(nodes: NodeMap, start: Pos, s: SearchState, rank: map<Pos, nat>)
    requires InvTree(nodes, start, s, rank)
    ensures forall c :: c in s.cameFrom ==> s.cameFrom[c] in s.closed
    ensures forall c :: c in s.cameFrom ==> s.cameFrom[c] in rank && (c in rank ==> rank[s.cameFrom[c]] < rank[c])
  {
    forall c | c in s.cameFrom
      ensures s.cameFrom[c] in s.closed && s.cameFrom[c] in rank && (c in rank ==> rank[s.cameFrom[c]] < rank[c])
    {
      assert Parented(nodes, s, rank, c);
    }
  }

  /** Taking the goal out of the open set keeps the search invariant. */
  lemma FoundKeepsInv(nodes: NodeMap, start: Pos, goal: Pos, s: SearchState, rank: map<Pos, nat>)
    requires Inv(nodes, start, goal, s, rank) && goal in s.open
    ensures Inv(nodes, start, goal, s.(open := s.open - {goal}), rank)
  {
    var s' := s.(open := s.open - {goal});
    forall c | c in s'.cameFrom
      ensures Parented(nodes, s', rank, c)
    {
      assert Parented(nodes, s, rank, c);
    }
    forall q | Frontier(s', q) && q != start
      ensures q in s'.cameFrom
    {
      assert Frontier(s, q);
    }
  }

  /** ExecutePathfindingStep: take a node of least priority from the open set; if it is the goal,
      rebuild the path from the came-from map, otherwise close it and relax its edges. */
  method Step(nodes: NodeMap, grid: Grid, start: Pos, goal: Pos, sqrt: real -> real, s: SearchState, ghost rank: map<Pos, nat>)
    returns (s': SearchState, path: Option<seq<Pos>>, ghost rank': map<Pos, nat>, ghost current: Pos)
    requires Searchable(nodes, grid) && Inv(nodes, start, goal, s, rank) && s.open != map[]
    ensures Inv(nodes, start, goal, s', rank')
    ensures path.Some? ==> current == goal && Found(nodes, start, goal, s, s', path.value)
    ensures path.None? ==> Expanded(nodes, grid, sqrt, goal, s, s', current)
    ensures path.None? ==> s.closed < s'.closed
    ensures path.None? && StrongClosure(nodes, s) ==> StrongClosure(nodes, s')
  {
    var c, rest := Dequeue(s.open);
    current := c;
    ParentsRanked(nodes, start, s, rank);
    if c == goal {
      var route := ConstructPath(s.cameFrom, goal, rank);
      CameFromRoute(nodes, start, goal, s, rank, route);
      FoundKeepsInv(nodes, start, goal, s, rank);
      s', path, rank' := s.(open := rest), Some(route), rank;
    } else {
      s' := Expand(nodes, grid, sqrt, goal, s, c, rest);
      ExpandKeepsInv(nodes, grid, sqrt, start, goal, s, s', rank, c);
      path, rank' := None, rank[c := |s.closed|];
    }
  }

  /** Once the open set is empty and every edge out of a closed node stays among closed nodes, every
      route from a closed node ends at a closed node. */
  lemma {:induction false} ClosedIsReachClosed(nodes: NodeMap, s: SearchState, route: seq<Pos>, a: Pos, b: Pos)
    requires StrongClosure(nodes, s) && s.open == map[] && a in s.closed
    requires IsRoute(nodes, route, a, b)
    ensures b in s.closed
    decreases |route|
  {
    if |route| > 1 {
      var k := |route| - 2;
      var prefix := route[..k + 1];
      assert IsRoute(nodes, prefix, a, route[k]);
      ClosedIsReachClosed(nodes, s, prefix, a, route[k]);
      var j :| 0 <= j < |Succ(nodes, route[k])| && Succ(nodes, route[k])[j].Target == b;
      assert Frontier(s, b);
    }
  }

  /** A search that ran out of open nodes without reaching the goal proves the goal unreachable
      from the start. */
  lemma NoRouteWhenExhausted(nodes: NodeMap, start: Pos, goal: Pos, s: SearchState, rank: map<Pos, nat>)
    requires Inv(nodes, start, goal, s, rank) && StrongClosure(nodes, s)
    requires s.open == map[] && s.closed != {}
    ensures forall route :: !IsRoute(nodes, route, start, goal)
  {
    forall route | IsRoute(nodes, route, start, goal)
      ensures false
    {
      ClosedIsReachClosed(nodes, s, route, start, goal);
    }
  }
}
