/**
 * A* search over a grid of `Node`s, followed by retracing the parent links from the target and
 * compressing the retraced cells into direction-change waypoints.
 */
module Pathfinding {
  import opened Nodes
  import opened OpenSet

  /** Opaque handle of the requester's completion callback; it is only carried through. */
  datatype Callback = Callback(id: nat)

  datatype PathRequest = PathRequest(pathStart: WorldPoint, pathEnd: WorldPoint, callback: Callback)

  datatype PathResult = PathResult(path: seq<WorldPoint>, success: bool, callback: Callback)

  /**
   * What the search sees of the grid: its cells, the cell containing a world point, and the
   * neighbours of a cell.
   */
  datatype Grid = Grid(nodes: set<Node>, nodeFromWorldPoint: WorldPoint -> Node, neighbours: Node -> seq<Node>)
  {
    /** Every lookup lands in the grid, and a cell's neighbours are other cells of the grid. */
    ghost predicate Valid()
    {
      && (forall p :: nodeFromWorldPoint(p) in nodes)
      && (forall n, m :: n in nodes && m in neighbours(n) ==>
            m in nodes && (m.gridX != n.gridX || m.gridY != n.gridY))
    }
  }

  /** The neighbours of a grid cell are grid cells at other coordinates. */
  lemma NeighboursInGrid(grid: Grid, n: Node)
    requires grid.Valid() && n in grid.nodes
    ensures forall m :: m in grid.neighbours(n) ==> m in grid.nodes && (m.gridX != n.gridX || m.gridY != n.gridY)
  {
  }

  // ---------------------------------------------------------------------------------------------
  // Distance: step cost and heuristic
  // ---------------------------------------------------------------------------------------------

  function Abs(x: int): (r: nat)
  {
    if x < 0 then -x else x
  }

  function Min(a: int, b: int): (r: int)
  {
    if a <= b then a else b
  }

  function Max(a: int, b: int): (r: int)
  {
    if a <= b then b else a
  }

  /** Octile distance between two cells: 14 per diagonal step and 10 per straight step. */
  function GetDistance(nodeA: Node, nodeB: Node): (d: int)
    ensures d >= 0
  {
    var dstX := Abs(nodeA.gridX - nodeB.gridX);
    var dstY := Abs(nodeA.gridY - nodeB.gridY);
    if dstX > dstY then 14 * dstY + 10 * (dstX - dstY) else 14 * dstX + 10 * (dstY - dstX)
  }

  /** The distance is the octile formula over the absolute coordinate deltas. */
  lemma GetDistanceIsOctile(a: Node, b: Node)
    ensures var dx, dy := Abs(a.gridX - b.gridX), Abs(a.gridY - b.gridY);
            GetDistance(a, b) == 14 * Min(dx, dy) + 10 * (Max(dx, dy) - Min(dx, dy))
  {
  }

  lemma GetDistanceSymmetric(a: Node, b: Node)
    ensures GetDistance(a, b) == GetDistance(b, a)
  {
  }

  /** The distance is zero exactly between cells with the same grid coordinates. */
  lemma GetDistanceZero(a: Node, b: Node)
    ensures GetDistance(a, b) == 0 <==> a.gridX == b.gridX && a.gridY == b.gridY
  {
  }

  /** One straight step costs 10, one diagonal step 14. */
  lemma GetDistanceAdjacent(a: Node, b: Node)
    ensures Abs(a.gridX - b.gridX) + Abs(a.gridY - b.gridY) == 1 ==> GetDistance(a, b) == 10
    ensures Abs(a.gridX - b.gridX) == 1 && Abs(a.gridY - b.gridY) == 1 ==> GetDistance(a, b) == 14
  {
  }

  /** The distance is 6 times the Chebyshev distance plus 4 times the Manhattan distance. */
  lemma GetDistanceAsNorms(a: Node, b: Node)
    ensures var dx, dy := Abs(a.gridX - b.gridX), Abs(a.gridY - b.gridY);
            GetDistance(a, b) == 6 * Max(dx, dy) + 4 * (dx + dy)
  {
  }

  /**
   * The triangle inequality: going through a third cell never costs less by this estimate, so the
   * heuristic is consistent for steps costed by the same function plus a non-negative penalty.
   */
  lemma GetDistanceTriangle(a: Node, b: Node, c: Node)
    ensures GetDistance(a, c) <= GetDistance(a, b) + GetDistance(b, c)
  {
    var x1, y1 := a.gridX - b.gridX, a.gridY - b.gridY;
    var x2, y2 := b.gridX - c.gridX, b.gridY - c.gridY;
    GetDistanceAsNorms(a, c);
    assert GetDistance(a, c) == 6 * Max(Abs(x1 + x2), Abs(y1 + y2)) + 4 * (Abs(x1 + x2) + Abs(y1 + y2));
    GetDistanceAsNorms(a, b);
    GetDistanceAsNorms(b, c);
    NormsTriangle(x1, y1, x2, y2);
  }

  /** Both the Manhattan and the Chebyshev norm satisfy the triangle inequality. */
  lemma NormsTriangle(x1: int, y1: int, x2: int, y2: int)
    ensures Abs(x1 + x2) + Abs(y1 + y2) <= Abs(x1) + Abs(y1) + Abs(x2) + Abs(y2)
    ensures Max(Abs(x1 + x2), Abs(y1 + y2)) <= Max(Abs(x1), Abs(y1)) + Max(Abs(x2), Abs(y2))
  {
  }

  // ---------------------------------------------------------------------------------------------
  // Paths through the grid
  // ---------------------------------------------------------------------------------------------

  /** A walk over walkable cells of the grid, each a neighbour of the one before. */
  ghost predicate IsWalk(grid: Grid, older w: seq<Node>)
  {
    && |w| >= 1
    && (forall i :: 0 <= i < |w| ==> w[i] in grid.nodes && w[i].walkable)
    && (forall i :: 0 <= i < |w| - 1 ==> WalkStep(grid, w, i))
  }

  /** `w[i + 1]` is a neighbour of `w[i]`. */
  ghost predicate WalkStep(grid: Grid, w: seq<Node>, i: nat)
    requires i < |w| - 1
  {
    w[i + 1] in grid.neighbours(w[i])
  }

  ghost predicate Reachable(grid: Grid, from: Node, to: Node)
  {
    exists w :: IsWalk(grid, w) && w[0] == from && w[|w| - 1] == to
  }

  /** The parent links lead from `endNode`, through `chain`, to `startNode`, which appears only last. */
  ghost predicate ParentChain(chain: seq<Node>, endNode: Node, startNode: Node)
    reads chain
  {
    && |chain| >= 1
    && chain[0] == endNode
    && chain[|chain| - 1] == startNode
    && (forall i :: 0 <= i < |chain| - 1 ==> ParentLink(chain, startNode, i))
  }

  /** `chain[i]` is not the start, and its parent is `chain[i + 1]`. */
  ghost predicate ParentLink(chain: seq<Node>, startNode: Node, i: nat)
    requires i < |chain| - 1
    reads chain[i]
  {
    chain[i] != startNode && chain[i].parent == chain[i + 1]
  }

  /**
   * `n` was reached by the search from its parent, which lies in `from`: it is a neighbour of the
   * parent, and its costs are those the search gives it for that step.
   */
  ghost predicate Relaxed(grid: Grid, target: Node, n: Node, from: set<Node>)
    reads n, n.parent
  {
    && n.parent != null
    && n.parent in from
    && n in grid.neighbours(n.parent)
    && n.walkable
    && n.hCost == GetDistance(n, target)
    && n.gCost == n.parent.gCost + GetDistance(n.parent, n) + n.movementPenalty
  }

  /** Every cell of `chain` but the last was reached from the next one. */
  ghost predicate CostLinks(grid: Grid, target: Node, chain: seq<Node>)
    reads chain
  {
    forall i :: 0 <= i < |chain| - 1 ==> CostLink(grid, target, chain, i)
  }

  /** `chain[i]` was reached from its parent `chain[i + 1]`. */
  ghost predicate CostLink(grid: Grid, target: Node, chain: seq<Node>, i: nat)
    requires i < |chain| - 1
    reads chain[i], chain[i + 1]
  {
    chain[i].parent == chain[i + 1] && Relaxed(grid, target, chain[i], {chain[i + 1]})
  }

  /** The cost of stepping from the last cell of `chain` back to its first, with each entered cell's penalty. */
  ghost function ChainCost(chain: seq<Node>): (c: int)
  {
    if |chain| <= 1 then 0
    else GetDistance(chain[1], chain[0]) + chain[0].movementPenalty + ChainCost(chain[1..])
  }

  /** The gCost recorded at the head of a chain is the chain's cost plus the gCost of its last cell. */
  lemma {:induction false} HeadCostIsChainCost(grid: Grid, target: Node, chain: seq<Node>)
    requires |chain| >= 1 && CostLinks(grid, target, chain)
    ensures chain[0].gCost == chain[|chain| - 1].gCost + ChainCost(chain)
  {
    if |chain| > 1 {
      assert CostLink(grid, target, chain, 0);
      forall i | 0 <= i < |chain| - 2
        ensures CostLink(grid, target, chain[1..], i)
      {
        assert CostLink(grid, target, chain, i + 1);
      }
      HeadCostIsChainCost(grid, target, chain[1..]);
    }
  }

  // ---------------------------------------------------------------------------------------------
  // Sequence reversal
  // ---------------------------------------------------------------------------------------------

  /** The elements of `s` in the opposite order. */
  function Reversed<T>(s: seq<T>): (r: seq<T>)
    ensures |r| == |s|
  {
    if s == [] then [] else [s[|s| - 1]] + Reversed(s[..|s| - 1])
  }

  lemma {:induction false} ReversedAt<T>(s: seq<T>, k: nat)
    requires k < |s|
    ensures Reversed(s)[k] == s[|s| - 1 - k]
  {
    if k > 0 {
      ReversedAt(s[..|s| - 1], k - 1);
    }
  }

  /** Reversing twice gives back the original sequence. */
  lemma ReversedTwice<T>(s: seq<T>)
    ensures Reversed(Reversed(s)) == s
  {
    var r := Reversed(s);
    forall k | 0 <= k < |s|
      ensures Reversed(r)[k] == s[k]
    {
      ReversedAt(r, k);
      ReversedAt(s, |s| - 1 - k);
    }
  }

  /** Reverses the array in place, as `Array.Reverse` does. */
  method ReverseInPlace(a: array<WorldPoint>)
    modifies a
    ensures a[..] == Reversed(old(a[..]))
  {
    var lo, hi := 0, a.Length - 1;
    while lo < hi
      invariant 0 <= lo <= hi + 1 <= a.Length && lo + hi == a.Length - 1
      invariant forall k :: 0 <= k < lo ==> a[k] == old(a[a.Length - 1 - k]) && a[a.Length - 1 - k] == old(a[k])
      invariant forall k :: lo <= k <= hi ==> a[k] == old(a[k])
    {
      a[lo], a[hi] := a[hi], a[lo];
      lo, hi := lo + 1, hi - 1;
    }
    forall k | 0 <= k < a.Length
      ensures a[k] == Reversed(old(a[..]))[k]
    {
      ReversedAt(old(a[..]), k);
    }
  }

  // ---------------------------------------------------------------------------------------------
  // Path simplification
  // ---------------------------------------------------------------------------------------------

  /** The grid step from `path[i]` to `path[i - 1]`. */
  function Direction(path: seq<Node>, i: nat): (r: (int, int))
    requires 1 <= i < |path|
    ensures r == (0, 0) <==> path[i - 1].gridX == path[i].gridX && path[i - 1].gridY == path[i].gridY
  {
    (path[i - 1].gridX - path[i].gridX, path[i - 1].gridY - path[i].gridY)
  }

  /** A step is zero exactly when its two cells are at distance zero. */
  lemma DirectionZero(path: seq<Node>, i: nat)
    requires 1 <= i < |path|
    ensures Direction(path, i) == (0, 0) <==> GetDistance(path[i], path[i - 1]) == 0
  {
    GetDistanceZero(path[i], path[i - 1]);
  }

  /** The step `path[i]` is compared with: the one before it, or (0, 0) for the first step. */
  function PreviousDirection(path: seq<Node>, i: nat): (r: (int, int))
    requires 1 <= i < |path|
  {
    if i == 1 then (0, 0) else Direction(path, i - 1)
  }

  predicate Turns(path: seq<Node>, i: nat)
    requires 1 <= i < |path|
  {
    Direction(path, i) != PreviousDirection(path, i)
  }

  /** The waypoints chosen among `path[1..n]`: the position of every cell at which the step direction changes. */
  function Simplified(path: seq<Node>, n: nat): (w: seq<WorldPoint>)
    requires n <= |path|
    ensures |w| <= Max(0, n - 1)
  {
    if n <= 1 then []
    else Simplified(path, n - 1) + (if Turns(path, n - 1) then [path[n - 1].worldPosition] else [])
  }

  /**
   * The waypoints are, in increasing index order, the positions of exactly those cells `path[i]`,
   * `1 <= i < n`, at which the direction changes; `path[0]` is never among them.
   */
  lemma {:induction false} SimplifiedSelectsTurns(path: seq<Node>, n: nat) returns (idx: seq<nat>)
    requires n <= |path|
    ensures |idx| == |Simplified(path, n)|
    ensures forall k :: 0 <= k < |idx| ==>
              1 <= idx[k] < n && Turns(path, idx[k]) && Simplified(path, n)[k] == path[idx[k]].worldPosition
    ensures forall k, l :: 0 <= k < l < |idx| ==> idx[k] < idx[l]
    ensures forall i :: 1 <= i < n && Turns(path, i) ==> i in idx
  {
    if n <= 1 {
      idx := [];
    } else {
      var prefix := SimplifiedSelectsTurns(path, n - 1);
      var w, w' := Simplified(path, n - 1), Simplified(path, n);
      if Turns(path, n - 1) {
        idx := prefix + [n - 1];
        assert w' == w + [path[n - 1].worldPosition];
      } else {
        idx := prefix;
        assert w' == w;
      }
    }
  }

  /** When the first two cells differ, the first waypoint is the position of `path[1]`. */
  lemma {:induction false} SimplifiedStartsAtSecond(path: seq<Node>, n: nat)
    requires 2 <= n <= |path|
    requires path[0].gridX != path[1].gridX || path[0].gridY != path[1].gridY
    ensures |Simplified(path, n)| >= 1 && Simplified(path, n)[0] == path[1].worldPosition
  {
    if n > 2 {
      SimplifiedStartsAtSecond(path, n - 1);
    }
  }

  /** Emits a cell's position whenever the grid step direction changes, as `SimplifyPath` does. */
  method SimplifyPath(path: seq<Node>) returns (waypoints: array<WorldPoint>)
    ensures fresh(waypoints) && waypoints[..] == Simplified(path, |path|)
  {
    var points: seq<WorldPoint> := [];
    var directionOld := (0, 0);
    var i := 1;
    while i < |path|
      invariant 1 <= i <= |path| || (i == 1 && path == [])
      invariant points == Simplified(path, if path == [] then 0 else i)
      invariant i < |path| ==> directionOld == PreviousDirection(path, i)
    {
      var directionNew := (path[i - 1].gridX - path[i].gridX, path[i - 1].gridY - path[i].gridY);
      assert directionNew == Direction(path, i);
      if directionNew != directionOld {
        points := points + [path[i].worldPosition];
      }
      directionOld := directionNew;
      i := i + 1;
    }
    waypoints := new WorldPoint[|points|](k requires 0 <= k < |points| => points[k]);
  }

  // ---------------------------------------------------------------------------------------------
  // Retracing
  // ---------------------------------------------------------------------------------------------

  /**
   * Collects the cells from `endNode` along the parent links, stopping before `startNode`, then
   * simplifies them and reverses the waypoints so that they run from the start towards the end.
   */
  method RetracePath(startNode: Node, endNode: Node, ghost chain: seq<Node>) returns (waypoints: array<WorldPoint>)
    requires ParentChain(chain, endNode, startNode)
    ensures fresh(waypoints)
    ensures waypoints[..] == Reversed(Simplified(chain[..|chain| - 1], |chain| - 1))
  {
    var path: seq<Node> := [];
    var currentNode := endNode;
    ghost var i := 0;
    while currentNode != startNode
      invariant 0 <= i < |chain| && currentNode == chain[i] && path == chain[..i]
      invariant i < |chain| - 1 ==> ParentLink(chain, startNode, i)
      decreases |chain| - i
    {
      path := path + [currentNode];
      currentNode := currentNode.parent;
      i := i + 1;
    }
    waypoints := SimplifyPath(path);
    ReverseInPlace(waypoints);
  }

  // ---------------------------------------------------------------------------------------------
  // The search
  // ---------------------------------------------------------------------------------------------

  /**
   * One neighbour of the expanded node: skipped when unwalkable or closed; otherwise its costs and
   * parent are overwritten when the route through `currentNode` is strictly cheaper or the
   * neighbour is not yet open, and it is then added to the open set (or, already open, left for
   * the next removal to re-rank). Every open node but the start stays reached from a closed node.
   */
  method Relax(ghost grid: Grid, ghost startNode: Node, currentNode: Node, neighbor: Node, targetNode: Node,
               openSet: set<Node>, closedSet: set<Node>)
    returns (openSet': set<Node>)
    requires currentNode in closedSet && neighbor in grid.nodes && neighbor in grid.neighbours(currentNode)
    requires OpenFrontier(grid, startNode, targetNode, openSet, closedSet)
    modifies neighbor
    ensures OpenFrontier(grid, startNode, targetNode, openSet', closedSet)
    ensures !neighbor.walkable || neighbor in closedSet ==> openSet' == openSet && unchanged(neighbor)
    ensures neighbor.walkable && neighbor !in closedSet ==>
              var cost := old(currentNode.gCost) + GetDistance(currentNode, neighbor) + neighbor.movementPenalty;
              if cost < old(neighbor.gCost) || neighbor !in openSet then
                && neighbor.gCost == cost
                && neighbor.hCost == GetDistance(neighbor, targetNode)
                && neighbor.parent == currentNode
                && neighbor.heapIndex == old(neighbor.heapIndex)
                && openSet' == openSet + {neighbor}
              else
                unchanged(neighbor) && openSet' == openSet
  {
    openSet' := openSet;
    if !neighbor.walkable || neighbor in closedSet {
      return;
    }
    var newMovementCostToNeighbor := currentNode.gCost + GetDistance(currentNode, neighbor) + neighbor.movementPenalty;
    if newMovementCostToNeighbor < neighbor.gCost || neighbor !in openSet {
      neighbor.gCost := newMovementCostToNeighbor;
      neighbor.hCost := GetDistance(neighbor, targetNode);
      neighbor.parent := currentNode;
      if neighbor !in openSet {
        openSet' := openSet + {neighbor};
      }
    }
    forall n | n in openSet' && n != startNode
      ensures n.parent in closedSet && Relaxed(grid, targetNode, n, closedSet)
    {
      if n != neighbor || (n in openSet && unchanged(n)) {
        assert n in openSet;
        assert old(Relaxed(grid, targetNode, n, closedSet));
      }
    }
  }

  /** Closed node `n` was reached from a closed node of lower rank, that is, one closed earlier. */
  ghost predicate TreeLink(grid: Grid, targetNode: Node, closedSet: set<Node>, rank: map<Node, nat>, n: Node)
    reads n, n.parent
  {
    && n.parent != null
    && n in rank && n.parent in rank
    && rank[n.parent] < rank[n]
    && Relaxed(grid, targetNode, n, closedSet)
  }

  /** The parent links of the closed set form a tree rooted at `startNode`, ranked by closing order. */
  ghost predicate ClosedTree(grid: Grid, startNode: Node, targetNode: Node, closedSet: set<Node>, rank: map<Node, nat>)
    reads closedSet
  {
    && closedSet <= grid.nodes
    && rank.Keys == closedSet
    && (forall n :: n in closedSet ==> n.walkable && rank[n] < |closedSet|)
    && (forall n {:trigger TreeLink(grid, targetNode, closedSet, rank, n)} :: n in closedSet && n != startNode ==>
          n.parent in closedSet && TreeLink(grid, targetNode, closedSet, rank, n))
  }

  /** Every open node but the start was reached from a closed node. */
  ghost predicate OpenFrontier(grid: Grid, startNode: Node, targetNode: Node, openSet: set<Node>, closedSet: set<Node>)
    reads openSet, closedSet
  {
    && openSet <= grid.nodes
    && openSet !! closedSet
    && (forall n :: n in openSet ==> n.walkable)
    && (forall n {:trigger Relaxed(grid, targetNode, n, closedSet)} :: n in openSet && n != startNode ==>
          n.parent in closedSet && Relaxed(grid, targetNode, n, closedSet))
  }

  /**
   * Moving the node removed from the open set into the closed set, with the next rank, keeps the
   * closed set a tree and the open set its frontier.
   */
  lemma CloseNode(grid: Grid, startNode: Node, targetNode: Node, openSet: set<Node>, closedSet: set<Node>,
                  rank: map<Node, nat>, currentNode: Node)
    requires ClosedTree(grid, startNode, targetNode, closedSet, rank)
    requires OpenFrontier(grid, startNode, targetNode, openSet, closedSet)
    requires currentNode in openSet
    requires startNode in closedSet || currentNode == startNode
    ensures ClosedTree(grid, startNode, targetNode, closedSet + {currentNode}, rank[currentNode := |closedSet|])
    ensures OpenFrontier(grid, startNode, targetNode, openSet - {currentNode}, closedSet + {currentNode})
  {
    var closed', rank' := closedSet + {currentNode}, rank[currentNode := |closedSet|];
    forall n | n in closed' && n != startNode
      ensures n.parent in closed' && TreeLink(grid, targetNode, closed', rank', n)
    {
      if n == currentNode {
        assert Relaxed(grid, targetNode, n, closedSet);
      } else {
        assert TreeLink(grid, targetNode, closedSet, rank, n);
      }
    }
    forall n | n in openSet - {currentNode} && n != startNode
      ensures n.parent in closed' && Relaxed(grid, targetNode, n, closed')
    {
      assert Relaxed(grid, targetNode, n, closedSet);
    }
  }

  /** Following the parent links from a closed node leads to `startNode`. */
  lemma {:induction false} BuildChain(grid: Grid, startNode: Node, targetNode: Node, closedSet: set<Node>,
                                      rank: map<Node, nat>, n: Node) returns (chain: seq<Node>)
    requires ClosedTree(grid, startNode, targetNode, closedSet, rank)
    requires n in closedSet && startNode in closedSet
    ensures ParentChain(chain, n, startNode) && CostLinks(grid, targetNode, chain)
    ensures forall i :: 0 <= i < |chain| ==> chain[i] in closedSet
    decreases rank[n]
  {
    if n == startNode {
      chain := [n];
    } else {
      assert TreeLink(grid, targetNode, closedSet, rank, n);
      var rest := BuildChain(grid, startNode, targetNode, closedSet, rank, n.parent);
      chain := [n] + rest;
      forall i | 0 <= i < |chain| - 1
        ensures ParentLink(chain, startNode, i) && CostLink(grid, targetNode, chain, i)
      {
        if i > 0 {
          assert ParentLink(rest, startNode, i - 1) && CostLink(grid, targetNode, rest, i - 1);
          assert chain[i] == rest[i - 1] && chain[i + 1] == rest[i];
        }
      }
    }
  }

  /** A parent chain of walkable grid cells, read from its last cell to its first, is a walk. */
  lemma ChainIsWalk(grid: Grid, targetNode: Node, chain: seq<Node>) returns (w: seq<Node>)
    requires |chain| >= 1 && CostLinks(grid, targetNode, chain)
    requires forall i :: 0 <= i < |chain| ==> chain[i] in grid.nodes && chain[i].walkable
    ensures w == Reversed(chain) && IsWalk(grid, w)
    ensures w[0] == chain[|chain| - 1] && w[|w| - 1] == chain[0]
  {
    w := Reversed(chain);
    var L := |chain|;
    forall k | 0 <= k < L
      ensures w[k] == chain[L - 1 - k]
    {
      ReversedAt(chain, k);
    }
    forall k | 0 <= k < L - 1
      ensures WalkStep(grid, w, k)
    {
      var i := L - 2 - k;
      assert CostLink(grid, targetNode, chain, i);
      assert w[k + 1] == chain[i] && w[k] == chain[i + 1];
    }
    forall k | 0 <= k < L
      ensures w[k] in grid.nodes && w[k].walkable
    {
      assert w[k] == chain[L - 1 - k];
    }
    assert IsWalk(grid, w);
  }

  /**
   * If every walkable neighbour of a node of `closedSet` is itself in `closedSet`, a walk that
   * starts in `closedSet` never leaves it.
   */
  lemma {:induction false} WalkStaysClosed(grid: Grid, closedSet: set<Node>, w: seq<Node>)
    requires IsWalk(grid, w) && w[0] in closedSet
    requires forall c, m :: c in closedSet && m in grid.neighbours(c) && m.walkable ==> m in closedSet
    ensures w[|w| - 1] in closedSet
    decreases |w|
  {
    if |w| > 1 {
      var w' := w[..|w| - 1];
      forall i | 0 <= i < |w'| - 1
        ensures WalkStep(grid, w', i)
      {
        assert WalkStep(grid, w, i);
      }
      WalkStaysClosed(grid, closedSet, w');
      assert WalkStep(grid, w, |w| - 2);
    }
  }

  /** A walk extended by a walkable neighbour of its last cell is a walk. */
  lemma ExtendWalk(grid: Grid, w: seq<Node>, n: Node) returns (w': seq<Node>)
    requires IsWalk(grid, w) && n in grid.nodes && n.walkable && n in grid.neighbours(w[|w| - 1])
    ensures w' == w + [n] && IsWalk(grid, w')
  {
    w' := w + [n];
    forall i | 0 <= i < |w'| - 1
      ensures WalkStep(grid, w', i)
    {
      if i < |w| - 1 {
        assert WalkStep(grid, w, i);
      }
    }
  }

  /** Every open or closed cell is reachable from the start, along the parent links of the search tree. */
  lemma TreeNodeReachable(grid: Grid, startNode: Node, targetNode: Node, openSet: set<Node>,
                          closedSet: set<Node>, rank: map<Node, nat>, n: Node)
    requires ClosedTree(grid, startNode, targetNode, closedSet, rank)
    requires OpenFrontier(grid, startNode, targetNode, openSet, closedSet)
    requires startNode in closedSet && (n in openSet || n in closedSet)
    ensures Reachable(grid, startNode, n)
  {
    var p := n;
    if n !in closedSet {
      assert Relaxed(grid, targetNode, n, closedSet);
      p := n.parent;
    }
    var chain := BuildChain(grid, startNode, targetNode, closedSet, rank, p);
    var w := ChainIsWalk(grid, targetNode, chain);
    if n !in closedSet {
      w := ExtendWalk(grid, w, n);
    }
    assert IsWalk(grid, w) && w[0] == startNode && w[|w| - 1] == n;
  }

  /**
   * The neighbour loop of one expansion: relaxes every neighbour of the node just closed. Exactly
   * the walkable, unclosed neighbours join the open set, each taking the route through the closed
   * node when it was not open or that route is strictly cheaper; every other cell keeps its record;
   * and afterwards every walkable neighbour of a closed node is open or closed.
   */
  method ExpandNode(grid: Grid, startNode: Node, targetNode: Node, currentNode: Node,
                    openSet: set<Node>, closedSet: set<Node>, ghost rank: map<Node, nat>)
    returns (openSet': set<Node>)
    requires currentNode in closedSet && startNode in closedSet && targetNode !in closedSet
    requires forall m :: m in grid.neighbours(currentNode) ==> m in grid.nodes
    requires ClosedTree(grid, startNode, targetNode, closedSet, rank)
    requires OpenFrontier(grid, startNode, targetNode, openSet, closedSet)
    requires forall c, m :: c in closedSet && c != currentNode && m in grid.neighbours(c) && m.walkable ==>
               m in openSet || m in closedSet
    modifies grid.nodes
    ensures ClosedTree(grid, startNode, targetNode, closedSet, rank)
    ensures OpenFrontier(grid, startNode, targetNode, openSet', closedSet)
    ensures forall c, m :: c in closedSet && m in grid.neighbours(c) && m.walkable ==> m in openSet' || m in closedSet
    ensures openSet' == openSet + (set m | m in grid.neighbours(currentNode) && m.walkable && m !in closedSet)
    ensures forall n :: n in grid.nodes && (n !in grid.neighbours(currentNode) || !n.walkable || n in closedSet) ==>
              n.gCost == old(n.gCost) && n.hCost == old(n.hCost) && n.parent == old(n.parent)
    ensures forall m :: m in grid.neighbours(currentNode) && m.walkable && m !in closedSet ==>
              var cost := old(currentNode.gCost) + GetDistance(currentNode, m) + m.movementPenalty;
              if m !in openSet || cost < old(m.gCost) then
                m.gCost == cost && m.hCost == GetDistance(m, targetNode) && m.parent == currentNode
              else
                m.gCost == old(m.gCost) && m.hCost == old(m.hCost) && m.parent == old(m.parent)
  {
    var neighbours := grid.neighbours(currentNode);
    openSet' := openSet;
    ghost var seen: set<Node> := {};
    var j := 0;
    while j < |neighbours|
      invariant j <= |neighbours|
      invariant forall m :: m in seen ==> m in neighbours
      invariant forall k :: 0 <= k < j ==> neighbours[k] in seen
      invariant openSet' == openSet + (set m | m in seen && m.walkable && m !in closedSet)
      invariant forall n :: n in grid.nodes && (n !in seen || !n.walkable || n in closedSet) ==>
                  n.gCost == old(n.gCost) && n.hCost == old(n.hCost) && n.parent == old(n.parent)
      invariant forall m :: m in seen && m.walkable && m !in closedSet ==>
                  var cost := old(currentNode.gCost) + GetDistance(currentNode, m) + m.movementPenalty;
                  if m !in openSet || cost < old(m.gCost) then
                    m.gCost == cost && m.hCost == GetDistance(m, targetNode) && m.parent == currentNode
                  else
                    m.gCost == old(m.gCost) && m.hCost == old(m.hCost) && m.parent == old(m.parent)
      invariant OpenFrontier(grid, startNode, targetNode, openSet', closedSet)
    {
      var neighbor := neighbours[j];
      assert neighbor in grid.neighbours(currentNode);
      openSet' := Relax(grid, startNode, currentNode, neighbor, targetNode, openSet', closedSet);
      seen := seen + {neighbor};
      j := j + 1;
    }
    assert forall m :: m in neighbours <==> m in seen;
    forall n | n in closedSet && n != startNode
      ensures n.parent in closedSet && TreeLink(grid, targetNode, closedSet, rank, n)
    {
      assert old(TreeLink(grid, targetNode, closedSet, rank, n));
    }
  }

  /**
   * The A* loop: expands the open node of highest priority, closes it,
   * stops when it is the target, and otherwise relaxes each of its neighbours. The target is found
   * exactly when both end cells are walkable and a walk connects them; the parent links then lead
   * back from the target to the start along such a walk.
   */
  method Search(grid: Grid, startNode: Node, targetNode: Node) returns (found: bool, ghost chain: seq<Node>)
    requires grid.Valid() && startNode in grid.nodes && targetNode in grid.nodes
    requires startNode.walkable && targetNode.walkable
    modifies grid.nodes
    ensures found <==> Reachable(grid, startNode, targetNode)
    ensures found ==> ParentChain(chain, targetNode, startNode) && CostLinks(grid, targetNode, chain)
    ensures found ==> forall i :: 0 <= i < |chain| ==> chain[i] in grid.nodes && chain[i].walkable
    ensures found ==> targetNode.gCost == startNode.gCost + ChainCost(chain)
    ensures startNode.gCost == old(startNode.gCost) && startNode.hCost == old(startNode.hCost)
            && startNode.parent == old(startNode.parent)
    ensures forall n :: n in grid.nodes && (n.gCost != old(n.gCost) || n.hCost != old(n.hCost) || n.parent != old(n.parent)) ==>
              n.walkable && Reachable(grid, startNode, n)
  {
    found := false;
    chain := [];
    var openSet: set<Node> := {startNode};
    var closedSet: set<Node> := {};
    ghost var rank: map<Node, nat> := map[];
    while openSet != {} && !found
      invariant ClosedTree(grid, startNode, targetNode, closedSet, rank)
      invariant OpenFrontier(grid, startNode, targetNode, openSet, closedSet)
      invariant startNode in closedSet || (closedSet == {} && openSet == {startNode})
      invariant found <==> targetNode in closedSet
      invariant !found ==> forall c, m :: c in closedSet && m in grid.neighbours(c) && m.walkable ==>
                             m in openSet || m in closedSet
      invariant startNode.gCost == old(startNode.gCost) && startNode.hCost == old(startNode.hCost)
                && startNode.parent == old(startNode.parent)
      invariant forall n :: n in grid.nodes && n !in openSet && n !in closedSet ==>
                  n.gCost == old(n.gCost) && n.hCost == old(n.hCost) && n.parent == old(n.parent)
      decreases grid.nodes - closedSet
    {
      var currentNode;
      ghost var openBefore := openSet;
      currentNode, openSet := RemoveFirst(openSet);
      CloseNode(grid, startNode, targetNode, openBefore, closedSet, rank, currentNode);
      rank := rank[currentNode := |closedSet|];
      closedSet := closedSet + {currentNode};
      if currentNode == targetNode {
        found := true;
      } else {
        NeighboursInGrid(grid, currentNode);
        openSet := ExpandNode(grid, startNode, targetNode, currentNode, openSet, closedSet, rank);
      }
    }
    forall n | n in grid.nodes && (n.gCost != old(n.gCost) || n.hCost != old(n.hCost) || n.parent != old(n.parent))
      ensures n.walkable && Reachable(grid, startNode, n)
    {
      TreeNodeReachable(grid, startNode, targetNode, openSet, closedSet, rank, n);
    }
    if found {
      chain := BuildChain(grid, startNode, targetNode, closedSet, rank, targetNode);
      ghost var w := ChainIsWalk(grid, targetNode, chain);
      HeadCostIsChainCost(grid, targetNode, chain);
    } else {
      forall w | IsWalk(grid, w) && w[0] == startNode
        ensures w[|w| - 1] != targetNode
      {
        WalkStaysClosed(grid, closedSet, w);
      }
    }
  }

  /**
   * Answers a path request: looks up the start and target cells, searches when both are walkable,
   * and on success retraces and simplifies the path. A route of fewer than three cells has no
   * waypoint and is reported as a failure.
   */
  method FindPath(request: PathRequest, grid: Grid) returns (result: PathResult, ghost chain: seq<Node>)
    requires grid.Valid()
    modifies grid.nodes
    ensures result.callback == request.callback
    ensures !result.success ==> result.path == []
    ensures result.success <==> result.path != []
    ensures var startNode, targetNode := grid.nodeFromWorldPoint(request.pathStart), grid.nodeFromWorldPoint(request.pathEnd);
            if startNode.walkable && targetNode.walkable && Reachable(grid, startNode, targetNode) then
              && ParentChain(chain, targetNode, startNode) && CostLinks(grid, targetNode, chain)
              && (forall i :: 0 <= i < |chain| ==> chain[i] in grid.nodes && chain[i].walkable)
              && targetNode.gCost == startNode.gCost + ChainCost(chain)
              && result.path == Reversed(Simplified(chain[..|chain| - 1], |chain| - 1))
              && (result.success <==> |chain| >= 3)
            else
              !result.success
    ensures var startNode, targetNode := grid.nodeFromWorldPoint(request.pathStart), grid.nodeFromWorldPoint(request.pathEnd);
            && (!(startNode.walkable && targetNode.walkable) ==> unchanged(grid.nodes))
            && (startNode == targetNode ==> !result.success)
            && startNode.gCost == old(startNode.gCost) && startNode.hCost == old(startNode.hCost)
            && startNode.parent == old(startNode.parent)
            && (forall n :: n in grid.nodes && (n.gCost != old(n.gCost) || n.hCost != old(n.hCost) || n.parent != old(n.parent)) ==>
                  n.walkable && Reachable(grid, startNode, n))
            && ((startNode.walkable && targetNode.walkable && Reachable(grid, startNode, targetNode)
                 && startNode != targetNode && targetNode !in grid.neighbours(startNode)) ==> result.success)
  {
    var waypoints: seq<WorldPoint> := [];
    var pathSuccess := false;
    var startNode := grid.nodeFromWorldPoint(request.pathStart);
    var targetNode := grid.nodeFromWorldPoint(request.pathEnd);
    chain := [];
    if startNode.walkable && targetNode.walkable {
      pathSuccess, chain := Search(grid, startNode, targetNode);
    }
    if pathSuccess {
      ShortRoutes(grid, startNode, targetNode, chain);
      var retraced := RetracePath(startNode, targetNode, chain);
      waypoints := retraced[..];
      pathSuccess := retraced.Length > 0;
      WaypointsExistPastOneStep(grid, targetNode, chain);
    }
    result := PathResult(waypoints, pathSuccess, request.callback);
  }

  /**
   * Every waypoint of a retraced route is the position of one of its interior cells: neither the
   * start nor the target is ever a waypoint.
   */
  lemma RetracedWaypointsAreInterior(chain: seq<Node>)
    requires |chain| >= 1
    ensures var waypoints := Reversed(Simplified(chain[..|chain| - 1], |chain| - 1));
            forall k :: 0 <= k < |waypoints| ==>
              exists i :: 1 <= i < |chain| - 1 && waypoints[k] == chain[i].worldPosition
  {
    var path := chain[..|chain| - 1];
    var simplified := Simplified(path, |chain| - 1);
    var idx := SimplifiedSelectsTurns(path, |chain| - 1);
    forall k | 0 <= k < |simplified|
      ensures exists i :: 1 <= i < |chain| - 1 && Reversed(simplified)[k] == chain[i].worldPosition
    {
      ReversedAt(simplified, k);
      var i := idx[|simplified| - 1 - k];
      assert Reversed(simplified)[k] == chain[i].worldPosition;
    }
  }

  /**
   * A route of one cell is a search whose start is its target, and a route of two cells is a
   * single step from the start to a neighbour.
   */
  lemma ShortRoutes(grid: Grid, startNode: Node, targetNode: Node, chain: seq<Node>)
    requires ParentChain(chain, targetNode, startNode) && CostLinks(grid, targetNode, chain)
    ensures |chain| == 1 <==> startNode == targetNode
    ensures |chain| == 2 ==> targetNode.parent == startNode && targetNode in grid.neighbours(startNode)
  {
    if |chain| >= 2 {
      assert ParentLink(chain, startNode, 0) && CostLink(grid, targetNode, chain, 0);
    }
  }

  /** A retraced route has waypoints exactly when it has at least three cells. */
  lemma WaypointsExistPastOneStep(grid: Grid, targetNode: Node, chain: seq<Node>)
    requires grid.Valid() && |chain| >= 1 && CostLinks(grid, targetNode, chain)
    requires forall i :: 0 <= i < |chain| ==> chain[i] in grid.nodes
    ensures |Simplified(chain[..|chain| - 1], |chain| - 1)| >= 1 <==> |chain| >= 3
  {
    var path := chain[..|chain| - 1];
    if |chain| >= 3 {
      assert CostLink(grid, targetNode, chain, 0);
      NeighboursInGrid(grid, chain[1]);
      SimplifiedStartsAtSecond(path, |chain| - 1);
    }
  }
}
