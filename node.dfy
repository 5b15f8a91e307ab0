/** One cell of the search grid and the priority order the open set uses. */
module Nodes {

  /** A world-space position. The core never computes with it; it is only carried from cells to waypoints. */
  datatype WorldPoint = WorldPoint(x: real, y: real, z: real)

  /** Three-way comparison of two integers, as `int.CompareTo` returns it: -1, 0 or 1. */
  function IntCompare(a: int, b: int): (r: int)
    ensures r == -1 <==> a < b
    ensures r == 0 <==> a == b
    ensures r == 1 <==> a > b
  {
    if a < b then -1 else if a == b then 0 else 1
  }

  /**
   * A grid cell together with its per-search record. The cell's identity fields are only written
   * by the constructor; `gCost`, `hCost`, `parent` and `heapIndex` are rewritten by the search.
   */
  class Node {
    const walkable: bool
    const worldPosition: WorldPoint
    const gridX: int
    const gridY: int
    const movementPenalty: int

    var gCost: int
    var hCost: int
    var parent: Node?
    var heapIndex: int

    /** Sets the cell's identity fields; the search fields keep their default values (0 and null). */
    constructor (walkable: bool, worldPos: WorldPoint, gridX: int, gridY: int, penalty: int)
      ensures this.walkable == walkable && worldPosition == worldPos
      ensures this.gridX == gridX && this.gridY == gridY && movementPenalty == penalty
      ensures gCost == 0 && hCost == 0 && parent == null && heapIndex == 0
    {
      this.walkable := walkable;
      worldPosition := worldPos;
      this.gridX := gridX;
      this.gridY := gridY;
      movementPenalty := penalty;
      gCost := 0;
      hCost := 0;
      parent := null;
      heapIndex := 0;
    }

    /** Total estimated cost: derived from the two stored costs, never stored itself. */
    function FCost(): (r: int)
      reads this
    {
      gCost + hCost
    }

    /** The slot the heap last recorded for this node. */
    function HeapIndex(): (r: int)
      reads this
    {
      heapIndex
    }

    /** The heap's setter: records a slot and touches nothing else. */
    method SetHeapIndex(value: int)
      modifies this
      ensures HeapIndex() == value
      ensures gCost == old(gCost) && hCost == old(hCost) && parent == old(parent)
    {
      heapIndex := value;
    }

    /**
     * Priority order of the open set, with the sign negated: positive when this node ranks higher,
     * that is, has the lower fCost, or the same fCost and the lower hCost.
     */
    function CompareTo(nodeToCompare: Node): (r: int)
      reads this, nodeToCompare
      ensures r == 1 <==> (FCost() < nodeToCompare.FCost()
                           || (FCost() == nodeToCompare.FCost() && hCost < nodeToCompare.hCost))
      ensures r == -1 <==> (FCost() > nodeToCompare.FCost()
                            || (FCost() == nodeToCompare.FCost() && hCost > nodeToCompare.hCost))
      ensures r == 0 <==> FCost() == nodeToCompare.FCost() && hCost == nodeToCompare.hCost
    {
      var compare := IntCompare(FCost(), nodeToCompare.FCost());
      var compare' := if compare == 0 then IntCompare(hCost, nodeToCompare.hCost) else compare;
      -compare'
    }
  }

  /** Swapping the operands negates the comparison. */
  lemma CompareToAntisymmetric(a: Node, b: Node)
    ensures a.CompareTo(b) == -b.CompareTo(a)
  {
  }

  /** "Ranks at least as high" is transitive. */
  lemma CompareToTransitive(a: Node, b: Node, c: Node)
    requires a.CompareTo(b) >= 0 && b.CompareTo(c) >= 0
    ensures a.CompareTo(c) >= 0
  {
  }

  /** Any two nodes are comparable, and every node ties with itself. */
  lemma CompareToTotal(a: Node, b: Node)
    ensures a.CompareTo(b) >= 0 || b.CompareTo(a) >= 0
    ensures a.CompareTo(a) == 0
  {
  }
}
