/**
 * The search's per-cell record and the set-up of the node array: one node
 * per cell, stored in the slot given by the cell's flat index.
 */
module PathNodes {
  import opened PathGrid

  /**
   * One search node. `targetIndex` is the parent link: the slot of the predecessor
   * on the best known path, -1 when there is none.
   */
  datatype PathNode = PathNode(
    x: int,
    y: int,
    index: int,
    gCost: int,
    hCost: int,
    fCost: int,
    isWalkable: bool,
    targetIndex: int)
  {
    /** The node with its total cost recomputed from its two parts. */
    function CalculateFCost(): PathNode
    {
      this.(fCost := gCost + hCost)
    }

    function Position(): Int2 { Int2(x, y) }
  }

  /** The all-zero record a freshly allocated node array holds. */
  const DefaultNode := PathNode(0, 0, 0, 0, 0, 0, false, 0)

  /** The number of cells of a grid, and so of slots in its node array. */
  function CellCount(gridSize: Int2): int { gridSize.x * gridSize.y }

  /** The grids the search runs on: positive extents and one walkability flag per cell. */
  predicate ValidGrid(gridSize: Int2, walkable: seq<bool>)
  {
    gridSize.x > 0 && gridSize.y > 0 && |walkable| == CellCount(gridSize)
  }

  /**
   * The cost from the start the set-up loop gives every node: 0 as the
   * job is written, `Unreached` as the search needs it.
   */
  const AsWrittenGCost := 0

  /** The largest 32-bit integer, the usual "not reached yet" cost. */
  const Unreached := 0x7fff_ffff

  /** The cell whose flat index in a grid `width` cells wide is `index`. */
  function CellOf(index: int, width: int): Int2
    requires width > 0
  {
    Int2(index % width, index / width)
  }

  /**
   * The node the set-up loop builds for cell (x, y): no parent link, a
   * heuristic that is zero exactly at the target, and its total cost up
   * to date.
   */
  function NewNode(x: int, y: int, width: int, targetPosition: Int2, walkable: bool, initialGCost: int): (r: PathNode)
    ensures r.Position() == Int2(x, y) && r.index == CalculateNodeIndex(x, y, width)
    ensures r.gCost == initialGCost && r.isWalkable == walkable && r.targetIndex == -1
    ensures r.hCost >= 0 && (r.hCost == 0 <==> r.Position() == targetPosition)
    ensures r.fCost == r.gCost + r.hCost
  {
    PathNode(x, y, CalculateNodeIndex(x, y, width), initialGCost,
             CalculateDistanceCost(Int2(x, y), targetPosition), 0, walkable, -1).CalculateFCost()
  }

  /** The node array right after set-up: slot i holds the node built for cell (i % w, i / w). */
  ghost function InitialNodes(gridSize: Int2, walkable: seq<bool>, targetPosition: Int2, initialGCost: int): (r: seq<PathNode>)
    requires ValidGrid(gridSize, walkable)
    ensures |r| == CellCount(gridSize)
  {
    var w, n := gridSize.x, CellCount(gridSize);
    seq(n, i requires 0 <= i < n => NewNode(i % w, i / w, w, targetPosition, walkable[i], initialGCost))
  }

  /**
   * Slot i after set-up holds the node of an in-grid cell whose index is i:
   * the initial cost from the start, the distance to the target as
   * heuristic, their sum as total cost, the cell's walkability and no
   * parent link.
   */
  lemma InitialNodeAt(gridSize: Int2, walkable: seq<bool>, targetPosition: Int2, initialGCost: int, i: int)
    requires ValidGrid(gridSize, walkable) && 0 <= i < CellCount(gridSize)
    ensures var node := InitialNodes(gridSize, walkable, targetPosition, initialGCost)[i];
      && node.index == i
      && 0 <= node.x < gridSize.x && 0 <= node.y < gridSize.y
      && CalculateNodeIndex(node.x, node.y, gridSize.x) == i
      && node.gCost == initialGCost
      && node.hCost == CalculateDistanceCost(node.Position(), targetPosition)
      && node.fCost == node.gCost + node.hCost
      && node.isWalkable == walkable[i]
      && node.targetIndex == -1
  {
    SlotCoordinates(i, gridSize.x, gridSize.y);
  }

  /** Slot j holds the node of cell j, and that node knows its own index. */
  ghost predicate Placed(nodes: seq<PathNode>, gridSize: Int2)
    requires gridSize.x > 0
  {
    forall j :: 0 <= j < |nodes| ==> nodes[j].index == j && nodes[j].Position() == CellOf(j, gridSize.x)
  }

  /** Every node has the given cost from the start and no parent link. */
  ghost predicate Seeded(nodes: seq<PathNode>, initialGCost: int)
  {
    forall j :: 0 <= j < |nodes| ==> nodes[j].gCost == initialGCost && nodes[j].targetIndex == -1
  }

  /** Every node's total cost is its cost from the start plus its heuristic. */
  ghost predicate FCostsCurrent(nodes: seq<PathNode>)
  {
    forall j :: 0 <= j < |nodes| ==> nodes[j].fCost == nodes[j].gCost + nodes[j].hCost
  }

  /**
   * After set-up every node sits in its own slot, seeded, with its total
   * cost up to date and the walkability of its cell.
   */
  lemma InitialNodesSeeded(gridSize: Int2, walkable: seq<bool>, targetPosition: Int2, initialGCost: int)
    requires ValidGrid(gridSize, walkable)
    ensures var nodes := InitialNodes(gridSize, walkable, targetPosition, initialGCost);
      && Placed(nodes, gridSize) && Seeded(nodes, initialGCost) && FCostsCurrent(nodes)
      && forall j :: 0 <= j < |nodes| ==> nodes[j].isWalkable == walkable[j]
  {
    var nodes := InitialNodes(gridSize, walkable, targetPosition, initialGCost);
    forall j | 0 <= j < CellCount(gridSize)
      ensures nodes[j].index == j && nodes[j].Position() == CellOf(j, gridSize.x)
      ensures nodes[j].gCost == initialGCost && nodes[j].targetIndex == -1
      ensures nodes[j].fCost == nodes[j].gCost + nodes[j].hCost
      ensures nodes[j].isWalkable == walkable[j]
    {
      InitialNodeAt(gridSize, walkable, targetPosition, initialGCost, j);
    }
  }

  /**
   * The set-up loops: rows in y order, cells in x order, each node written
   * to the slot its index names. Afterwards the array is exactly
   * `InitialNodes`.
   */
  method InitNodes(gridSize: Int2, walkable: seq<bool>, targetPosition: Int2, initialGCost: int)
    returns (pathNodeArray: array<PathNode>)
    requires ValidGrid(gridSize, walkable)
    ensures fresh(pathNodeArray)
    ensures pathNodeArray[..] == InitialNodes(gridSize, walkable, targetPosition, initialGCost)
  {
    var w, h := gridSize.x, gridSize.y;
    ghost var init := InitialNodes(gridSize, walkable, targetPosition, initialGCost);
    pathNodeArray := new PathNode[w * h](_ => DefaultNode);
    for y := 0 to h
      invariant pathNodeArray.Length == w * h
      invariant forall j :: 0 <= j < y * w ==> pathNodeArray[j] == init[j]
    {
      NodeIndexInRange(w - 1, y, w, h);
      for x := 0 to w
        invariant forall j :: 0 <= j < y * w + x ==> pathNodeArray[j] == init[j]
      {
        var index := CalculateNodeIndex(x, y, w);
        NodeIndexCoordinates(x, y, w);
        var pathNode := NewNode(x, y, w, targetPosition, walkable[index], initialGCost);
        pathNodeArray[pathNode.index] := pathNode;
      }
      assert y * w + w == (y + 1) * w;
    }
    assert h * w == w * h;
  }
}
