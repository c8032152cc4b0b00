/**
 * The A*-style search of the path-finding job: an open list scanned for the
 * lowest total cost, a closed flag per cell, relaxation of the neighbours
 * named by an offset table, and path reconstruction from the target.
 */
module PathSearch {
  import opened PathGrid
  import opened PathNodes
  import opened PathTrace

  predicate Distinct(s: seq<int>)
  {
    forall j, k :: 0 <= j < k < |s| ==> s[j] != s[k]
  }

  /** Every entry of `s` names a slot of an array of length n. */
  predicate InSlots(s: seq<int>, n: int)
  {
    forall k :: 0 <= k < |s| ==> 0 <= s[k] < n
  }

  /** The number of cells not yet closed. */
  function Unclosed(closed: seq<bool>): nat
  {
    if closed == [] then 0 else (if closed[0] then 0 else 1) + Unclosed(closed[1..])
  }

  /** Closing an open cell leaves one cell fewer to close. */
  lemma {:induction false} CloseLowersUnclosed(closed: seq<bool>, i: int)
    requires 0 <= i < |closed| && !closed[i]
    ensures Unclosed(closed[i := true]) == Unclosed(closed) - 1
  {
    if i > 0 {
      CloseLowersUnclosed(closed[1..], i - 1);
      assert closed[i := true][1..] == closed[1..][i - 1 := true];
    } else {
      assert closed[i := true][1..] == closed[1..];
    }
  }

  /**
   * The list after `RemoveAtSwapBack(i)`: the last element moves into slot
   * i and the list shrinks by one, so exactly the element at i is gone.
   */
  function RemoveAtSwapBack(list: seq<int>, i: int): (r: seq<int>)
    requires 0 <= i < |list|
    ensures |r| == |list| - 1
    ensures forall j :: 0 <= j < |r| && j != i ==> r[j] == list[j]
    ensures i < |r| ==> r[i] == list[|list| - 1]
  {
    list[i := list[|list| - 1]][..|list| - 1]
  }

  /** Swap-back removal deletes exactly one occurrence of the removed element. */
  lemma RemoveAtSwapBackMultiset(list: seq<int>, i: int)
    requires 0 <= i < |list|
    ensures multiset(RemoveAtSwapBack(list, i)) == multiset(list) - multiset{list[i]}
  {
    var last := |list| - 1;
    var moved := list[i := list[last]];
    assert multiset(moved) == multiset(list) - multiset{list[i]} + multiset{list[last]};
    assert moved == moved[..last] + [list[last]];
    assert multiset(moved) == multiset(moved[..last]) + multiset{list[last]};
    assert multiset(moved[..last]) == multiset(moved) - multiset{list[last]};
    assert RemoveAtSwapBack(list, i) == moved[..last];
  }

  /** Removing one entry of a list without duplicates keeps it so, and drops exactly that entry. */
  lemma RemoveAtSwapBackDistinct(list: seq<int>, i: int)
    requires 0 <= i < |list| && Distinct(list)
    ensures Distinct(RemoveAtSwapBack(list, i))
    ensures forall v :: v in RemoveAtSwapBack(list, i) <==> v in list && v != list[i]
  {
    var r := RemoveAtSwapBack(list, i);
    var last := |list| - 1;
    forall v | v in list && v != list[i] ensures v in r {
      var m :| 0 <= m < |list| && list[m] == v;
      if m < last {
        assert r[m] == v;
      } else {
        assert r[i] == v;
      }
    }
    forall v | v in r ensures v in list && v != list[i] {
      var m :| 0 <= m < |r| && r[m] == v;
      if m != i {
        assert list[m] == v;
      } else {
        assert list[last] == v;
      }
    }
  }

  /**
   * Position k of `openList` holds a lowest total cost, and no earlier
   * position does (ties keep the earliest).
   */
  ghost predicate FirstLowestF(nodes: seq<PathNode>, openList: seq<int>, k: int)
  {
    && InSlots(openList, |nodes|)
    && 0 <= k < |openList|
    && (forall j :: 0 <= j < |openList| ==> nodes[openList[k]].fCost <= nodes[openList[j]].fCost)
    && (forall j :: 0 <= j < k ==> nodes[openList[k]].fCost < nodes[openList[j]].fCost)
  }

  /**
   * The linear scan of the open list for the node with the lowest total
   * cost; returns that node's own index field.
   */
  method GetLowestCostFNodeIndex(openList: seq<int>, pathNodeArray: array<PathNode>) returns (r: int)
    requires |openList| > 0 && InSlots(openList, pathNodeArray.Length)
    ensures exists k :: FirstLowestF(pathNodeArray[..], openList, k) && r == pathNodeArray[openList[k]].index
  {
    var result := pathNodeArray[openList[0]];
    ghost var best := 0;
    for i := 1 to |openList|
      invariant 0 <= best < i
      invariant result == pathNodeArray[openList[best]]
      invariant forall j :: 0 <= j < i ==> result.fCost <= pathNodeArray[openList[j]].fCost
      invariant forall j :: 0 <= j < best ==> result.fCost < pathNodeArray[openList[j]].fCost
    {
      var test := pathNodeArray[openList[i]];
      if result.fCost > test.fCost {
        result := test;
        best := i;
      }
    }
    r := result.index;
    assert FirstLowestF(pathNodeArray[..], openList, best);
  }

  /**
   * The removal loop: find the first occurrence of `currentNodeIndex` and
   * remove it by swap-back; a list without it is returned unchanged.
   */
  method RemoveFromOpen(openList: seq<int>, currentNodeIndex: int) returns (result: seq<int>)
    ensures currentNodeIndex !in openList ==> result == openList
    ensures currentNodeIndex in openList ==>
      exists k :: 0 <= k < |openList| && openList[k] == currentNodeIndex && currentNodeIndex !in openList[..k]
        && result == RemoveAtSwapBack(openList, k)
  {
    result := openList;
    for i := 0 to |openList|
      invariant result == openList
      invariant currentNodeIndex !in openList[..i]
    {
      if result[i] == currentNodeIndex {
        result := RemoveAtSwapBack(result, i);
        return;
      }
      assert openList[..i + 1] == openList[..i] + [openList[i]];
    }
    assert openList[..|openList|] == openList;
  }

  /** The cell `offset` away from `from`. */
  function Step(from: Int2, offset: Int2): Int2
  {
    Int2(from.x + offset.x, from.y + offset.y)
  }

  /** `to` is an in-grid cell one offset of the table away from `from`. */
  ghost predicate OneStep(from: Int2, to: Int2, offsets: seq<Int2>, gridSize: Int2)
  {
    && IsPositionInsideGrid(to, gridSize)
    && exists i :: 0 <= i < |offsets| && to == Step(from, offsets[i])
  }

  /**
   * Slot j is an in-grid cell one offset away from `currentNode`, and g is
   * the cost of reaching it through `currentNode`.
   */
  ghost predicate RelaxedVia(currentNode: PathNode, offsets: seq<Int2>, gridSize: Int2, j: int, g: int)
  {
    exists i :: 0 <= i < |offsets|
      && IsPositionInsideGrid(Step(currentNode.Position(), offsets[i]), gridSize)
      && j == CalculateNodeIndex(Step(currentNode.Position(), offsets[i]).x,
                                 Step(currentNode.Position(), offsets[i]).y, gridSize.x)
      && g == currentNode.gCost + CalculateDistanceCost(currentNode.Position(), Step(currentNode.Position(), offsets[i]))
  }

  /**
   * What relaxing slot j (at `neighbourNodePosition`) through the current
   * node does, from `before` to `after`: when the cost through the current
   * node beats j's, j takes the current node as predecessor, the lower cost
   * and a recomputed total, and joins the open list unless already there.
   * Otherwise nothing changes.
   */
  ghost predicate RelaxOutcome(before: seq<PathNode>, after: seq<PathNode>, openBefore: seq<int>, openAfter: seq<int>,
                               currentNode: PathNode, currentNodeIndex: int, j: int, neighbourNodePosition: Int2)
    requires 0 <= j < |before|
  {
    var tentativeGCost := currentNode.gCost + CalculateDistanceCost(currentNode.Position(), neighbourNodePosition);
    if tentativeGCost < before[j].gCost then
      && after == before[j := before[j].(targetIndex := currentNodeIndex, gCost := tentativeGCost,
                                          fCost := tentativeGCost + before[j].hCost)]
      && openAfter == (if j in openBefore then openBefore else openBefore + [j])
    else
      after == before && openAfter == openBefore
  }

  /**
   * The relaxation of one neighbour: when the cost through the current
   * node beats the neighbour's, the neighbour takes the current node as
   * predecessor, the lower cost and a recomputed total, and joins the open
   * list unless already there. Otherwise nothing changes.
   */
  method Relax(pathNodeArray: array<PathNode>, openList: seq<int>, currentNode: PathNode,
               currentNodeIndex: int, neighbourNodeIndex: int, neighbourNodePosition: Int2)
    returns (newOpen: seq<int>)
    requires 0 <= neighbourNodeIndex < pathNodeArray.Length
    modifies pathNodeArray
    ensures RelaxOutcome(old(pathNodeArray[..]), pathNodeArray[..], openList, newOpen,
                         currentNode, currentNodeIndex, neighbourNodeIndex, neighbourNodePosition)
  {
    var neighbourNode := pathNodeArray[neighbourNodeIndex];
    var currentNodePosition := currentNode.Position();
    var tentativeGCost := currentNode.gCost + CalculateDistanceCost(currentNodePosition, neighbourNodePosition);
    newOpen := openList;
    if tentativeGCost < neighbourNode.gCost {
      neighbourNode := neighbourNode.(targetIndex := currentNodeIndex);
      neighbourNode := neighbourNode.(gCost := tentativeGCost);
      neighbourNode := neighbourNode.CalculateFCost();
      pathNodeArray[neighbourNodeIndex] := neighbourNode;
      if neighbourNodeIndex !in openList {
        newOpen := openList + [neighbourNodeIndex];
      }
    }
  }

  /**
   * What one neighbour loop does, from node array `before` to `after` and
   * open list `openBefore` to `openAfter`, in both directions:
   * - a node it changes is an unclosed, walkable neighbour of the current
   *   node that is now reached more cheaply through it (at a cost not below
   *   the current node's) and points back to it; every other node is left
   *   as it was. The open list only grows, by entries it did not hold, each
   *   one a node that got cheaper, and every changed node is in it;
   * - every unclosed, walkable neighbour that the current node reaches more
   *   cheaply than before is changed that way and is in the open list.
   */
  ghost predicate ExpandOutcome(before: seq<PathNode>, after: seq<PathNode>, closed: seq<bool>,
                                openBefore: seq<int>, openAfter: seq<int>,
                                currentNode: PathNode, currentNodeIndex: int, offsets: seq<Int2>, gridSize: Int2)
  {
    && NodesRelaxed(before, after, closed, currentNode, currentNodeIndex, offsets, gridSize)
    && OpenGrown(before, after, openBefore, openAfter)
    && ImprovementsTaken(before, after, closed, openAfter, currentNode, currentNodeIndex, offsets, gridSize)
  }

  /** The node half of `ExpandOutcome`. */
  ghost predicate NodesRelaxed(before: seq<PathNode>, after: seq<PathNode>, closed: seq<bool>,
                               currentNode: PathNode, currentNodeIndex: int, offsets: seq<Int2>, gridSize: Int2)
  {
    && |after| == |before| == |closed|
    && forall j :: 0 <= j < |before| && after[j] != before[j] ==>
         && !closed[j]
         && before[j].isWalkable
         && RelaxedVia(currentNode, offsets, gridSize, j, after[j].gCost)
         && currentNode.gCost <= after[j].gCost < before[j].gCost
         && after[j] == before[j].(gCost := after[j].gCost, fCost := after[j].gCost + before[j].hCost,
                                   targetIndex := currentNodeIndex)
  }

  /** The open-list half of `ExpandOutcome`. */
  ghost predicate OpenGrown(before: seq<PathNode>, after: seq<PathNode>, openBefore: seq<int>, openAfter: seq<int>)
    requires |after| == |before|
  {
    && |openBefore| <= |openAfter| && openAfter[..|openBefore|] == openBefore
    && (forall k :: |openBefore| <= k < |openAfter| ==>
          && 0 <= openAfter[k] < |before|
          && openAfter[k] !in openAfter[..k]
          && after[openAfter[k]].gCost < before[openAfter[k]].gCost)
    && forall j :: 0 <= j < |before| && after[j] != before[j] ==> j in openAfter
  }

  /**
   * The other direction of `NodesRelaxed`: every unclosed, walkable slot j
   * that the current node reaches through one of `offsets` at a cost g
   * below j's own now costs g, has a recomputed total and a parent link to
   * the current node, and is in the open list.
   */
  ghost predicate ImprovementsTaken(before: seq<PathNode>, after: seq<PathNode>, closed: seq<bool>, openAfter: seq<int>,
                                    currentNode: PathNode, currentNodeIndex: int, offsets: seq<Int2>, gridSize: Int2)
  {
    && |after| == |before| == |closed|
    && forall j, g ::
         (0 <= j < |before| && RelaxedVia(currentNode, offsets, gridSize, j, g)
          && !closed[j] && before[j].isWalkable && g < before[j].gCost) ==>
           && after[j] == before[j].(gCost := g, fCost := g + before[j].hCost, targetIndex := currentNodeIndex)
           && j in openAfter
  }

  /** An in-grid cell reached from the current node has one cost through it, whichever offset reaches it. */
  lemma RelaxedViaSameCost(currentNode: PathNode, offsets1: seq<Int2>, offsets2: seq<Int2>, gridSize: Int2,
                           j: int, g1: int, g2: int)
    requires gridSize.x > 0
    requires RelaxedVia(currentNode, offsets1, gridSize, j, g1) && RelaxedVia(currentNode, offsets2, gridSize, j, g2)
    ensures g1 == g2
  {
    var pos := currentNode.Position();
    var i1 :| 0 <= i1 < |offsets1| && IsPositionInsideGrid(Step(pos, offsets1[i1]), gridSize)
      && j == CalculateNodeIndex(Step(pos, offsets1[i1]).x, Step(pos, offsets1[i1]).y, gridSize.x)
      && g1 == currentNode.gCost + CalculateDistanceCost(pos, Step(pos, offsets1[i1]));
    var i2 :| 0 <= i2 < |offsets2| && IsPositionInsideGrid(Step(pos, offsets2[i2]), gridSize)
      && j == CalculateNodeIndex(Step(pos, offsets2[i2]).x, Step(pos, offsets2[i2]).y, gridSize.x)
      && g2 == currentNode.gCost + CalculateDistanceCost(pos, Step(pos, offsets2[i2]));
    var p1, p2 := Step(pos, offsets1[i1]), Step(pos, offsets2[i2]);
    NodeIndexInjective(p1.x, p1.y, p2.x, p2.y, gridSize.x);
  }

  /**
   * What one turn of the neighbour loop does with `offset`: a neighbour
   * inside the grid, not closed and walkable is relaxed; otherwise nothing
   * changes.
   */
  ghost predicate OffsetStep(before: seq<PathNode>, after: seq<PathNode>, closed: seq<bool>,
                             openBefore: seq<int>, openAfter: seq<int>,
                             currentNode: PathNode, currentNodeIndex: int, offset: Int2, gridSize: Int2)
  {
    var p := Step(currentNode.Position(), offset);
    var j := CalculateNodeIndex(p.x, p.y, gridSize.x);
    if IsPositionInsideGrid(p, gridSize) && 0 <= j < |before| && j < |closed| && !closed[j] && before[j].isWalkable then
      RelaxOutcome(before, after, openBefore, openAfter, currentNode, currentNodeIndex, j, p)
    else
      after == before && openAfter == openBefore
  }

  /**
   * One more turn of the neighbour loop, over offset i, extends
   * `ImprovementsTaken` from the first i offsets to the first i + 1: a
   * slot already reached keeps its cost, since the same cell costs the same
   * through the current node, and the slot offset i names is relaxed
   * unless it already holds that cost.
   */
  lemma RelaxExtendsImprovements(start: seq<PathNode>, before: seq<PathNode>, after: seq<PathNode>, closed: seq<bool>,
                                 openStart: seq<int>, openBefore: seq<int>, openAfter: seq<int>,
                                 currentNode: PathNode, currentNodeIndex: int, offsets: seq<Int2>, gridSize: Int2, i: int)
    requires gridSize.x > 0 && 0 <= i < |offsets|
    requires NodesRelaxed(start, before, closed, currentNode, currentNodeIndex, offsets, gridSize)
    requires OpenGrown(start, before, openStart, openBefore)
    requires ImprovementsTaken(start, before, closed, openBefore, currentNode, currentNodeIndex, offsets[..i], gridSize)
    requires OffsetStep(before, after, closed, openBefore, openAfter, currentNode, currentNodeIndex, offsets[i], gridSize)
    ensures ImprovementsTaken(start, after, closed, openAfter, currentNode, currentNodeIndex, offsets[..i + 1], gridSize)
  {
    var pos := currentNode.Position();
    var p := Step(pos, offsets[i]);
    var gi := currentNode.gCost + CalculateDistanceCost(pos, p);
    var done, next := offsets[..i], offsets[..i + 1];
    assert forall v :: v in openBefore ==> v in openAfter;
    forall j, g | 0 <= j < |start| && RelaxedVia(currentNode, next, gridSize, j, g)
      && !closed[j] && start[j].isWalkable && g < start[j].gCost
      ensures after[j] == start[j].(gCost := g, fCost := g + start[j].hCost, targetIndex := currentNodeIndex)
      ensures j in openAfter
    {
      var k :| 0 <= k < i + 1 && IsPositionInsideGrid(Step(pos, next[k]), gridSize)
        && j == CalculateNodeIndex(Step(pos, next[k]).x, Step(pos, next[k]).y, gridSize.x)
        && g == currentNode.gCost + CalculateDistanceCost(pos, Step(pos, next[k]));
      if k < i {
        assert done[k] == next[k];
        assert RelaxedVia(currentNode, done, gridSize, j, g);
        if after[j] != before[j] {
          assert next[i] == offsets[i];
          assert RelaxedVia(currentNode, next, gridSize, j, gi);
          RelaxedViaSameCost(currentNode, next, next, gridSize, j, g, gi);
        }
      } else {
        assert next[k] == offsets[i];
        if before[j] != start[j] {
          RelaxedViaSameCost(currentNode, offsets, next, gridSize, j, before[j].gCost, g);
        }
      }
    }
  }

  /**
   * Relaxing an unclosed, walkable neighbour slot j of the current node
   * extends what the neighbour loop has done so far to the nodes.
   */
  lemma RelaxExtendsNodes(start: seq<PathNode>, before: seq<PathNode>, after: seq<PathNode>, closed: seq<bool>,
                          openBefore: seq<int>, openAfter: seq<int>,
                          currentNode: PathNode, currentNodeIndex: int, offsets: seq<Int2>, gridSize: Int2,
                          j: int, neighbourNodePosition: Int2)
    requires NodesRelaxed(start, before, closed, currentNode, currentNodeIndex, offsets, gridSize)
    requires 0 <= j < |before| && !closed[j] && before[j].isWalkable
    requires RelaxedVia(currentNode, offsets, gridSize, j,
                        currentNode.gCost + CalculateDistanceCost(currentNode.Position(), neighbourNodePosition))
    requires RelaxOutcome(before, after, openBefore, openAfter, currentNode, currentNodeIndex, j, neighbourNodePosition)
    ensures NodesRelaxed(start, after, closed, currentNode, currentNodeIndex, offsets, gridSize)
  {
    var tentativeGCost := currentNode.gCost + CalculateDistanceCost(currentNode.Position(), neighbourNodePosition);
    if tentativeGCost < before[j].gCost {
      assert before[j].isWalkable == start[j].isWalkable && before[j].hCost == start[j].hCost;
    }
  }

  /** Relaxing slot j extends what the neighbour loop has done so far to the open list. */
  lemma RelaxExtendsOpen(start: seq<PathNode>, before: seq<PathNode>, after: seq<PathNode>,
                         openStart: seq<int>, openBefore: seq<int>, openAfter: seq<int>,
                         currentNode: PathNode, currentNodeIndex: int, j: int, neighbourNodePosition: Int2)
    requires |before| == |start| && OpenGrown(start, before, openStart, openBefore)
    requires forall i :: 0 <= i < |start| ==> before[i].gCost <= start[i].gCost
    requires 0 <= j < |before|
    requires RelaxOutcome(before, after, openBefore, openAfter, currentNode, currentNodeIndex, j, neighbourNodePosition)
    ensures |after| == |start| && OpenGrown(start, after, openStart, openAfter)
  {
    var tentativeGCost := currentNode.gCost + CalculateDistanceCost(currentNode.Position(), neighbourNodePosition);
    if tentativeGCost < before[j].gCost {
      assert openAfter[..|openBefore|] == openBefore;
    }
  }

  /** The neighbour loop over the offset table. */
  method ExpandNeighbours(pathNodeArray: array<PathNode>, closedArray: array<bool>, openList: seq<int>,
                          currentNode: PathNode, currentNodeIndex: int, offsets: seq<Int2>, gridSize: Int2)
    returns (newOpen: seq<int>)
    requires gridSize.x > 0 && gridSize.y > 0
    requires pathNodeArray.Length == CellCount(gridSize) && closedArray.Length == CellCount(gridSize)
    modifies pathNodeArray
    ensures ExpandOutcome(old(pathNodeArray[..]), pathNodeArray[..], closedArray[..], openList, newOpen,
                          currentNode, currentNodeIndex, offsets, gridSize)
  {
    newOpen := openList;
    for i := 0 to |offsets|
      invariant NodesRelaxed(old(pathNodeArray[..]), pathNodeArray[..], closedArray[..],
                             currentNode, currentNodeIndex, offsets, gridSize)
      invariant OpenGrown(old(pathNodeArray[..]), pathNodeArray[..], openList, newOpen)
      invariant ImprovementsTaken(old(pathNodeArray[..]), pathNodeArray[..], closedArray[..], newOpen,
                                  currentNode, currentNodeIndex, offsets[..i], gridSize)
    {
      ghost var nodesBefore, openBefore := pathNodeArray[..], newOpen;
      var neighbourOffset := offsets[i];
      var neighbourNodePosition := Step(currentNode.Position(), neighbourOffset);
      if !IsPositionInsideGrid(neighbourNodePosition, gridSize) {
        // Neighbour not a valid position
        RelaxExtendsImprovements(old(pathNodeArray[..]), nodesBefore, nodesBefore, closedArray[..], openList, openBefore,
                                 openBefore, currentNode, currentNodeIndex, offsets, gridSize, i);
        continue;
      }
      var neighbourNodeIndex := CalculateNodeIndex(neighbourNodePosition.x, neighbourNodePosition.y, gridSize.x);
      NodeIndexInRange(neighbourNodePosition.x, neighbourNodePosition.y, gridSize.x, gridSize.y);
      if closedArray[neighbourNodeIndex] {
        // Already searched this node
        RelaxExtendsImprovements(old(pathNodeArray[..]), nodesBefore, nodesBefore, closedArray[..], openList, openBefore,
                                 openBefore, currentNode, currentNodeIndex, offsets, gridSize, i);
        continue;
      }
      var neighbourNode := pathNodeArray[neighbourNodeIndex];
      if !neighbourNode.isWalkable {
        // Not walkable
        RelaxExtendsImprovements(old(pathNodeArray[..]), nodesBefore, nodesBefore, closedArray[..], openList, openBefore,
                                 openBefore, currentNode, currentNodeIndex, offsets, gridSize, i);
        continue;
      }
      newOpen := Relax(pathNodeArray, newOpen, currentNode, currentNodeIndex, neighbourNodeIndex, neighbourNodePosition);
      assert RelaxedVia(currentNode, offsets, gridSize, neighbourNodeIndex,
                        currentNode.gCost + CalculateDistanceCost(currentNode.Position(), neighbourNodePosition));
      RelaxExtendsImprovements(old(pathNodeArray[..]), nodesBefore, pathNodeArray[..], closedArray[..], openList, openBefore,
                               newOpen, currentNode, currentNodeIndex, offsets, gridSize, i);
      RelaxExtendsNodes(old(pathNodeArray[..]), nodesBefore, pathNodeArray[..], closedArray[..], openBefore, newOpen,
                        currentNode, currentNodeIndex, offsets, gridSize, neighbourNodeIndex, neighbourNodePosition);
      RelaxExtendsOpen(old(pathNodeArray[..]), nodesBefore, pathNodeArray[..], openList, openBefore, newOpen,
                       currentNode, currentNodeIndex, neighbourNodeIndex, neighbourNodePosition);
    }
    assert offsets[..|offsets|] == offsets;
  }

  /**
   * One round of the search after the target test: the current node is
   * removed from the open list (as `removed` shows), closed, and its
   * neighbours expanded.
   */
  method CloseAndExpand(pathNodeArray: array<PathNode>, closedArray: array<bool>, openList: seq<int>,
                        currentNodeIndex: int, offsets: seq<Int2>, gridSize: Int2)
    returns (newOpen: seq<int>, ghost removed: seq<int>)
    requires gridSize.x > 0 && gridSize.y > 0
    requires pathNodeArray.Length == CellCount(gridSize) && closedArray.Length == CellCount(gridSize)
    requires 0 <= currentNodeIndex < CellCount(gridSize)
    modifies pathNodeArray, closedArray
    ensures currentNodeIndex !in openList ==> removed == openList
    ensures currentNodeIndex in openList ==>
      exists k :: 0 <= k < |openList| && openList[k] == currentNodeIndex && currentNodeIndex !in openList[..k]
        && removed == RemoveAtSwapBack(openList, k)
    ensures closedArray[..] == old(closedArray[..])[currentNodeIndex := true]
    ensures ExpandOutcome(old(pathNodeArray[..]), pathNodeArray[..], closedArray[..], removed, newOpen,
                          old(pathNodeArray[currentNodeIndex]), currentNodeIndex, offsets, gridSize)
  {
    var currentNode := pathNodeArray[currentNodeIndex];
    var remaining := RemoveFromOpen(openList, currentNodeIndex);
    removed := remaining;
    closedArray[currentNodeIndex] := true;
    newOpen := ExpandNeighbours(pathNodeArray, closedArray, remaining, currentNode, currentNodeIndex, offsets, gridSize);
  }

  /**
   * The end of the job: no path when the target node never got a
   * parent link, else the path traced back from it.
   */
  method Report(pathNodeArray: array<PathNode>, targetNodeIndex: int, ghost rank: seq<nat>)
    returns (found: bool, path: seq<Int2>)
    requires 0 <= targetNodeIndex < pathNodeArray.Length
    requires Ranked(pathNodeArray[..], rank)
    ensures found <==> pathNodeArray[targetNodeIndex].targetIndex != -1
    ensures path == TracePath(pathNodeArray[..], rank, pathNodeArray[targetNodeIndex])
  {
    var targetNode := pathNodeArray[targetNodeIndex];
    if targetNode.targetIndex == -1 {
      // Didn't find a path
      found, path := false, [];
    } else {
      // Found a path
      found := true;
      path := CalculatePath(pathNodeArray, targetNode, rank);
    }
  }

  /**
   * Every node has no parent link; the start node s costs 0 from the start
   * and every other node `initialGCost`.
   */
  ghost predicate StartSeeded(nodes: seq<PathNode>, s: int, initialGCost: int)
  {
    forall j :: 0 <= j < |nodes| ==>
      nodes[j].gCost == (if j == s then 0 else initialGCost) && nodes[j].targetIndex == -1
  }

  /**
   * The set-up of the job: the node array of the grid, seeded with
   * `initialGCost`, then the start node's cost from the start set to 0
   * and its total recomputed.
   */
  method SetUpNodes(gridSize: Int2, walkable: seq<bool>, startNodeIndex: int, targetPosition: Int2, initialGCost: int)
    returns (pathNodeArray: array<PathNode>)
    requires ValidGrid(gridSize, walkable) && 0 <= startNodeIndex < CellCount(gridSize)
    ensures fresh(pathNodeArray) && pathNodeArray.Length == CellCount(gridSize)
    ensures Placed(pathNodeArray[..], gridSize) && FCostsCurrent(pathNodeArray[..])
    ensures StartSeeded(pathNodeArray[..], startNodeIndex, initialGCost)
    ensures forall j :: 0 <= j < pathNodeArray.Length ==> pathNodeArray[j].isWalkable == walkable[j]
  {
    pathNodeArray := InitNodes(gridSize, walkable, targetPosition, initialGCost);
    InitialNodesSeeded(gridSize, walkable, targetPosition, initialGCost);
    var startNode := pathNodeArray[startNodeIndex];
    startNode := startNode.(gCost := 0);
    startNode := startNode.CalculateFCost();
    pathNodeArray[startNode.index] := startNode;
  }

  /**
   * The requests the job is scheduled with (a 20-by-20 grid, every cell
   * walkable, from (0, 0) to (19, 19)) meet its preconditions.
   */
  lemma ScheduledRequestValid()
    ensures var gridSize := Int2(20, 20);
      && ValidGrid(gridSize, seq(CellCount(gridSize), _ => true))
      && 0 <= CalculateNodeIndex(0, 0, gridSize.x) < CellCount(gridSize)
      && 0 <= CalculateNodeIndex(19, 19, gridSize.x) < CellCount(gridSize)
  {
  }

  /**
   * The path-finding job as written, on a grid of `gridSize` cells with
   * the given walkability and neighbour offsets.
   *
   * Every node starts with cost 0 from the start, and no step cost is
   * negative, so no relaxation ever succeeds: the open list never holds
   * more than the start node, no node is ever changed after set-up, and
   * the job always ends in the "didn't find a path" branch, even when
   * start and target are neighbours or the same cell.
   */
  method Execute(gridSize: Int2, walkable: seq<bool>, offsets: seq<Int2>, startPosition: Int2, targetPosition: Int2)
    returns (found: bool, path: seq<Int2>)
    requires ValidGrid(gridSize, walkable)
    requires 0 <= CalculateNodeIndex(startPosition.x, startPosition.y, gridSize.x) < CellCount(gridSize)
    requires 0 <= CalculateNodeIndex(targetPosition.x, targetPosition.y, gridSize.x) < CellCount(gridSize)
    ensures !found && path == []
  {
    var n := CellCount(gridSize);
    var startNodeIndex := CalculateNodeIndex(startPosition.x, startPosition.y, gridSize.x);
    var targetNodeIndex := CalculateNodeIndex(targetPosition.x, targetPosition.y, gridSize.x);
    var pathNodeArray := SetUpNodes(gridSize, walkable, startNodeIndex, targetPosition, AsWrittenGCost);

    var openList := [startNodeIndex];
    var closedArray := new bool[n](_ => false);

    while |openList| > 0
      invariant pathNodeArray.Length == n && closedArray.Length == n
      invariant Placed(pathNodeArray[..], gridSize) && StartSeeded(pathNodeArray[..], startNodeIndex, AsWrittenGCost)
      // What the zero seeding makes of the loop: only the start node is ever open.
      invariant openList == if closedArray[startNodeIndex] then [] else [startNodeIndex]
      decreases |openList|
    {
      var currentNodeIndex := GetLowestCostFNodeIndex(openList, pathNodeArray);
      assert currentNodeIndex == startNodeIndex;
      if currentNodeIndex == targetNodeIndex {
        // Reached destination
        break;
      }
      ghost var nodesBefore := pathNodeArray[..];
      ghost var removed;
      openList, removed := CloseAndExpand(pathNodeArray, closedArray, openList, currentNodeIndex, offsets, gridSize);
      assert removed == [];
      // The relaxation test never holds: every cost from the start is 0.
      forall j | 0 <= j < n ensures pathNodeArray[j] == nodesBefore[j] {
        assert nodesBefore[j].gCost == 0 && nodesBefore[currentNodeIndex].gCost == 0;
      }
      assert pathNodeArray[..] == nodesBefore;
      assert openList == [];
    }

    ghost var rank := seq(n, _ => 0);
    found, path := Report(pathNodeArray, targetNodeIndex, rank);
  }

  /**
   * Node j's parent link names a closed node that is cheaper to reach and
   * one offset away from j.
   */
  ghost predicate ParentLink(nodes: seq<PathNode>, closed: seq<bool>, offsets: seq<Int2>, gridSize: Int2, j: int)
    requires 0 <= j < |nodes|
  {
    var t := nodes[j].targetIndex;
    && 0 <= t < |nodes| && t < |closed| && closed[t]
    && nodes[t].gCost < nodes[j].gCost
    && OneStep(nodes[t].Position(), nodes[j].Position(), offsets, gridSize)
  }

  /** Every parent link is a `ParentLink`. */
  ghost predicate ParentLinksSound(nodes: seq<PathNode>, closed: seq<bool>, offsets: seq<Int2>, gridSize: Int2)
  {
    forall j :: 0 <= j < |nodes| && nodes[j].targetIndex != -1 ==> ParentLink(nodes, closed, offsets, gridSize, j)
  }

  /**
   * What the search keeps true of the nodes: each sits in its own slot with
   * its total cost up to date; the start node s costs 0 and has no
   * parent link; no cost is negative; every parent link is a `ParentLink`;
   * and the only closed node without a parent link is the start.
   */
  ghost predicate NodesInvariant(nodes: seq<PathNode>, closed: seq<bool>, s: int, offsets: seq<Int2>, gridSize: Int2)
  {
    && gridSize.x > 0
    && |closed| == |nodes|
    && Placed(nodes, gridSize)
    && FCostsCurrent(nodes)
    && 0 <= s < |nodes| && nodes[s].gCost == 0 && nodes[s].targetIndex == -1
    && (forall j :: 0 <= j < |nodes| ==> nodes[j].gCost >= 0)
    && ParentLinksSound(nodes, closed, offsets, gridSize)
    && (forall j :: 0 <= j < |nodes| && closed[j] && nodes[j].targetIndex == -1 ==> j == s)
  }

  /**
   * What the search keeps true of the open list: entries name distinct,
   * unclosed slots, each the start or a node with a parent link.
   */
  ghost predicate OpenInvariant(nodes: seq<PathNode>, closed: seq<bool>, openList: seq<int>, s: int)
    requires |closed| == |nodes|
  {
    && InSlots(openList, |nodes|) && Distinct(openList)
    && forall k :: 0 <= k < |openList| ==>
         !closed[openList[k]] && (openList[k] == s || nodes[openList[k]].targetIndex != -1)
  }

  ghost predicate SearchInvariant(nodes: seq<PathNode>, closed: seq<bool>, openList: seq<int>, s: int,
                                  offsets: seq<Int2>, gridSize: Int2)
  {
    NodesInvariant(nodes, closed, s, offsets, gridSize) && OpenInvariant(nodes, closed, openList, s)
  }

  /**
   * Closing open node c and expanding it keeps the node invariant: a node
   * the expansion changes gets a cheaper cost through c, which is closed
   * and a different cell, so the new parent link is a `ParentLink`; the
   * closed nodes the other parent links name are left alone.
   */
  lemma ExpandKeepsNodesInvariant(nodes: seq<PathNode>, closed: seq<bool>, s: int,
                                  offsets: seq<Int2>, gridSize: Int2, c: int, after: seq<PathNode>)
    requires gridSize.x > 0 && gridSize.y > 0 && |nodes| == CellCount(gridSize)
    requires NodesInvariant(nodes, closed, s, offsets, gridSize)
    requires 0 <= c < |nodes| && (c == s || nodes[c].targetIndex != -1)
    requires NodesRelaxed(nodes, after, closed[c := true], nodes[c], c, offsets, gridSize)
    ensures NodesInvariant(after, closed[c := true], s, offsets, gridSize)
  {
    var closed' := closed[c := true];
    var w := gridSize.x;
    forall j | 0 <= j < |nodes| && after[j] != nodes[j]
      ensures after[j].targetIndex == c && ParentLink(after, closed', offsets, gridSize, j)
    {
      var i :| 0 <= i < |offsets|
        && IsPositionInsideGrid(Step(nodes[c].Position(), offsets[i]), gridSize)
        && j == CalculateNodeIndex(Step(nodes[c].Position(), offsets[i]).x,
                                   Step(nodes[c].Position(), offsets[i]).y, w)
        && after[j].gCost == nodes[c].gCost + CalculateDistanceCost(nodes[c].Position(), Step(nodes[c].Position(), offsets[i]));
      var p := Step(nodes[c].Position(), offsets[i]);
      NodeIndexCoordinates(p.x, p.y, w);
      assert after[j].Position() == p;
      SlotCoordinates(c, w, gridSize.y);
      assert p != nodes[c].Position();
      assert after[c] == nodes[c];
    }
  }

  /**
   * Closing open node c, dropping it from the open list and expanding it
   * keeps the open-list invariant.
   */
  lemma ExpandKeepsOpenInvariant(nodes: seq<PathNode>, closed: seq<bool>, openList: seq<int>, s: int,
                                 offsets: seq<Int2>, gridSize: Int2, k: int, after: seq<PathNode>, openAfter: seq<int>)
    requires SearchInvariant(nodes, closed, openList, s, offsets, gridSize)
    requires 0 <= k < |openList|
    requires ExpandOutcome(nodes, after, closed[openList[k] := true], RemoveAtSwapBack(openList, k), openAfter,
                           nodes[openList[k]], openList[k], offsets, gridSize)
    ensures OpenInvariant(after, closed[openList[k] := true], openAfter, s)
  {
    var c := openList[k];
    var closed' := closed[c := true];
    var removed := RemoveAtSwapBack(openList, k);
    RemoveAtSwapBackDistinct(openList, k);
    forall m | 0 <= m < |openAfter|
      ensures 0 <= openAfter[m] < |after| && !closed'[openAfter[m]]
      ensures openAfter[m] == s || after[openAfter[m]].targetIndex != -1
      ensures forall l :: 0 <= l < m ==> openAfter[l] != openAfter[m]
    {
      if m < |removed| {
        assert openAfter[m] == removed[m] && removed[m] in openList;
        forall l | 0 <= l < m ensures openAfter[l] != openAfter[m] {
          assert openAfter[l] == removed[l];
        }
      } else {
        assert openAfter[m] !in openAfter[..m];
        forall l | 0 <= l < m ensures openAfter[l] != openAfter[m] {
          assert openAfter[l] in openAfter[..m];
        }
      }
    }
  }

  /**
   * The search starts out within its invariant: nodes seeded with a
   * non-negative cost, the start at 0, nothing closed and only the start open.
   */
  lemma InitialSearchInvariant(nodes: seq<PathNode>, closed: seq<bool>, s: int, offsets: seq<Int2>, gridSize: Int2)
    requires gridSize.x > 0 && 0 <= s < |nodes| && |closed| == |nodes|
    requires Placed(nodes, gridSize) && FCostsCurrent(nodes) && StartSeeded(nodes, s, Unreached)
    requires forall j :: 0 <= j < |closed| ==> !closed[j]
    ensures SearchInvariant(nodes, closed, [s], s, offsets, gridSize)
    ensures ProgressInvariant(nodes, closed, [s], s, offsets, gridSize)
  {
  }

  /**
   * One round of the search keeps the invariant and closes one more node:
   * open node `openList[r]` is dropped from the open list, closed and
   * expanded.
   */
  lemma SearchStepKeepsInvariant(nodes: seq<PathNode>, closed: seq<bool>, openList: seq<int>, s: int,
                                 offsets: seq<Int2>, gridSize: Int2, r: int, after: seq<PathNode>, openAfter: seq<int>)
    requires gridSize.x > 0 && gridSize.y > 0 && |nodes| == CellCount(gridSize)
    requires SearchInvariant(nodes, closed, openList, s, offsets, gridSize)
    requires 0 <= r < |openList|
    requires ExpandOutcome(nodes, after, closed[openList[r] := true], RemoveAtSwapBack(openList, r), openAfter,
                           nodes[openList[r]], openList[r], offsets, gridSize)
    ensures SearchInvariant(after, closed[openList[r] := true], openAfter, s, offsets, gridSize)
    ensures Unclosed(closed[openList[r] := true]) < Unclosed(closed)
  {
    ExpandKeepsNodesInvariant(nodes, closed, s, offsets, gridSize, openList[r], after);
    ExpandKeepsOpenInvariant(nodes, closed, openList, s, offsets, gridSize, r, after, openAfter);
    CloseLowersUnclosed(closed, openList[r]);
  }

  /** An in-grid cell's slot holds the node of that cell. */
  lemma PlacedAt(nodes: seq<PathNode>, gridSize: Int2, p: Int2)
    requires gridSize.x > 0 && Placed(nodes, gridSize) && IsPositionInsideGrid(p, gridSize)
    requires 0 <= CalculateNodeIndex(p.x, p.y, gridSize.x) < |nodes|
    ensures nodes[CalculateNodeIndex(p.x, p.y, gridSize.x)].Position() == p
  {
    NodeIndexCoordinates(p.x, p.y, gridSize.x);
  }

  /** Every node with a parent link costs at least its distance from the start node s. */
  ghost predicate CostsAtLeastDistance(nodes: seq<PathNode>, s: int)
    requires 0 <= s < |nodes|
  {
    forall j :: 0 <= j < |nodes| && nodes[j].targetIndex != -1 ==>
      nodes[j].gCost >= CalculateDistanceCost(nodes[s].Position(), nodes[j].Position())
  }

  /** Every node other than the start without a parent link still has the seed cost. */
  ghost predicate UnlinkedUnreached(nodes: seq<PathNode>, s: int)
  {
    forall j :: 0 <= j < |nodes| && j != s && nodes[j].targetIndex == -1 ==> nodes[j].gCost == Unreached
  }

  /** Until the start node s is closed, it is all the open list holds, and nothing is closed or linked. */
  ghost predicate FirstRoundPending(nodes: seq<PathNode>, closed: seq<bool>, openList: seq<int>, s: int)
    requires 0 <= s < |closed| == |nodes|
  {
    !closed[s] ==> openList == [s] && forall j :: 0 <= j < |nodes| ==> !closed[j] && nodes[j].targetIndex == -1
  }

  /**
   * Once the start node s is closed, the walkable cell that offset i leads
   * to from s (when inside the grid and another cell) has a parent link to
   * s and costs its distance from s.
   */
  ghost predicate StartNeighbourLinked(nodes: seq<PathNode>, closed: seq<bool>, s: int, offsets: seq<Int2>,
                                       gridSize: Int2, i: int)
    requires 0 <= s < |closed| == |nodes| && 0 <= i < |offsets|
  {
    var p := Step(nodes[s].Position(), offsets[i]);
    var j := CalculateNodeIndex(p.x, p.y, gridSize.x);
    (closed[s] && IsPositionInsideGrid(p, gridSize) && 0 <= j < |nodes| && j != s && nodes[j].isWalkable
     && CalculateDistanceCost(nodes[s].Position(), p) < Unreached) ==>
      nodes[j].targetIndex == s && nodes[j].gCost == CalculateDistanceCost(nodes[s].Position(), p)
  }

  /** What the corrected search keeps true about its progress from the start node s. */
  ghost predicate ProgressInvariant(nodes: seq<PathNode>, closed: seq<bool>, openList: seq<int>, s: int,
                                    offsets: seq<Int2>, gridSize: Int2)
  {
    && |closed| == |nodes| && 0 <= s < |nodes|
    && CostsAtLeastDistance(nodes, s)
    && UnlinkedUnreached(nodes, s)
    && FirstRoundPending(nodes, closed, openList, s)
    && forall i :: 0 <= i < |offsets| ==> StartNeighbourLinked(nodes, closed, s, offsets, gridSize, i)
  }

  /**
   * A round keeps every linked node at least its distance from the start:
   * a relaxed node's cost is that of the current node (itself at least its
   * distance from the start) plus one step, and the distance obeys the
   * triangle inequality.
   */
  lemma ExpandKeepsCostBound(nodes: seq<PathNode>, closed: seq<bool>, openList: seq<int>, s: int,
                             offsets: seq<Int2>, gridSize: Int2, r: int, after: seq<PathNode>)
    requires gridSize.x > 0 && gridSize.y > 0 && |nodes| == CellCount(gridSize)
    requires SearchInvariant(nodes, closed, openList, s, offsets, gridSize)
    requires ProgressInvariant(nodes, closed, openList, s, offsets, gridSize)
    requires 0 <= r < |openList|
    requires NodesRelaxed(nodes, after, closed[openList[r] := true], nodes[openList[r]], openList[r], offsets, gridSize)
    ensures after[s].Position() == nodes[s].Position()
    ensures CostsAtLeastDistance(after, s)
  {
    var c := openList[r];
    var ps, pc := nodes[s].Position(), nodes[c].Position();
    assert nodes[c].gCost >= CalculateDistanceCost(ps, pc);
    forall j | 0 <= j < |after| && after[j].targetIndex != -1
      ensures after[j].gCost >= CalculateDistanceCost(after[s].Position(), after[j].Position())
    {
      if after[j] != nodes[j] {
        var i :| 0 <= i < |offsets| && IsPositionInsideGrid(Step(pc, offsets[i]), gridSize)
          && j == CalculateNodeIndex(Step(pc, offsets[i]).x, Step(pc, offsets[i]).y, gridSize.x)
          && after[j].gCost == nodes[c].gCost + CalculateDistanceCost(pc, Step(pc, offsets[i]));
        var p := Step(pc, offsets[i]);
        PlacedAt(nodes, gridSize, p);
        DistanceCostTriangle(ps, pc, p);
      }
    }
  }

  /**
   * A round keeps the progress invariant. The round that closes the start
   * relaxes each of its walkable neighbours from the seed cost to their
   * distance; later rounds cannot lower a cost that already equals the
   * distance from the start, so those neighbours keep their parent link.
   */
  lemma SearchStepKeepsProgress(nodes: seq<PathNode>, closed: seq<bool>, openList: seq<int>, s: int,
                                offsets: seq<Int2>, gridSize: Int2, r: int, after: seq<PathNode>, openAfter: seq<int>)
    requires gridSize.x > 0 && gridSize.y > 0 && |nodes| == CellCount(gridSize)
    requires SearchInvariant(nodes, closed, openList, s, offsets, gridSize)
    requires ProgressInvariant(nodes, closed, openList, s, offsets, gridSize)
    requires 0 <= r < |openList|
    requires ExpandOutcome(nodes, after, closed[openList[r] := true], RemoveAtSwapBack(openList, r), openAfter,
                           nodes[openList[r]], openList[r], offsets, gridSize)
    ensures ProgressInvariant(after, closed[openList[r] := true], openAfter, s, offsets, gridSize)
  {
    var c := openList[r];
    var closed' := closed[c := true];
    ExpandKeepsCostBound(nodes, closed, openList, s, offsets, gridSize, r, after);
    var ps := nodes[s].Position();
    forall i | 0 <= i < |offsets| ensures StartNeighbourLinked(after, closed', s, offsets, gridSize, i) {
      var p := Step(ps, offsets[i]);
      var j := CalculateNodeIndex(p.x, p.y, gridSize.x);
      var d := CalculateDistanceCost(ps, p);
      if IsPositionInsideGrid(p, gridSize) && 0 <= j < |nodes| && j != s && after[j].isWalkable && d < Unreached {
        PlacedAt(nodes, gridSize, p);
        if !closed[s] {
          assert c == s && !closed'[j] && nodes[j].gCost == Unreached;
          assert RelaxedVia(nodes[c], offsets, gridSize, j, nodes[c].gCost + d);
        } else {
          // j already costs d, and no linked node costs less than its distance from the start.
          assert StartNeighbourLinked(nodes, closed, s, offsets, gridSize, i);
          assert after[j].targetIndex != -1;
        }
      }
    }
  }

  /** Ranks for `Ranked`: each node's cost from the start. */
  ghost function CostRanks(nodes: seq<PathNode>): (rank: seq<nat>)
    ensures |rank| == |nodes|
    ensures forall j :: 0 <= j < |nodes| && nodes[j].gCost >= 0 ==> rank[j] == nodes[j].gCost
  {
    seq(|nodes|, j requires 0 <= j < |nodes| => if nodes[j].gCost < 0 then 0 else nodes[j].gCost)
  }

  /** Under the node invariant the parent links strictly lower the cost, so they are acyclic. */
  lemma InvariantRanked(nodes: seq<PathNode>, closed: seq<bool>, s: int, offsets: seq<Int2>, gridSize: Int2)
    requires NodesInvariant(nodes, closed, s, offsets, gridSize)
    ensures Ranked(nodes, CostRanks(nodes))
  {
    forall j | 0 <= j < |nodes| && nodes[j].targetIndex != -1
      ensures 0 <= nodes[j].targetIndex < |nodes| && CostRanks(nodes)[nodes[j].targetIndex] < CostRanks(nodes)[j]
    {
      assert ParentLink(nodes, closed, offsets, gridSize, j);
    }
  }

  /** The traced path from node t, when there is one, starts at t's cell and ends at the start's. */
  lemma TracedPathEnds(nodes: seq<PathNode>, closed: seq<bool>, s: int, offsets: seq<Int2>, gridSize: Int2,
                       rank: seq<nat>, t: int)
    requires NodesInvariant(nodes, closed, s, offsets, gridSize)
    requires Ranked(nodes, rank) && 0 <= t < |nodes|
    ensures var p := TracePath(nodes, rank, nodes[t]);
      p != [] ==> 2 <= |p| && p[0] == CellOf(t, gridSize.x) && p[|p| - 1] == CellOf(s, gridSize.x)
  {
    if nodes[t].targetIndex != -1 {
      assert ParentLink(nodes, closed, offsets, gridSize, t);
      var c := Chain(nodes, rank, nodes[t].targetIndex);
      var last := |c| - 1;
      assert closed[c[last]] by {
        if last > 0 {
          assert ParentLink(nodes, closed, offsets, gridSize, c[last - 1]);
        }
      }
    }
  }

  /**
   * Element k of the traced path from node t (not the last) is the cell of
   * a node `succ` with a parent link, and element k + 1 is the cell that
   * parent link names.
   */
  lemma TracedPathLink(nodes: seq<PathNode>, rank: seq<nat>, t: int, k: int) returns (succ: int)
    requires Ranked(nodes, rank) && 0 <= t < |nodes|
    requires 0 <= k < |TracePath(nodes, rank, nodes[t])| - 1
    ensures 0 <= succ < |nodes| && nodes[succ].targetIndex != -1
    ensures var p := TracePath(nodes, rank, nodes[t]);
      p[k] == nodes[succ].Position() && p[k + 1] == nodes[nodes[succ].targetIndex].Position()
  {
    var c := Chain(nodes, rank, nodes[t].targetIndex);
    var p := [nodes[t].Position()] + Positions(nodes, c);
    assert TracePath(nodes, rank, nodes[t]) == p;
    if k == 0 {
      succ := t;
    } else {
      succ := c[k - 1];
      assert p[k] == nodes[c[k - 1]].Position() && p[k + 1] == nodes[c[k]].Position();
    }
  }

  /** Each element of the traced path from node t is one offset away from the next one. */
  lemma TracedPathSteps(nodes: seq<PathNode>, closed: seq<bool>, offsets: seq<Int2>, gridSize: Int2,
                        rank: seq<nat>, t: int)
    requires ParentLinksSound(nodes, closed, offsets, gridSize)
    requires Ranked(nodes, rank) && 0 <= t < |nodes|
    ensures var p := TracePath(nodes, rank, nodes[t]);
      forall k :: 0 <= k < |p| - 1 ==> OneStep(p[k + 1], p[k], offsets, gridSize)
  {
    var p := TracePath(nodes, rank, nodes[t]);
    forall k | 0 <= k < |p| - 1 ensures OneStep(p[k + 1], p[k], offsets, gridSize) {
      var succ := TracedPathLink(nodes, rank, t, k);
      assert ParentLink(nodes, closed, offsets, gridSize, succ);
    }
  }

  /**
   * Under the node invariant, the path traced back from node t, when there
   * is one, is a route: it starts at t's cell, ends at the start's cell,
   * and each element is one offset of the table away from the next one.
   */
  lemma TracedPathIsRoute(nodes: seq<PathNode>, closed: seq<bool>, s: int, offsets: seq<Int2>, gridSize: Int2,
                          rank: seq<nat>, t: int)
    requires NodesInvariant(nodes, closed, s, offsets, gridSize)
    requires Ranked(nodes, rank) && 0 <= t < |nodes|
    ensures var p := TracePath(nodes, rank, nodes[t]);
      p != [] ==>
        && 2 <= |p|
        && p[0] == CellOf(t, gridSize.x)
        && p[|p| - 1] == CellOf(s, gridSize.x)
        && forall k :: 0 <= k < |p| - 1 ==> OneStep(p[k + 1], p[k], offsets, gridSize)
  {
    TracedPathEnds(nodes, closed, s, offsets, gridSize, rank, t);
    TracedPathSteps(nodes, closed, offsets, gridSize, rank, t);
  }

  /** Under `Placed`, the node the selection scan returns is one of the open list's entries. */
  lemma LowestIsOpen(nodes: seq<PathNode>, gridSize: Int2, openList: seq<int>, r: int)
    requires gridSize.x > 0 && Placed(nodes, gridSize)
    requires exists k :: FirstLowestF(nodes, openList, k) && r == nodes[openList[k]].index
    ensures r in openList
  {
    var k :| FirstLowestF(nodes, openList, k) && r == nodes[openList[k]].index;
    assert r == openList[k];
  }

  /**
   * The search loop of the job, from the open list holding only the start
   * node until it runs empty or the node picked is the target; it returns
   * the open list as the loop leaves it. Each round closes one more node,
   * so the loop ends; the search and progress invariants hold throughout,
   * and no node's walkability changes.
   */
  method Search(pathNodeArray: array<PathNode>, closedArray: array<bool>, startNodeIndex: int, targetNodeIndex: int,
                offsets: seq<Int2>, gridSize: Int2)
    returns (openList: seq<int>)
    requires gridSize.x > 0 && gridSize.y > 0
    requires pathNodeArray.Length == CellCount(gridSize) && closedArray.Length == CellCount(gridSize)
    requires SearchInvariant(pathNodeArray[..], closedArray[..], [startNodeIndex], startNodeIndex, offsets, gridSize)
    requires ProgressInvariant(pathNodeArray[..], closedArray[..], [startNodeIndex], startNodeIndex, offsets, gridSize)
    modifies pathNodeArray, closedArray
    ensures SearchInvariant(pathNodeArray[..], closedArray[..], openList, startNodeIndex, offsets, gridSize)
    ensures ProgressInvariant(pathNodeArray[..], closedArray[..], openList, startNodeIndex, offsets, gridSize)
    ensures SameWalkability(old(pathNodeArray[..]), pathNodeArray[..])
    // Why the loop ended: the open list ran empty, or the target is the open node of lowest total cost.
    ensures openList != [] ==> exists k :: FirstLowestF(pathNodeArray[..], openList, k) && openList[k] == targetNodeIndex
  {
    openList := [startNodeIndex];
    while |openList| > 0
      invariant SearchInvariant(pathNodeArray[..], closedArray[..], openList, startNodeIndex, offsets, gridSize)
      invariant ProgressInvariant(pathNodeArray[..], closedArray[..], openList, startNodeIndex, offsets, gridSize)
      invariant SameWalkability(old(pathNodeArray[..]), pathNodeArray[..])
      decreases Unclosed(closedArray[..])
    {
      var currentNodeIndex := GetLowestCostFNodeIndex(openList, pathNodeArray);
      LowestIsOpen(pathNodeArray[..], gridSize, openList, currentNodeIndex);
      if currentNodeIndex == targetNodeIndex {
        // Reached destination
        ghost var k :| FirstLowestF(pathNodeArray[..], openList, k) && currentNodeIndex == pathNodeArray[openList[k]].index;
        assert openList[k] == targetNodeIndex;
        break;
      }
      ghost var nodesBefore, closedBefore, openBefore := pathNodeArray[..], closedArray[..], openList;
      ghost var removed;
      openList, removed := CloseAndExpand(pathNodeArray, closedArray, openList, currentNodeIndex, offsets, gridSize);
      ghost var r :| 0 <= r < |openBefore| && openBefore[r] == currentNodeIndex && currentNodeIndex !in openBefore[..r]
        && removed == RemoveAtSwapBack(openBefore, r);
      SearchRound(nodesBefore, closedBefore, openBefore, startNodeIndex, offsets, gridSize, r, pathNodeArray[..], openList);
      assert SameWalkability(old(pathNodeArray[..]), nodesBefore);
    }
  }

  /** Two node arrays of the same length whose nodes have the same walkability. */
  ghost predicate SameWalkability(a: seq<PathNode>, b: seq<PathNode>)
  {
    |a| == |b| && forall j :: 0 <= j < |a| ==> a[j].isWalkable == b[j].isWalkable
  }

  /** One round keeps both invariants and walkability, and closes one more cell. */
  lemma SearchRound(nodes: seq<PathNode>, closed: seq<bool>, openList: seq<int>, s: int,
                    offsets: seq<Int2>, gridSize: Int2, r: int, after: seq<PathNode>, openAfter: seq<int>)
    requires gridSize.x > 0 && gridSize.y > 0 && |nodes| == CellCount(gridSize)
    requires SearchInvariant(nodes, closed, openList, s, offsets, gridSize)
    requires ProgressInvariant(nodes, closed, openList, s, offsets, gridSize)
    requires 0 <= r < |openList|
    requires ExpandOutcome(nodes, after, closed[openList[r] := true], RemoveAtSwapBack(openList, r), openAfter,
                           nodes[openList[r]], openList[r], offsets, gridSize)
    ensures SearchInvariant(after, closed[openList[r] := true], openAfter, s, offsets, gridSize)
    ensures ProgressInvariant(after, closed[openList[r] := true], openAfter, s, offsets, gridSize)
    ensures Unclosed(closed[openList[r] := true]) < Unclosed(closed)
    ensures SameWalkability(nodes, after)
  {
    SearchStepKeepsInvariant(nodes, closed, openList, s, offsets, gridSize, r, after, openAfter);
    SearchStepKeepsProgress(nodes, closed, openList, s, offsets, gridSize, r, after, openAfter);
  }

  /**
   * When the search ends with the target s + offsets[i] (another cell than
   * the start s, inside the grid, walkable, at a distance below the seed)
   * the start has been closed, so the target has a parent link to the
   * start and costs its distance from it.
   */
  lemma AdjacentTargetLinked(nodes: seq<PathNode>, closed: seq<bool>, openList: seq<int>, s: int, t: int,
                             offsets: seq<Int2>, gridSize: Int2, i: int)
    requires SearchInvariant(nodes, closed, openList, s, offsets, gridSize)
    requires ProgressInvariant(nodes, closed, openList, s, offsets, gridSize)
    requires openList != [] ==> exists k :: FirstLowestF(nodes, openList, k) && openList[k] == t
    requires 0 <= i < |offsets| && 0 <= t < |nodes| && t != s && nodes[t].isWalkable
    requires var p := Step(nodes[s].Position(), offsets[i]);
      && IsPositionInsideGrid(p, gridSize)
      && t == CalculateNodeIndex(p.x, p.y, gridSize.x)
      && CalculateDistanceCost(nodes[s].Position(), p) < Unreached
    ensures nodes[t].targetIndex == s
    ensures nodes[t].gCost == CalculateDistanceCost(nodes[s].Position(), nodes[t].Position())
  {
    // Until the start is closed the open list is [s], and the target is not s.
    assert closed[s];
    assert StartNeighbourLinked(nodes, closed, s, offsets, gridSize, i);
    PlacedAt(nodes, gridSize, Step(nodes[s].Position(), offsets[i]));
  }

  /**
   * The job with the set-up loop seeding every node as not reached yet
   * (cost `Unreached` from the start) rather than 0. A path it reports
   * runs from the target's cell back to the start's cell, one offset of
   * the table per step; when start and target are the same cell it
   * reports none. A target one offset away from the start, inside the
   * grid and walkable, is found, and its path is the two cells target,
   * start (on any grid whose extents fit in 32 bits, so that every
   * distance is below the seed).
   */
  method ExecuteCorrected(gridSize: Int2, walkable: seq<bool>, offsets: seq<Int2>, startPosition: Int2, targetPosition: Int2)
    returns (found: bool, path: seq<Int2>)
    requires ValidGrid(gridSize, walkable)
    requires 0 <= CalculateNodeIndex(startPosition.x, startPosition.y, gridSize.x) < CellCount(gridSize)
    requires 0 <= CalculateNodeIndex(targetPosition.x, targetPosition.y, gridSize.x) < CellCount(gridSize)
    ensures !found ==> path == []
    ensures found ==>
      && 2 <= |path|
      && path[0] == CellOf(CalculateNodeIndex(targetPosition.x, targetPosition.y, gridSize.x), gridSize.x)
      && path[|path| - 1] == CellOf(CalculateNodeIndex(startPosition.x, startPosition.y, gridSize.x), gridSize.x)
      && forall k :: 0 <= k < |path| - 1 ==> OneStep(path[k + 1], path[k], offsets, gridSize)
    ensures (CalculateNodeIndex(startPosition.x, startPosition.y, gridSize.x)
             == CalculateNodeIndex(targetPosition.x, targetPosition.y, gridSize.x)) ==> !found
    ensures (&& gridSize.x <= Unreached && gridSize.y <= Unreached
             && IsPositionInsideGrid(startPosition, gridSize) && targetPosition != startPosition
             && OneStep(startPosition, targetPosition, offsets, gridSize)
             && walkable[CalculateNodeIndex(targetPosition.x, targetPosition.y, gridSize.x)]) ==>
      found && path == [targetPosition, startPosition]
  {
    var n := CellCount(gridSize);
    var startNodeIndex := CalculateNodeIndex(startPosition.x, startPosition.y, gridSize.x);
    var targetNodeIndex := CalculateNodeIndex(targetPosition.x, targetPosition.y, gridSize.x);
    var pathNodeArray := SetUpNodes(gridSize, walkable, startNodeIndex, targetPosition, Unreached);

    var closedArray := new bool[n](_ => false);
    InitialSearchInvariant(pathNodeArray[..], closedArray[..], startNodeIndex, offsets, gridSize);
    var openList := Search(pathNodeArray, closedArray, startNodeIndex, targetNodeIndex, offsets, gridSize);

    ghost var nodes := pathNodeArray[..];
    InvariantRanked(nodes, closedArray[..], startNodeIndex, offsets, gridSize);
    found, path := Report(pathNodeArray, targetNodeIndex, CostRanks(nodes));
    TracedPathIsRoute(nodes, closedArray[..], startNodeIndex, offsets, gridSize, CostRanks(nodes), targetNodeIndex);

    if && gridSize.x <= Unreached && gridSize.y <= Unreached
       && IsPositionInsideGrid(startPosition, gridSize) && targetPosition != startPosition
       && OneStep(startPosition, targetPosition, offsets, gridSize) && walkable[targetNodeIndex]
    {
      ghost var i :| 0 <= i < |offsets| && targetPosition == Step(startPosition, offsets[i]);
      PlacedAt(nodes, gridSize, startPosition);
      PlacedAt(nodes, gridSize, targetPosition);
      NodeIndexCoordinates(startPosition.x, startPosition.y, gridSize.x);
      NodeIndexCoordinates(targetPosition.x, targetPosition.y, gridSize.x);
      AdjacentTargetLinked(nodes, closedArray[..], openList, startNodeIndex, targetNodeIndex, offsets, gridSize, i);
      assert Chain(nodes, CostRanks(nodes), startNodeIndex) == [startNodeIndex];
    }
  }
}
