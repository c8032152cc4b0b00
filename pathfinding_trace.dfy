/**
 * Path reconstruction: the walk along the parent links (`targetIndex`)
 * from the end node, collecting cell coordinates. The path comes out
 * target-first; nothing reverses it.
 */
module PathTrace {
  import opened PathGrid
  import opened PathNodes

  /**
   * The parent links are acyclic, witnessed by a rank that every
   * parent link strictly lowers: each `targetIndex` is -1 or names a slot
   * of smaller rank.
   */
  ghost predicate Ranked(nodes: seq<PathNode>, rank: seq<nat>)
  {
    && |rank| == |nodes|
    && forall i :: 0 <= i < |nodes| && nodes[i].targetIndex != -1 ==>
         0 <= nodes[i].targetIndex < |nodes| && rank[nodes[i].targetIndex] < rank[i]
  }

  /**
   * `c` is the walk from slot i along the parent links: it starts at i, each
   * later slot is the previous node's `targetIndex`, and it stops at the
   * first node whose parent link is -1.
   */
  ghost predicate IsParentWalk(nodes: seq<PathNode>, i: int, c: seq<int>)
  {
    && |c| > 0
    && c[0] == i
    && (forall k :: 0 <= k < |c| ==> 0 <= c[k] < |nodes|)
    && (forall k :: 0 <= k < |c| - 1 ==> c[k + 1] == nodes[c[k]].targetIndex)
    && nodes[c[|c| - 1]].targetIndex == -1
  }

  /** The slots visited by the parent link walk from slot i. */
  ghost function Chain(nodes: seq<PathNode>, rank: seq<nat>, i: int): (c: seq<int>)
    requires Ranked(nodes, rank) && 0 <= i < |nodes|
    ensures IsParentWalk(nodes, i, c)
    ensures |c| <= rank[i] + 1
    decreases rank[i]
  {
    var t := nodes[i].targetIndex;
    if t == -1 then [i] else [i] + Chain(nodes, rank, t)
  }

  /** The coordinates of the nodes in the slots `c`, in order. */
  function Positions(nodes: seq<PathNode>, c: seq<int>): (r: seq<Int2>)
    requires forall k :: 0 <= k < |c| ==> 0 <= c[k] < |nodes|
    ensures |r| == |c|
    ensures forall k :: 0 <= k < |c| ==> r[k] == nodes[c[k]].Position()
  {
    if c == [] then [] else [nodes[c[0]].Position()] + Positions(nodes, c[1..])
  }

  /** The coordinates still to be collected after node `n`: those of the walk from its parent link. */
  ghost function PathAfter(nodes: seq<PathNode>, rank: seq<nat>, n: PathNode): seq<Int2>
    requires Ranked(nodes, rank)
    requires n.targetIndex == -1 || 0 <= n.targetIndex < |nodes|
  {
    if n.targetIndex == -1 then [] else Positions(nodes, Chain(nodes, rank, n.targetIndex))
  }

  /**
   * What `CalculatePath` returns: nothing when the end node has no
   * parent link, else the end node's coordinates followed by those of
   * the walk from its parent link.
   */
  ghost function TracePath(nodes: seq<PathNode>, rank: seq<nat>, endNode: PathNode): seq<Int2>
    requires Ranked(nodes, rank)
    requires endNode.targetIndex == -1 || 0 <= endNode.targetIndex < |nodes|
  {
    if endNode.targetIndex == -1 then [] else [endNode.Position()] + PathAfter(nodes, rank, endNode)
  }

  /**
   * Walks the parent links from `endNode` until a node without one; the
   * walk terminates because the parent links are ranked.
   */
  method CalculatePath(pathNodeArray: array<PathNode>, endNode: PathNode, ghost rank: seq<nat>)
    returns (result: seq<Int2>)
    requires Ranked(pathNodeArray[..], rank)
    requires endNode.targetIndex == -1 || 0 <= endNode.targetIndex < pathNodeArray.Length
    ensures result == TracePath(pathNodeArray[..], rank, endNode)
  {
    ghost var nodes := pathNodeArray[..];
    if endNode.targetIndex == -1 {
      // Couldn't find a path
      result := [];
    } else {
      result := [endNode.Position()];
      var currentNode := endNode;
      while currentNode.targetIndex != -1
        invariant currentNode.targetIndex == -1 || 0 <= currentNode.targetIndex < |nodes|
        invariant TracePath(nodes, rank, endNode) == result + PathAfter(nodes, rank, currentNode)
        decreases if currentNode.targetIndex == -1 then 0 else rank[currentNode.targetIndex] + 1
      {
        ghost var c := Chain(nodes, rank, currentNode.targetIndex);
        currentNode := pathNodeArray[currentNode.targetIndex];
        assert c == [c[0]] + c[1..];
        assert PathAfter(nodes, rank, currentNode) == Positions(nodes, c[1..]);
        result := result + [currentNode.Position()];
      }
    }
  }

  /** A parent walk is determined by the nodes and its first slot alone. */
  lemma {:induction false} ParentWalkUnique(nodes: seq<PathNode>, i: int, c1: seq<int>, c2: seq<int>)
    requires IsParentWalk(nodes, i, c1) && IsParentWalk(nodes, i, c2)
    ensures c1 == c2
    decreases |c1|
  {
    var t := nodes[i].targetIndex;
    assert |c1| > 1 ==> c1[1] == t;
    assert |c2| > 1 ==> c2[1] == t;
    if |c1| > 1 && |c2| > 1 {
      assert IsParentWalk(nodes, t, c1[1..]);
      assert IsParentWalk(nodes, t, c2[1..]);
      ParentWalkUnique(nodes, t, c1[1..], c2[1..]);
      assert c1 == [i] + c1[1..] && c2 == [i] + c2[1..];
    }
  }

  /** The rank strictly falls along `c`, so `c` holds no slot twice. */
  ghost predicate RankFalls(rank: seq<nat>, c: seq<int>)
  {
    forall k, l :: 0 <= k < l < |c| ==> 0 <= c[k] < |rank| && 0 <= c[l] < |rank| && rank[c[l]] < rank[c[k]]
  }

  /** Along the walk the rank strictly falls, so no slot is visited twice. */
  lemma {:induction false} ChainVisitsDistinctSlots(nodes: seq<PathNode>, rank: seq<nat>, i: int)
    requires Ranked(nodes, rank) && 0 <= i < |nodes|
    ensures RankFalls(rank, Chain(nodes, rank, i))
    ensures var c := Chain(nodes, rank, i); forall k, l :: 0 <= k < l < |c| ==> c[k] != c[l]
    decreases rank[i]
  {
    var c := Chain(nodes, rank, i);
    var t := nodes[i].targetIndex;
    if t != -1 {
      ChainVisitsDistinctSlots(nodes, rank, t);
      var tail := Chain(nodes, rank, t);
      assert RankFalls(rank, tail);
      assert c == [i] + tail;
      forall k, l | 0 <= k < l < |c| ensures rank[c[l]] < rank[c[k]]
      {
        if k == 0 {
          assert c[l] == tail[l - 1];
          assert tail[0] == t;
          if l > 1 {
            assert rank[tail[l - 1]] < rank[tail[0]];
          }
        } else {
          assert c[k] == tail[k - 1] && c[l] == tail[l - 1];
        }
      }
    }
  }

  /**
   * The path found by `CalculatePath` does not depend on the rank that
   * witnesses acyclicity: it is fixed by the parent links themselves.
   */
  lemma TracePathIndependentOfRank(nodes: seq<PathNode>, rank1: seq<nat>, rank2: seq<nat>, endNode: PathNode)
    requires Ranked(nodes, rank1) && Ranked(nodes, rank2)
    requires endNode.targetIndex == -1 || 0 <= endNode.targetIndex < |nodes|
    ensures TracePath(nodes, rank1, endNode) == TracePath(nodes, rank2, endNode)
  {
    if endNode.targetIndex != -1 {
      var t := endNode.targetIndex;
      ParentWalkUnique(nodes, t, Chain(nodes, rank1, t), Chain(nodes, rank2, t));
    }
  }

  /**
   * The shape of a reconstructed path: empty exactly when the end node has
   * no parent link; otherwise it starts at the end node, each later
   * element is the node named by the previous node's parent link, and the
   * last element is a node without one (the start), so the path is
   * ordered target-to-start.
   */
  lemma TracePathShape(nodes: seq<PathNode>, rank: seq<nat>, endNode: PathNode)
    requires Ranked(nodes, rank)
    requires endNode.targetIndex == -1 || 0 <= endNode.targetIndex < |nodes|
    ensures var p := TracePath(nodes, rank, endNode);
      && (p == [] <==> endNode.targetIndex == -1)
      && (p != [] ==>
            && p[0] == endNode.Position()
            && exists c :: IsParentWalk(nodes, endNode.targetIndex, c) && |p| == |c| + 1
                 && forall k :: 0 <= k < |c| ==> p[k + 1] == nodes[c[k]].Position())
  {
    if endNode.targetIndex != -1 {
      var c := Chain(nodes, rank, endNode.targetIndex);
      var p := TracePath(nodes, rank, endNode);
      assert forall k :: 0 <= k < |c| ==> p[k + 1] == nodes[c[k]].Position();
    }
  }
}
