# Grid path search and map smoothing, modelled in Dafny

This project models two pieces of a Unity ECS game project.

- **`FindPathJob`**, the A*-style path search on a grid of `PathNode` records
  (`Assets/ECS/Pathfinding/PathBehaviour.cs`). The model covers:
  - set-up of the node array, with one node per cell at the slot of its flat index;
  - the open list scanned for the lowest total cost (`fCost`);
  - removal by swap-back and a closed flag per cell;
  - relaxation of the neighbours named by an offset table;
  - the walk along the parent links (`targetIndex`) that builds the path.
- **The smoothing passes of `noisex.randommap`**
  (`Assets/Scripts/CommonECS/Mathematics/noisex.cs`). The model covers the
  cellular automaton that rewrites a 0/1 map in place, cell by cell. A cell
  becomes 1 when more than 4 of its in-bounds neighbours are 1, becomes 0 when
  fewer than 4 are, and is left alone at exactly 4.

Modules, one per part of the program:

| file | module | what |
|---|---|---|
| `mathx.dfy` | `Mathx` | the bounds helper `between` |
| `pathfinding_grid.dfy` | `PathGrid` | flat index, distance cost, bounds test, index arithmetic lemmas |
| `pathfinding_nodes.dfy` | `PathNodes` | the `PathNode` record and the set-up loops |
| `pathfinding_trace.dfy` | `PathTrace` | `CalculatePath` and the walk along parent links |
| `pathfinding_search.dfy` | `PathSearch` | selection, removal, relaxation, expansion, the job itself and its corrected form |
| `noise_smoothing.dfy` | `NoiseSmoothing` | the smoothing passes on an `array2<int>` |

## Main results

- **The job as written never finds a path.** Every node's cost from the start
  (`gCost`) is seeded with 0, and no step cost is negative. So the
  relaxation test `tentativeGCost < neighbourNode.gCost` never holds.
  - `PathSearch.Execute` ends with `!found && path == []` for every grid,
    offset table, start and target.
  - This holds even when the target is a neighbour of the start, or the
    start itself.
- **With the seed corrected, a reported path is sound, and a neighbouring
  target is found.** `PathSearch.ExecuteCorrected` seeds every node with
  `int.MaxValue` instead. Its proof carries two invariants across the search
  loop. The first: the parent links point to closed, strictly cheaper cells
  one offset away, and the open list holds distinct, unclosed entries. The
  second: every linked node costs at least its distance from the start, and
  once the start is closed each walkable cell one offset from it is linked
  to it at that distance. From these it proves:
  - a path it reports starts at the target's cell and ends at the start's cell;
  - each element is one table offset away from the next one, and every cell
    is inside the grid;
  - a walkable target one table offset from the start (and not the start) is
    found, and the path is exactly `[target, start]`.
- **The neighbour loop is stated in both directions.** A node it changes is
  an unclosed, walkable neighbour now reached more cheaply through the
  current node. Conversely, every such neighbour is changed that way and
  is in the open list (`PathSearch.ExpandNeighbours`).
- **Path order.** `CalculatePath` returns the path target-first; nothing
  reverses it.
- **One smoothing pass is a left fold.** It applies the single-cell update in
  y-then-x order, and each count sees the values already written in the same
  pass. Two further results:
  - a 0/1 map stays 0/1 under any number of passes;
  - every counter lies between 0 and 8 and is the sum of the eight
    surrounding in-bounds cells.

## Behaviour of the code worth knowing

- **Path order.** `CalculatePath` returns the path target-first, and
  nothing reverses it (`PathTrace.CalculatePath`, `PathTrace.TracePathShape`).
- **Start equals target.** The loop breaks at once, and the target never has
  a parent link, so the job takes the "didn't find a path" branch. This holds
  both as written and as corrected.
- **The zero seed.** Seeding every cost with 0 means no path is ever found
  (see Findings).
- **No invalid-request result.** The job has no result for a bad request.
  - Out-of-range start or target indices would fault in the native array
    access. The model requires both flat indices to lie in `[0, w*h)`.
  - `PathSearch.ScheduledRequestValid` shows that the only scheduled request
    meets this: 20×20, all walkable, from (0, 0) to (19, 19).

## Model

| member | source | states |
|---|---|---|
| PathGrid.CalculateNodeIndex | Assets/ECS/Pathfinding/PathBehaviour.cs:162-165 | row-major flat index `x + y * width` |
| PathGrid.NodeIndexInRange | Assets/ECS/Pathfinding/PathBehaviour.cs:162-165 | an in-grid cell's index lies in `[0, w*h)` |
| PathGrid.NodeIndexCoordinates | Assets/ECS/Pathfinding/PathBehaviour.cs:162-165 | the index determines the cell: `index % w == x`, `index / w == y` |
| PathGrid.NodeIndexInjective | Assets/ECS/Pathfinding/PathBehaviour.cs:162-165 | two in-grid cells with the same index are the same cell |
| PathGrid.SlotCoordinates | Assets/ECS/Pathfinding/PathBehaviour.cs:45-61 | every slot `i < w*h` is the index of the in-grid cell `(i % w, i / w)`, so the set-up loops fill every slot |
| PathGrid.CalculateDistanceCost | Assets/ECS/Pathfinding/PathBehaviour.cs:167-173 | `min(dx, dy) + abs(dx - dy)` equals the Chebyshev distance `max(dx, dy)`; it is non-negative and zero iff the cells are equal |
| PathGrid.DistanceCostSymmetric | Assets/ECS/Pathfinding/PathBehaviour.cs:167-173 | the distance cost does not depend on argument order |
| PathGrid.DistanceCostTriangle | Assets/ECS/Pathfinding/PathBehaviour.cs:167-173 | the distance cost obeys the triangle inequality |
| PathGrid.IsPositionInsideGrid | Assets/ECS/Pathfinding/PathBehaviour.cs:189-192 | holds iff `0 <= x < size.x` and `0 <= y < size.y` |
| PathNodes.InitialNodeAt | Assets/ECS/Pathfinding/PathBehaviour.cs:47-63 | after set-up, slot i holds the node of an in-grid cell: its index is i, its cost from the start is the seed, its heuristic is the distance to the target, `fCost == gCost + hCost`, walkability is the cell's, and it has no parent link |
| PathNodes.NewNode | Assets/ECS/Pathfinding/PathBehaviour.cs:51-59 | the node built for cell (x, y) has that position and index, the seed cost, the cell's walkability and no parent link; its heuristic is non-negative and zero exactly at the target; its total cost is up to date |
| PathNodes.InitialNodesSeeded | Assets/ECS/Pathfinding/PathBehaviour.cs:47-63 | after set-up every node sits in its own slot, has the seed cost, has no parent link, has its total cost up to date and has the walkability of its cell |
| PathNodes.InitNodes | Assets/ECS/Pathfinding/PathBehaviour.cs:45-63 | the nested set-up loops leave the array equal to `InitialNodes`, slot by slot |
| PathTrace.Chain | Assets/ECS/Pathfinding/PathBehaviour.cs:207-211 | given acyclic (ranked) parent links, the walk from slot i is a parent walk: it starts at i, follows `targetIndex`, and stops at the first node without a parent link; it is no longer than the rank allows |
| PathTrace.Positions | Assets/ECS/Pathfinding/PathBehaviour.cs:204-210 | the collected coordinates are those of the visited slots, in order |
| PathTrace.CalculatePath | Assets/ECS/Pathfinding/PathBehaviour.cs:194-215 | the loop returns `TracePath`: empty without a parent link, else the end node's cell followed by the cells of the parent walk; it terminates because the links are ranked |
| PathTrace.ParentWalkUnique | Assets/ECS/Pathfinding/PathBehaviour.cs:207-211 | the parent walk from a slot is unique |
| PathTrace.ChainVisitsDistinctSlots | Assets/ECS/Pathfinding/PathBehaviour.cs:207-211 | the rank strictly falls along the walk, so no slot is visited twice |
| PathTrace.TracePathIndependentOfRank | Assets/ECS/Pathfinding/PathBehaviour.cs:194-215 | the returned path is fixed by the parent links alone, not by the rank witnessing acyclicity |
| PathTrace.TracePathShape | Assets/ECS/Pathfinding/PathBehaviour.cs:194-215 | the path is empty iff the end node has no parent link; otherwise it starts at the end node, each later element is the node named by the previous node's parent link, and it ends at a node without one (target-to-start order) |
| PathSearch.CloseLowersUnclosed | Assets/ECS/Pathfinding/PathBehaviour.cs:98 | closing an unclosed cell leaves one cell fewer to close |
| PathSearch.RemoveAtSwapBack | Assets/ECS/Pathfinding/PathBehaviour.cs:93 | swap-back removal shortens the list by one; the last element moves into the gap and every other element stays in place |
| PathSearch.RemoveAtSwapBackMultiset | Assets/ECS/Pathfinding/PathBehaviour.cs:93 | swap-back removal deletes exactly one occurrence of the removed element |
| PathSearch.RemoveAtSwapBackDistinct | Assets/ECS/Pathfinding/PathBehaviour.cs:89-96 | on a list without duplicates, removal keeps it so and drops exactly the removed value |
| PathSearch.GetLowestCostFNodeIndex | Assets/ECS/Pathfinding/PathBehaviour.cs:175-187 | on a non-empty open list, returns the index field of the entry with the lowest `fCost`; ties keep the earliest entry (strict `>`) |
| PathSearch.RemoveFromOpen | Assets/ECS/Pathfinding/PathBehaviour.cs:88-96 | removes the first occurrence of the current index by swap-back; a list without it is returned unchanged |
| PathSearch.Relax | Assets/ECS/Pathfinding/PathBehaviour.cs:127-141 | when the cost through the current node is lower, the neighbour gets that cost, a recomputed `fCost` and a parent link to the current node, and joins the open list unless already in it; otherwise nothing changes |
| PathSearch.RelaxExtendsNodes | Assets/ECS/Pathfinding/PathBehaviour.cs:101-141 | relaxing an unclosed, walkable neighbour keeps "every changed node is an unclosed, walkable neighbour reached more cheaply through the current node, pointing back to it" |
| PathSearch.RelaxExtendsOpen | Assets/ECS/Pathfinding/PathBehaviour.cs:137-140 | relaxing keeps "the open list only grows, by new entries, each a node that got cheaper" |
| PathSearch.RelaxedViaSameCost | Assets/ECS/Pathfinding/PathBehaviour.cs:104-129 | two offsets that reach the same in-grid slot from the current node give the same tentative cost, because the flat index is injective |
| PathSearch.RelaxExtendsImprovements | Assets/ECS/Pathfinding/PathBehaviour.cs:101-141 | one more turn of the neighbour loop keeps "every unclosed, walkable neighbour reached more cheaply through one of the offsets so far has been relaxed and is open" |
| PathSearch.ExpandNeighbours | Assets/ECS/Pathfinding/PathBehaviour.cs:100-142 | both directions of the neighbour loop. A changed node is an in-grid, unclosed, walkable neighbour one offset away, now cheaper, with `fCost == gCost + hCost` and a parent link to the current node; out-of-grid, closed and unwalkable neighbours are left alone. Every in-grid, unclosed, walkable neighbour whose cost through the current node is lower gets exactly that cost, the recomputed total and the parent link, and is in the open list. The open list grows only by new, distinct entries and holds every changed node |
| PathSearch.CloseAndExpand | Assets/ECS/Pathfinding/PathBehaviour.cs:86-142 | one round after the target test: the current node is removed from the open list, closed, and expanded with the full two-way outcome of the neighbour loop |
| PathSearch.Report | Assets/ECS/Pathfinding/PathBehaviour.cs:145-155 | a path is reported iff the target node has a parent link, and it is the traced path |
| PathSearch.SetUpNodes | Assets/ECS/Pathfinding/PathBehaviour.cs:44-71 | after set-up and the start-node reset, every node sits in its slot with its total cost up to date and its cell's walkability, the start costs 0, every other node costs the seed, and nobody has a parent link |
| PathSearch.ScheduledRequestValid | Assets/ECS/Pathfinding/PathBehaviour.cs:21-25 | the scheduled request (20×20, all walkable, (0,0) to (19,19)) meets the job's preconditions |
| PathSearch.Execute | Assets/ECS/Pathfinding/PathBehaviour.cs:42-160 | the job as written reports no path for every grid, offset table, start and target |
| PathSearch.ExpandKeepsNodesInvariant | Assets/ECS/Pathfinding/PathBehaviour.cs:98-142 | closing and expanding an open node keeps the node invariant: every parent link names a closed, strictly cheaper node one offset away; the start keeps cost 0; the only closed node without a parent link is the start |
| PathSearch.ExpandKeepsOpenInvariant | Assets/ECS/Pathfinding/PathBehaviour.cs:88-142 | removal, closing and expansion keep the open list free of duplicates and of closed cells; each entry is the start or has a parent link |
| PathSearch.InitialSearchInvariant | Assets/ECS/Pathfinding/PathBehaviour.cs:65-76 | the search and progress invariants hold when the loop starts, with only the start open and nothing closed |
| PathSearch.SearchStepKeepsInvariant | Assets/ECS/Pathfinding/PathBehaviour.cs:79-142 | one round keeps the search invariant and closes one more cell, so the loop ends |
| PathSearch.InvariantRanked | Assets/ECS/Pathfinding/PathBehaviour.cs:129-136 | under the invariant, costs strictly fall along parent links, so the links are acyclic |
| PathSearch.TracedPathEnds | Assets/ECS/Pathfinding/PathBehaviour.cs:194-215 | under the invariant, a traced path has at least two cells, starts at the target's cell and ends at the start's |
| PathSearch.TracedPathSteps | Assets/ECS/Pathfinding/PathBehaviour.cs:194-215 | under sound parent links, each element of a traced path is one table offset from the next, inside the grid |
| PathSearch.TracedPathIsRoute | Assets/ECS/Pathfinding/PathBehaviour.cs:145-155 | under the invariant, the reported path is a route from the target back to the start along table offsets |
| PathSearch.LowestIsOpen | Assets/ECS/Pathfinding/PathBehaviour.cs:79 | the index the selection scan returns is an entry of the open list |
| PathSearch.ExpandKeepsCostBound | Assets/ECS/Pathfinding/PathBehaviour.cs:127-136 | a round keeps every linked node at least its distance from the start: the current node is itself, and the distance cost obeys the triangle inequality |
| PathSearch.SearchStepKeepsProgress | Assets/ECS/Pathfinding/PathBehaviour.cs:79-142 | a round keeps the progress invariant: the round that closes the start links every walkable cell one offset from it at its distance, and no later round can lower such a cost, so the link stays |
| PathSearch.SearchRound | Assets/ECS/Pathfinding/PathBehaviour.cs:79-142 | one round keeps both invariants and every node's walkability, and closes one more cell |
| PathSearch.Search | Assets/ECS/Pathfinding/PathBehaviour.cs:73-143 | the search loop (with the corrected seed) ends; both invariants hold when it does, walkability is unchanged, and the open list it leaves is empty or has the target as its entry of lowest total cost (the break at lines 80-84) |
| PathSearch.AdjacentTargetLinked | Assets/ECS/Pathfinding/PathBehaviour.cs:77-143 | when the search ends with a walkable target one offset from the start, the start has been closed, so the target is linked to the start at its distance |
| PathSearch.ExecuteCorrected | Assets/ECS/Pathfinding/PathBehaviour.cs:42-160 | with `gCost` seeded as not reached: a reported path has at least two cells, starts at the target's cell, ends at the start's, and steps by table offsets inside the grid; no path when start equals target; no path means an empty list; a walkable target one table offset from an in-grid start is found, with path `[target, start]` |
| NoiseSmoothing.NeighbourCountExplicit | Assets/Scripts/CommonECS/Mathematics/noisex.cs:119-134 | the counter the loops compute is the sum of the eight surrounding cells, the cell itself excluded, with out-of-map cells counting 0 |
| NoiseSmoothing.NeighbourCountBounds | Assets/Scripts/CommonECS/Mathematics/noisex.cs:119-134 | on a 0/1 map the counter lies between 0 and 8 |
| NoiseSmoothing.CountNeighbours | Assets/Scripts/CommonECS/Mathematics/noisex.cs:119-134 | the two counting loops compute `NeighbourCount` and read only in-bounds cells |
| NoiseSmoothing.Rule | Assets/Scripts/CommonECS/Mathematics/noisex.cs:135-142 | away from a counter of exactly 4, the new value is 1 iff the counter is above 4 and 0 iff below; the value changes only when the counter is not 4; a 0/1 value stays 0/1 |
| NoiseSmoothing.UpdateCell | Assets/Scripts/CommonECS/Mathematics/noisex.cs:135-142 | the cell becomes 1 when the counter is above 4, 0 when below 4, and is unchanged at 4; no other cell changes |
| NoiseSmoothing.SmoothCell | Assets/Scripts/CommonECS/Mathematics/noisex.cs:119-142 | updating one cell in place is `UpdateCell` on the map's contents |
| NoiseSmoothing.FoldRow | Assets/Scripts/CommonECS/Mathematics/noisex.cs:117-143 | updating the first x cells of a row keeps the map's shape |
| NoiseSmoothing.FoldRows | Assets/Scripts/CommonECS/Mathematics/noisex.cs:115-144 | updating the first y rows keeps the map's shape |
| NoiseSmoothing.Pass | Assets/Scripts/CommonECS/Mathematics/noisex.cs:115-144 | a pass keeps the map's shape |
| NoiseSmoothing.Smoothed | Assets/Scripts/CommonECS/Mathematics/noisex.cs:113-145 | any number of passes keeps the map's shape |
| NoiseSmoothing.SmoothRow | Assets/Scripts/CommonECS/Mathematics/noisex.cs:117-143 | the x loop is the left fold `FoldRow` of the cell update over one row |
| NoiseSmoothing.SmoothPass | Assets/Scripts/CommonECS/Mathematics/noisex.cs:115-144 | the y loop is the left fold `FoldRows`: rows in order, each seeing the rows already rewritten |
| NoiseSmoothing.RandomMapSmoothing | Assets/Scripts/CommonECS/Mathematics/noisex.cs:113-145 | the passes leave the map equal to `smooths` folds of the cell update (none when `smooths <= 0`, leaving the map exactly as filled) |
| NoiseSmoothing.UpdateCellBinary | Assets/Scripts/CommonECS/Mathematics/noisex.cs:135-142 | a cell update keeps a 0/1 map 0/1 |
| NoiseSmoothing.FoldRowBinary | Assets/Scripts/CommonECS/Mathematics/noisex.cs:117-143 | updating part of a row keeps a 0/1 map 0/1 |
| NoiseSmoothing.FoldRowsBinary | Assets/Scripts/CommonECS/Mathematics/noisex.cs:115-144 | updating rows keeps a 0/1 map 0/1 |
| NoiseSmoothing.SmoothedBinary | Assets/Scripts/CommonECS/Mathematics/noisex.cs:109-145 | a 0/1 map, as the fill produces, stays 0/1 after any number of passes |
| NoiseSmoothing.UpdateCellZero | Assets/Scripts/CommonECS/Mathematics/noisex.cs:119-142 | on an all-zero map every counter is 0, so a cell update changes nothing (a consequence of the rule, not a promise the code makes) |
| NoiseSmoothing.FoldRowZero | Assets/Scripts/CommonECS/Mathematics/noisex.cs:117-143 | updating part of a row leaves an all-zero map unchanged (a consequence of the rule, not a promise the code makes) |
| NoiseSmoothing.FoldRowsZero | Assets/Scripts/CommonECS/Mathematics/noisex.cs:115-144 | updating rows leaves an all-zero map unchanged (a consequence of the rule, not a promise the code makes) |
| NoiseSmoothing.SmoothedZero | Assets/Scripts/CommonECS/Mathematics/noisex.cs:113-145 | an all-zero map is a fixed point of any number of passes (a consequence of the rule, not a promise the code makes) |
| NoiseSmoothing.SmoothedAdditive | Assets/Scripts/CommonECS/Mathematics/noisex.cs:113-145 | a passes followed by b passes are a + b passes (follows from the definition of repeated passes, not a promise the code makes) |

## Findings

| source | as written | input that shows it | evidently intended | confidence | as-written member | corrected member |
|---|---|---|---|---|---|---|
| Assets/ECS/Pathfinding/PathBehaviour.cs:55 | every node's `gCost` is seeded with 0, so `tentativeGCost < neighbourNode.gCost` (line 130) never holds; no node is ever relaxed and the job always ends in "didn't find a path" | the scheduled request: 20×20 grid, all walkable, start (0, 0), target (19, 19); also a target adjacent to the start | seed every node except the start as not reached (`int.MaxValue`), so relaxation records parent links and a reachable target is reported with its path; proved for a target one table offset from the start, which is reported with the path `[target, start]` | high (proved for all inputs; not executed) | PathSearch.Execute | PathSearch.ExecuteCorrected |

## Left out

- `PathBehaviour.Start`: the coroutine timer, job scheduling, `JobHandle.CompleteAll`, wall-clock timing and `Debug.Log` are scheduling and I/O. Only the request it issues is modelled (`PathSearch.ScheduledRequestValid`).
- Native containers (`NativeArray`, `NativeList`, `Allocator`, `Dispose`): modelled as Dafny arrays and sequences. Allocation and disposal are not behaviour.
- `HexModel.T` is not part of this model. The offset table is a parameter of the job.
- `mathx.between` is not part of this model. It is taken to be the strict test `lo < v < hi` (`Mathx.Between`).
- `PathNode` is not part of this model. `CalculateFCost` is taken to set `fCost = gCost + hCost`.
- The fixed 20×20 grid and all-walkable cells are generalised to a width, a height and a walkability sequence. The fixed case is an instance.
- 32-bit arithmetic is modelled with unbounded integers. As written, every cost is at most 38 on the 20×20 grid, so nothing wraps. In the corrected job, the total of a node that was never reached (`int.MaxValue + hCost`) would wrap in 32 bits. Such nodes are never in the open list, so selection never reads that total; the model does not represent the wrap.
- PathSearch.ExecuteCorrected: proves soundness of a reported path, and that a target one table offset from the start is found with the path `[target, start]`. It does not prove that a target further away is found whenever a route exists, nor that a path is shortest. The heuristic uses the Chebyshev metric while the offset table is arbitrary, so admissibility is not given. The found-neighbour result assumes grid extents of at most `int.MaxValue`, as the 32-bit `int2` guarantees, so that every distance is below the seed.
- PathSearch.Execute: the path the job builds is disposed without being returned. The model returns it, together with the found flag, so that the outcome can be stated.
- The fill step of `randommap` (`Random.NextFloat` against `fill`): the map as filled is the input. `noisex.map` and `noisex.smoothmap` (floating-point Perlin sampling) are not modelled.
- The map extents are the `array2` dimensions, which no pass can change. No write falls outside them, because every access is bounds-checked.
