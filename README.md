# rltk pathfinding core in Dafny

This project models the pathfinding core of the `rltk_rs` roguelike toolkit and proves properties of that model. It covers three parts:

- **Dijkstra flow maps** (`src/dijkstra.rs`). A `DijkstraMap` holds one depth per tile. It is built by flooding outward from a list of start tiles over the exits that a map reports. When there are more starts than threads, the build goes parallel: each chunk of starts floods its own layer, and the layers are then folded into the map by elementwise minimum. Two helpers pick the exit of a tile with the lowest or the highest depth.
- **A\* search** (`src/astar.rs`). An `AStar` object holds:
  - an open list, re-sorted by `f` after every expansion;
  - a closed map from each expanded cell to its `f`;
  - a parent map;
  - a step counter that caps the search at `MAX_ASTAR_STEPS` expansions.

  When a successor is the end cell, `found_it` walks the parent map back to the start.
- **Distance metrics** (`src/geometry/mod.rs`): Manhattan, Chebyshev and Pythagoras, squared or not, in 2D and 3D.

Layout:

- `grid.dfy` (module `Grid`): the map capability both searches use. It is given as an exits table plus a heuristic distance function.
- `stable_sort.dfy` (module `StableSort`): the stable sort by key that the source takes from the standard library. It is proved ordered, a permutation, and stable.
- `dijkstra_spec.dfy` (module `DijkstraSpec`): what a build computes, as functions on sequences, and the lemmas about those functions.
- `dijkstra.dfy` (module `Dijkstra`): the `DijkstraMap` and `ParallelDm` classes over arrays. The methods that build or clear the map are proved equal to the corresponding `DijkstraSpec` function. The exit lookups (`FindLowestExit`, `FindHighestExit`, `FindHighestExitDescending`) are specified directly, by the predicates `FirstLowest` and `FirstHighest`. `Relabel` is specified entry by entry.
- `astar.dfy` (module `Astar`): the `AStar` class, whose fields are a `seq` and two `map`s. One expansion of the search loop is proved equal to the function `Step`, and the whole search to `Run`, the loop of `Step`s.
- `geometry.dfy` (module `Geometry`): the metrics as integer functions. Square roots are kept symbolic.

Costs and depths are mathematical integers. `f32::MAX` is kept as the sentinel constant `MAX` (340282346638528859811704183484516925440), which marks a tile that no flood has reached. The rayon thread count is a parameter `threads > 0`.

Behaviour of the code that the model keeps as written:

- **The flood is not a shortest-path computation.** It pops the newest entry first, and it closes a tile when the tile is pushed, not when it is settled. So a tile can keep a depth larger than its cheapest route (`FloodNotShortest`). What is proved instead:
  - every depth the build writes is the cost of some walk from a start;
  - no depth ever rises;
  - every start ends at or below 0.
- **A parallel layer never clears its closed list between its starts.** The sequential build clears it before every start. The same starts can therefore give different maps on the two paths (`LayerKeepsClosed`).
- **In `distance3d`, the `Chebyshev` arm computes the 3D Pythagoras distance.**
- **A\* details:**
  - a successor's cost is its exit cost plus `q.f`, not plus `q.g`;
  - the start node has `h = 0`;
  - the unsuccessful result has destination 0;
  - the search has no special case for `start == end`.

## Model

| member | source | states |
|---|---|---|
| StableSort.SortBy | src/astar.rs:155 | the result is ordered by the key and is a permutation of the input (equal multisets) |
| StableSort.SortByStable | src/dijkstra.rs:165 | for every key value, the elements carrying it keep their relative order: the sort is stable, as `sort_by`/`par_sort_by` are |
| StableSort.SortByHead | src/dijkstra.rs:165-167 | the head of a stable ascending sort is the first element, in input order, whose key is minimal |
| StableSort.InsertBy | src/astar.rs:155 | inserting into a sorted sequence keeps it sorted and adds exactly one element |
| DijkstraSpec.Admit | src/dijkstra.rs:45-51 | pushes exactly when the new depth is within max_depth and the tile is not closed, and then appends exactly that tile at that depth; otherwise the open list is unchanged (closing facts in AdmitCloses) |
| DijkstraSpec.AdmitCloses | src/dijkstra.rs:47-50 | it closes exactly the tile it pushes and touches no other tile of the closed list, so each push uses up exactly one unvisited tile |
| DijkstraSpec.PushExits | src/dijkstra.rs:92-94 | offering a tile's exits keeps the closed list's length, and pushes exactly as many entries as it newly closes tiles |
| DijkstraSpec.PushExitsShape | src/dijkstra.rs:45-51 | the exits loop only appends to the open list; every appended entry is an exit of the tile, at the popped depth plus that exit's cost, and not deeper than max_depth |
| DijkstraSpec.PushExitsWithin | src/dijkstra.rs:91-94 | every entry on the open list after the exits loop is a tile of the map |
| DijkstraSpec.Pops | src/dijkstra.rs:81-86 | a flood pops at most its initial entries plus the tiles not yet closed |
| DijkstraSpec.UnvisitedAtMost | src/dijkstra.rs:70 | a closed list has no more unvisited tiles than it has tiles |
| DijkstraSpec.PopsAtMost | src/dijkstra.rs:81-96 | a flood pops at most its initial entries plus one entry per tile of the map |
| DijkstraSpec.Drain | src/dijkstra.rs:81-96 | the flood loop as a function: the map and the closed list keep their size; what it computes is stated by DrainLowers, DrainCovers, DrainWithin and DrainWitnessed |
| DijkstraSpec.SequentialBuild | src/dijkstra.rs:72-97 | one flood per start, with the closed list cleared before each: the map keeps its size; what it computes is stated by SequentialBuildLowers, SequentialBuildWitnessed and SequentialBuildWithin |
| DijkstraSpec.LayerBuild | src/dijkstra.rs:124-143 | one flood per start of a chunk, sharing one closed list: the map and the closed list keep their size; what it computes is stated by LayerBuildLowers, LayerBuildWitnessed, LayerBuildWithin and LayerKeepsClosed |
| DijkstraSpec.LayerMap | src/dijkstra.rs:120-143 | a layer's map, built from an all-MAX map and an all-open closed list, has one entry per tile |
| DijkstraSpec.MinMerge | src/dijkstra.rs:147-151 | the fold of the layers into the map keeps its size; what it computes is stated by MinMergeIsMinimum, MinMergeStep and MinMergeOrderIndependent |
| DijkstraSpec.ParallelBuild | src/dijkstra.rs:101-152 | the parallel build keeps the map size; what it computes is stated by ParallelBuildLowers, ParallelBuildWitnessed and ParallelBuildWithin |
| DijkstraSpec.BuildResult | src/dijkstra.rs:63-67 | build's result, on the parallel path (more starts than threads) or the sequential one, keeps the map size; what it computes is stated by BuildSound |
| DijkstraSpec.Chunks | src/dijkstra.rs:104 | the chunks concatenate back to the starts; each holds 1 to n starts; all but the last hold exactly n |
| DijkstraSpec.DrainLowers | src/dijkstra.rs:88-89 | a flood never raises an entry of the map |
| DijkstraSpec.DrainCovers | src/dijkstra.rs:81-96 | after a flood, every entry it was given has its tile at or below that entry's depth |
| DijkstraSpec.DrainWithin | src/dijkstra.rs:46 | with non-negative costs and entries in 0..max_depth, every entry a flood changes ends in 0..max_depth |
| DijkstraSpec.DrainWitnessed | src/dijkstra.rs:88-94 | if every entry a flood is given is the cost of a walk from a start, so is every depth it writes |
| DijkstraSpec.WitnessedStart | src/dijkstra.rs:79 | a start is reached at depth 0 by the empty walk |
| DijkstraSpec.WitnessedStep | src/dijkstra.rs:93 | a walk's cost extended by one exit of its end tile is the cost of the extended walk |
| DijkstraSpec.SequentialBuildLowers | src/dijkstra.rs:72-97 | the sequential build never raises an entry and leaves every start at or below 0 |
| DijkstraSpec.SequentialBuildWitnessed | src/dijkstra.rs:72-97 | every entry the sequential build changes holds the cost of a walk from one of the starts |
| DijkstraSpec.SequentialBuildWithin | src/dijkstra.rs:46 | with non-negative costs and max_depth >= 0, every entry the sequential build changes lies in 0..max_depth |
| DijkstraSpec.LayerBuildLowers | src/dijkstra.rs:124-143 | a layer never raises an entry and leaves each of its starts at or below 0, whatever its closed list holds |
| DijkstraSpec.LayerBuildWitnessed | src/dijkstra.rs:124-143 | every entry a layer changes holds the cost of a walk from one of its starts |
| DijkstraSpec.LayerBuildWithin | src/dijkstra.rs:139 | with non-negative costs and max_depth >= 0, every entry a layer changes lies in 0..max_depth |
| DijkstraSpec.MinMergeIsMinimum | src/dijkstra.rs:147-151 | each merged entry is at most the old entry and at most every layer's entry, and equals one of them |
| DijkstraSpec.MinMergeStep | src/dijkstra.rs:148-150 | folding one more layer takes the elementwise minimum of the fold so far and that layer |
| DijkstraSpec.MinMergeOrderIndependent | src/dijkstra.rs:147-151 | the merge gives the same map for any order of the layers |
| DijkstraSpec.MergeBelow | src/dijkstra.rs:147-151 | merging a permutation of the layers gives entries no larger |
| DijkstraSpec.ChunkOf | src/dijkstra.rs:104 | the start at position j lands in chunk j / n at offset j % n |
| DijkstraSpec.ChunksWithin | src/dijkstra.rs:110 | every chunk of in-range starts is in range |
| DijkstraSpec.ChunkWithinStarts | src/dijkstra.rs:110 | every start of a chunk is one of the starts |
| DijkstraSpec.ParallelBuildLowers | src/dijkstra.rs:101-152 | the parallel build never raises an entry and leaves every start at or below 0 |
| DijkstraSpec.ChangedFromLayer | src/dijkstra.rs:147-151 | an entry the merge changed is the entry of some layer, and below MAX |
| DijkstraSpec.ParallelBuildWitnessed | src/dijkstra.rs:101-152 | every entry the parallel build changes holds the cost of a walk from one of the starts |
| DijkstraSpec.ParallelBuildWithin | src/dijkstra.rs:101-152 | with non-negative costs and max_depth >= 0, every entry the parallel build changes lies in 0..max_depth |
| DijkstraSpec.BuildSound | src/dijkstra.rs:63-98 | on either path, build never raises an entry, every changed entry is the cost of a walk from a start, and every start ends at or below 0; with non-negative costs and max_depth >= 0, every changed entry lies in 0..max_depth and every start ends at exactly min(old, 0) |
| DijkstraSpec.FloodNotShortest | src/dijkstra.rs:81-96 | from tile 0, tile 1 keeps depth 5 although the walk 0 -> 2 -> 1 costs 2 |
| DijkstraSpec.LayerKeepsClosed | src/dijkstra.rs:122-125 | with starts [0, 2], a layer leaves tile 1 at 5 because it does not clear its closed list, while the sequential build gives 1 |
| Dijkstra.DijkstraMap.Empty | src/dijkstra.rs:37-41 | a fresh map of size_x * size_y tiles, all MAX |
| Dijkstra.DijkstraMap.constructor | src/dijkstra.rs:29-34 | a fresh all-MAX map of size_x * size_y tiles, then built from the starts: the result is exactly BuildResult |
| Dijkstra.DijkstraMap.Clear | src/dijkstra.rs:54-56 | every tile becomes MAX |
| Dijkstra.DijkstraMap.AddIfOpen | src/dijkstra.rs:45-51 | pushes and closes the tile exactly when the new depth is within max_depth and the tile is open; otherwise changes nothing |
| Dijkstra.DijkstraMap.Drain | src/dijkstra.rs:81-96 | the in-place while loop leaves the map and closed list exactly as the Drain function says, after exactly Pops pops |
| Dijkstra.DijkstraMap.OfferExits | src/dijkstra.rs:91-94 | the exits loop leaves the open and closed lists exactly as PushExits says |
| Dijkstra.DijkstraMap.ResetClosed | src/dijkstra.rs:76-78 | the closed list becomes all false |
| Dijkstra.DijkstraMap.Build | src/dijkstra.rs:63-98 | the map becomes BuildResult of the old map, so BuildSound's guarantees hold of it |
| Dijkstra.DijkstraMap.BuildParallel | src/dijkstra.rs:101-152 | the map becomes ParallelBuild of the old map |
| Dijkstra.DijkstraMap.MakeLayers | src/dijkstra.rs:103-112 | one fresh, distinct all-MAX layer per chunk, carrying that chunk and the map's max_depth |
| Dijkstra.DijkstraMap.SnapshotExits | src/dijkstra.rs:114-117 | the snapshot is the exits of every tile, in tile order |
| Dijkstra.DijkstraMap.FloodLayers | src/dijkstra.rs:120-144 | every layer's map becomes its LayerMap over the snapshot |
| Dijkstra.DijkstraMap.MergeLayers | src/dijkstra.rs:147-151 | the map becomes the min-fold of the layers into it |
| Dijkstra.DijkstraMap.MergeLayer | src/dijkstra.rs:148-150 | each entry becomes the smaller of its old value and the layer's |
| Dijkstra.DijkstraMap.Relabel | src/dijkstra.rs:158-162 | the exits in order, each cost replaced by the depth of the exit's tile |
| Dijkstra.DijkstraMap.FindLowestExit | src/dijkstra.rs:157-168 | None exactly when the tile has no exits; otherwise the first exit in exit order whose tile has the least depth |
| Dijkstra.DijkstraMap.FindHighestExit | src/dijkstra.rs:174-185 | as written: None exactly when the tile has no exits; otherwise the same exit find_lowest_exit returns |
| Dijkstra.DijkstraMap.FindHighestExitDescending | src/dijkstra.rs:170-185 | as documented: None exactly when the tile has no exits; otherwise the first exit in exit order whose tile has the greatest depth |
| Dijkstra.ParallelDm.constructor | src/dijkstra.rs:105-110 | a fresh all-MAX layer map with the given max_depth and chunk |
| Dijkstra.ParallelDm.Flood | src/dijkstra.rs:121-143 | the layer's map becomes LayerBuild from a closed list that starts all false and is shared by all the chunk's starts |
| Dijkstra.HighestExitPicksLowest | src/dijkstra.rs:182-184 | with depths [0, 5] and exits to tiles 0 and 1, the ascending pick is tile 0 and nothing else, and tile 0 is not the highest exit; tile 1 is |
| Dijkstra.FirstLowestUnique | src/dijkstra.rs:165-167 | the first exit of least depth is unique, so the lookup's answer is determined |
| Astar.NewPath | src/astar.rs:48-50 | the unsuccessful result: destination 0, not a success, no steps |
| Astar.Unwind | src/astar.rs:123-128 | the walk adds at most fuel cells to the steps gathered so far, and a walk begun at the head of those steps ends with a path whose head is the start (chain facts in UnwindSound and UnwindComplete) |
| Astar.UnwindSound | src/astar.rs:123-128 | what the parent walk returns is a parent chain: it starts at the start, ends at the end, each step is the recorded parent of the next, and the start occurs only at its head |
| Astar.UnwindComplete | src/astar.rs:123-128 | any parent chain of at most fuel links is exactly what the walk returns |
| Astar.ChainNoRepeat | src/astar.rs:124-127 | no cell occurs twice on a parent chain |
| Astar.ChainShort | src/astar.rs:124-127 | a parent chain has at most as many links as the parent map has keys |
| Astar.UnwindFindsChain | src/astar.rs:117-131 | with as many lookups as the parent map has keys, the walk succeeds exactly when a parent chain from the end to the start exists, and then returns it |
| Astar.AStar.constructor | src/astar.rs:66-77 | the open list holds only the start with f = g = h = 0; the closed and parent maps are empty; the step counter is 0 |
| Astar.AStar.OpenAllows | src/astar.rs:95-100 | adding is allowed exactly when no open node at the same cell has a strictly smaller f |
| Astar.AStar.AddSuccessor | src/astar.rs:85-114 | the open list and parent map become exactly what Successor gives for the old ones. It returns true exactly when the cell is the end, and then only its parent is recorded. Otherwise it returns false; it pushes Node(idx, h + cost, cost, h) and records the parent exactly when neither the open nor the closed list holds the cell with a strictly smaller f, and changes nothing else |
| Astar.Successor | src/astar.rs:85-114 | add_successor on values: it reports the end exactly when the cell is the end, and pushes at most one node (which node, and when, is stated by OfferAllAppends) |
| Astar.OfferAll | src/astar.rs:146-151 | the exits loop on values: it pushes at most one node per exit; its properties are OfferAllStops, OfferAllAppends, OfferAllParents and OfferAllFollowsExits |
| Astar.OfferAllStops | src/astar.rs:146-149 | offering a node's exits stops exactly when one of them is the end, whose parent is then that node |
| Astar.OfferAllAppends | src/astar.rs:91-109 | offering a node's exits only appends to the open list. Each appended node comes from an exit other than the end, has g = exit cost + the node's f, h = the heuristic and f = g + h, and is not beaten by the closed list |
| Astar.OfferAllParents | src/astar.rs:85-114 | every parent link that offering a node's exits records points from one of those exits back to the node; all other links are kept |
| Astar.OfferAllFollowsExits | src/astar.rs:144-151 | expanding a node keeps every recorded parent link an exit of the map |
| Astar.AStar.Expand | src/astar.rs:137-155 | the counter goes up by one. The head of the open list (the lowest f when the list is sorted) is removed, and its exits are offered at their cost plus its f, as OfferAll says. If none is the end, the head is closed with its f and the open list is re-sorted by f; otherwise the closed map is unchanged. The flag and the new state are exactly Step of the old state |
| Astar.AStar.OfferSuccessors | src/astar.rs:146-151 | the for loop over the exits leaves the open list and parents exactly as OfferAll says, and the closed map and counter unchanged |
| Astar.AStar.FoundIt | src/astar.rs:117-131 | a successful path to the end exactly when a parent chain from the end reaches the start, and its steps are that chain |
| Astar.Step | src/astar.rs:137-155 | one pass of the search loop on values, adding one to the counter (what it leaves is stated by OfferAllStops, OfferAllAppends and OfferAllParents) |
| Astar.Run | src/astar.rs:136-157 | the search loop on values: a run that does not reach the end stops with an empty open list or a spent budget |
| Astar.RunEnds | src/astar.rs:136-157 | a run keeps the counter within the budget. A run that misses the end leaves an empty open list or a spent budget, and a sorted open list stays sorted. A run that reaches the end has recorded the end's parent. Parent links stay exits of the map |
| Astar.AStar.Search | src/astar.rs:134-158 | the open list, closed map, parents and counter end exactly as Run of the old ones says, and the empty path is returned exactly when that run did not reach the end. The counter stays within 2048. Failure leaves a sorted open list that is empty or a spent budget. Success ends at the end along a parent chain in which every step is an exit of the previous one. None means the end was reached but no chain leads back |
| Astar.AStarSearch | src/astar.rs:16-19 | the result is the empty path exactly when Run from the fresh searcher (only the start open, empty maps, counter 0) misses the end. A successful path is a parent chain of that run's parents: it starts at the start, ends at the end, meets the start only at its head, and moves along exits of the map. None means that run reached the end but no chain leads back |
| Geometry.AxisDelta | src/geometry/mod.rs:35-36 | max(a, b) - min(a, b) is the absolute difference: non-negative and zero exactly on equal values |
| Geometry.Distance2dPythagorasSquared | src/geometry/mod.rs:34-38 | dx² + dy² |
| Geometry.Distance2dManhattan | src/geometry/mod.rs:42-46 | abs(dx) + abs(dy) |
| Geometry.Distance3dManhattan | src/geometry/mod.rs:50-55 | abs(dx) + abs(dy) + abs(dz) |
| Geometry.Distance2dChebyshev | src/geometry/mod.rs:60-68 | both branches equal max(abs(dx), abs(dy)) |
| Geometry.Distance3dPythagorasSquared | src/geometry/mod.rs:72-77 | dx² + dy² + dz² |
| Geometry.Distance2d | src/geometry/mod.rs:12-19 | each arm's value in closed form: Pythagoras is the square root of dx² + dy², PythagorasSquared is dx² + dy², Manhattan is abs(dx) + abs(dy), Chebyshev is max(abs(dx), abs(dy)); only Pythagoras takes a root |
| Geometry.Distance3d | src/geometry/mod.rs:23-30 | each arm's value in closed form: Pythagoras and Chebyshev are both the square root of dx² + dy² + dz², PythagorasSquared is dx² + dy² + dz², Manhattan is abs(dx) + abs(dy) + abs(dz) |
| Geometry.Metrics2dAreDistances | src/geometry/mod.rs:34-68 | every 2D metric is non-negative, symmetric, and zero exactly on equal points |
| Geometry.Metrics3dAreDistances | src/geometry/mod.rs:50-77 | every 3D metric is non-negative, symmetric, and zero exactly on equal points |
| Geometry.ChebyshevManhattanBounds | src/geometry/mod.rs:42-68 | Chebyshev <= Manhattan <= 2 * Chebyshev |
| Geometry.ManhattanTriangle | src/geometry/mod.rs:42-46 | Manhattan obeys the triangle inequality |
| Geometry.AxisAlignedValues | src/geometry/mod.rs:152-208 | from the origin to an axis-aligned point k away: Manhattan and Chebyshev give abs(k), squared Pythagoras gives k² (the tests' 5 and 25) |
| Geometry.DiagonalValues | src/geometry/mod.rs:164-226 | from the origin to (k, k) or (k, k, k): 2D Manhattan 2·abs(k), Chebyshev abs(k), squared Pythagoras 2k² and 3k², 3D Manhattan 3·abs(k) (the tests' 10, 5, 50, 75, 15) |
| Geometry.PinnedRoots | src/geometry/mod.rs:122-145 | the Pythagoras distance to an axis-aligned point k away denotes exactly abs(k) (the tests' 5.0) |

## Left out

- Floating point: depths, costs and distances are integers, so NaN and `partial_cmp().unwrap()` panics are not modelled. `sqrt` is kept symbolic, and the tests' rounded roots (7.071068, 8.6602545) are not stated.
- `distance2d_pythagoras`, `distance3d_pythagoras` (square root), `project_angle` (sin and cos) and `line2d` (an external Bresenham crate) are not modelled beyond the symbolic root.
- Parallelism: rayon's `par_iter_mut`, `par_sort_by` and the parallel `clear` are modelled as sequential loops and a stable sort. The layers share only the read-only exits snapshot. `rayon::current_num_threads()` is the parameter `threads`.
- `unsafe` buffer handling: `set_len` is modelled as popping or emptying the open list, and `write_bytes` as resetting the closed list to all false.
- The `BaseMap` trait: a map is an exits table plus a distance function. Its exit indices must lie inside the map (`ValidFor`), which stands in for the source's out-of-range index panics.
- Dijkstra.DijkstraMap.constructor and Dijkstra.DijkstraMap.Empty require non-negative sizes. The source multiplies two `i32`s and casts the product to `usize`, which is not modelled.
- Dijkstra.DijkstraMap: the source's `map` field is named `depths`, because `map` is a keyword in Dafny.
- Astar.AStar.FoundIt returns None where the source panics on a missing parent or loops forever round a cycle of parents. The walk is bounded by the number of recorded parents, and UnwindFindsChain shows that no reachable answer is lost by that bound.
- Astar.AStar.Search returns None in the same situation, after reaching the end. It requires a sorted open list, a counter within the budget and parents that follow exits; a fresh `AStar` meets all three.
- `MAX_DIRECT_PATH_CHECK` is unused in the source and is not modelled.
- `distance_to_end` is inlined as a call to the map's distance function.
- Geometry: coordinates are unbounded integers. The source computes `max - min` of two `i32` coordinates in `i32`, which overflows when they are more than `i32::MAX` apart; that overflow is not modelled.
- DijkstraSpec.BuildSound requires every old depth to be at most MAX. The public `map` field can hold `f32::INFINITY`, which exceeds MAX; the parallel merge would turn such an entry into MAX (src/dijkstra.rs:149), a value that is no walk cost. Infinite depths are not modelled.
- DijkstraSpec.ParallelBuildWitnessed and DijkstraSpec.ParallelBuildWithin require every old depth to be at most MAX, for the same reason.
- Dijkstra.DijkstraMap.Valid keeps every depth at most MAX, for the same reason; a map holding `f32::INFINITY` is outside the model.
- Grid.BaseMap.ExitsOf gives no exits outside the exits table. The A* search has no in-range requirement on its start or on the cells it is offered, so an out-of-range cell is treated as a dead end; the source leaves this to the map's `get_available_exits`.

## Findings

| source | as written | input that shows it | evidently intended | confidence | as-written member | corrected member |
|---|---|---|---|---|---|---|
| src/dijkstra.rs:182 | `find_highest_exit` sorts the exits ascending by depth and returns the head, the lowest exit | depths [0, 5] and exits to tiles 0 and 1: it returns tile 0 | the first exit of greatest depth, tile 1, as its documentation says | high; not executed | Dijkstra.DijkstraMap.FindHighestExit, Dijkstra.HighestExitPicksLowest | Dijkstra.DijkstraMap.FindHighestExitDescending |
