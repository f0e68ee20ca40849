/** The Dijkstra flow map of src/dijkstra.rs: a dense array of depths, one per
    tile, lowered in place by floods from a list of starts. The methods that
    build or clear the map are proved to compute the corresponding function of
    module DijkstraSpec, whose lemmas carry the properties; the exit lookups
    are specified by the predicates FirstLowest and FirstHighest, and the
    helpers of the parallel build by what they return. */
module Dijkstra {
  import opened Grid
  import opened StableSort
  import opened DijkstraSpec

  /** The key the exit pickers sort by: the exit's cost slot, which they
      overwrite with the map value of the exit's tile. */
  function ExitCost(e: Exit): int { e.cost }

  /** The key of a descending sort. */
  function NegatedCost(e: Exit): int { -e.cost }

  /** t is the first exit, in exit order, whose tile has the least map value. */
  ghost predicate FirstLowest(values: seq<int>, exits: seq<Exit>, t: int)
    requires ExitsWithin(exits, |values|)
  {
    exists k :: 0 <= k < |exits| && exits[k].idx == t &&
      (forall j :: 0 <= j < |exits| ==> values[t] <= values[exits[j].idx]) &&
      (forall j :: 0 <= j < k ==> values[exits[j].idx] > values[t])
  }

  /** t is the first exit, in exit order, whose tile has the greatest map value. */
  ghost predicate FirstHighest(values: seq<int>, exits: seq<Exit>, t: int)
    requires ExitsWithin(exits, |values|)
  {
    exists k :: 0 <= k < |exits| && exits[k].idx == t &&
      (forall j :: 0 <= j < |exits| ==> values[t] >= values[exits[j].idx]) &&
      (forall j :: 0 <= j < k ==> values[exits[j].idx] < values[t])
  }

  class DijkstraMap {
    const depths: array<int>
    const sizeX: int
    const sizeY: int
    const maxDepth: int

    /** One depth per tile, each a finite f32, so at most MAX; infinite
        depths are not modelled. */
    ghost predicate Valid()
      reads this, depths
    {
      0 <= sizeX && 0 <= sizeY && depths.Length == sizeX * sizeY &&
      forall i :: 0 <= i < depths.Length ==> depths[i] <= MAX
    }

    /** new_empty: every tile unreached. */
    constructor Empty(sizeX: int, sizeY: int, maxDepth: int)
      requires 0 <= sizeX && 0 <= sizeY
      ensures Valid() && fresh(depths)
      ensures this.sizeX == sizeX && this.sizeY == sizeY && this.maxDepth == maxDepth
      ensures depths[..] == Fill(sizeX * sizeY, MAX)
    {
      this.sizeX, this.sizeY, this.maxDepth := sizeX, sizeY, maxDepth;
      depths := new int[sizeX * sizeY](_ => MAX);
    }

    /** new: an unreached map, then build from the starts. */
    constructor (sizeX: int, sizeY: int, starts: seq<int>, grid: BaseMap, maxDepth: int, threads: nat)
      requires 0 <= sizeX && 0 <= sizeY && threads > 0
      requires grid.ValidFor(sizeX * sizeY) && AllWithin(starts, sizeX * sizeY)
      ensures Valid() && fresh(depths)
      ensures this.sizeX == sizeX && this.sizeY == sizeY && this.maxDepth == maxDepth
      ensures depths[..] == BuildResult(maxDepth, grid.exits, Fill(sizeX * sizeY, MAX), starts, threads)
    {
      this.sizeX, this.sizeY, this.maxDepth := sizeX, sizeY, maxDepth;
      depths := new int[sizeX * sizeY](_ => MAX);
      new;
      assert depths[..] == Fill(sizeX * sizeY, MAX);
      Build(starts, grid, threads);
    }

    /** clear: every tile back to unreached; sizes and depth bound are fields
        the method cannot change. */
    method Clear()
      requires Valid()
      modifies depths
      ensures Valid()
      ensures depths[..] == Fill(depths.Length, MAX)
    {
      for i := 0 to depths.Length
        invariant forall j :: 0 <= j < i ==> depths[j] == MAX
        invariant forall j :: i <= j < depths.Length ==> depths[j] == old(depths[j])
      {
        depths[i] := MAX;
      }
    }

    /** add_if_open, on the open list held as a value. */
    static method AddIfOpen(maxDepth: int, idx: int, open: seq<Entry>, closed: array<bool>, newDepth: int)
      returns (open': seq<Entry>)
      requires 0 <= idx < closed.Length
      modifies closed
      ensures (open', closed[..]) == Admit(maxDepth, idx, newDepth, open, old(closed[..]))
    {
      open' := open;
      if newDepth > maxDepth { return; }
      if closed[idx] { return; }
      closed[idx] := true;
      open' := open + [Entry(idx, newDepth)];
    }

    /** The while loop of a flood: pop the last entry, and if the map holds a
        greater depth for its tile, write the depth and offer every exit.
        The ghost result counts the pops. */
    static method Drain(maxDepth: int, adj: seq<seq<Exit>>, depths: array<int>, open: seq<Entry>, closed: array<bool>)
      returns (ghost pops: nat)
      requires closed.Length == depths.Length && AdjacencyWithin(adj, depths.Length) && EntriesWithin(open, depths.Length)
      modifies depths, closed
      ensures (depths[..], closed[..]) == DijkstraSpec.Drain(maxDepth, adj, old(depths[..]), open, old(closed[..]))
      ensures pops == Pops(maxDepth, adj, old(depths[..]), open, old(closed[..]))
    {
      var stack := open;
      pops := 0;
      while stack != []
        invariant EntriesWithin(stack, depths.Length)
        invariant DijkstraSpec.Drain(maxDepth, adj, depths[..], stack, closed[..])
               == DijkstraSpec.Drain(maxDepth, adj, old(depths[..]), open, old(closed[..]))
        invariant pops + Pops(maxDepth, adj, depths[..], stack, closed[..]) == Pops(maxDepth, adj, old(depths[..]), open, old(closed[..]))
        decreases Unvisited(closed[..]), |stack|
      {
        DrainPop(maxDepth, adj, depths[..], stack, closed[..]);
        var lastIdx := |stack| - 1;
        var current := stack[lastIdx];
        stack := stack[..lastIdx];
        pops := pops + 1;
        if depths[current.idx] > current.depth {
          depths[current.idx] := current.depth;
          var exits := adj[current.idx];
          stack := OfferExits(maxDepth, exits, current.depth, stack, closed);
        }
      }
    }

    /** The exits loop after a pop: add_if_open for every exit, in order. */
    static method OfferExits(maxDepth: int, exits: seq<Exit>, depth: int, open: seq<Entry>, closed: array<bool>)
      returns (open': seq<Entry>)
      requires ExitsWithin(exits, closed.Length)
      modifies closed
      ensures (open', closed[..]) == PushExits(maxDepth, exits, depth, open, old(closed[..]))
    {
      open' := open;
      var rest := exits;
      while rest != []
        invariant ExitsWithin(rest, closed.Length)
        invariant PushExits(maxDepth, rest, depth, open', closed[..]) == PushExits(maxDepth, exits, depth, open, old(closed[..]))
        decreases |rest|
      {
        var exit := rest[0];
        PushExitsStep(maxDepth, rest, depth, open', closed[..]);
        open' := AddIfOpen(maxDepth, exit.idx, open', closed, depth + exit.cost);
        rest := rest[1..];
      }
    }

    /** The bulk reset of the closed list before each start. */
    static method ResetClosed(closed: array<bool>)
      modifies closed
      ensures closed[..] == Fill(closed.Length, false)
    {
      forall i | 0 <= i < closed.Length {
        closed[i] := false;
      }
    }

    /** build: in parallel when there are more starts than threads; otherwise
        one flood per start, the closed list cleared before each. */
    method Build(starts: seq<int>, grid: BaseMap, threads: nat)
      requires Valid() && threads > 0
      requires grid.ValidFor(depths.Length) && AllWithin(starts, depths.Length)
      modifies depths
      ensures Valid()
      ensures depths[..] == BuildResult(maxDepth, grid.exits, old(depths[..]), starts, threads)
    {
      ghost var before := depths[..];
      BuildSound(maxDepth, grid.exits, before, starts, threads);
      if |starts| > threads {
        BuildParallel(starts, grid, threads);
      } else {
        var mapsize := sizeX * sizeY;
        var closed := new bool[mapsize](_ => false);
        for s := 0 to |starts|
          invariant depths[..] == SequentialBuild(maxDepth, grid.exits, before, starts[..s])
        {
          ResetClosed(closed);
          SequentialBuildStep(maxDepth, grid.exits, before, starts, s);
          ghost var pops := Drain(maxDepth, grid.exits, depths, [Entry(starts[s], 0)], closed);
        }
        assert starts[..|starts|] == starts;
      }
    }

    /** build_parallel: one layer per chunk of starts, each flooded on its own
        all-MAX map over a snapshot of the exits, then folded into the map by
        elementwise minimum. */
    method BuildParallel(starts: seq<int>, grid: BaseMap, threads: nat)
      requires Valid() && threads > 0
      requires grid.ValidFor(depths.Length) && AllWithin(starts, depths.Length)
      modifies depths
      ensures depths[..] == ParallelBuild(maxDepth, grid.exits, old(depths[..]), starts, threads)
    {
      var mapsize := sizeX * sizeY;
      assert mapsize == depths.Length;
      var chunks := Chunks(starts, threads);
      ChunksWithin(starts, threads, mapsize);
      var layers := MakeLayers(chunks, mapsize, maxDepth);
      var exits := SnapshotExits(grid, mapsize);
      FloodLayers(layers, exits);
      ghost var maps := LayerMaps(maxDepth, exits, mapsize, chunks);
      assert forall k :: 0 <= k < |layers| ==> layers[k].depths[..] == maps[k];
      MergeLayers(layers, maps);
    }

    /** The recombination loop, layer by layer. */
    method MergeLayers(layers: seq<ParallelDm>, ghost maps: seq<seq<int>>)
      requires |maps| == |layers|
      requires forall k :: 0 <= k < |layers| ==> layers[k].depths != depths
      requires forall k :: 0 <= k < |layers| ==> layers[k].depths.Length == depths.Length
      requires forall k :: 0 <= k < |layers| ==> layers[k].depths[..] == maps[k]
      modifies depths
      ensures depths[..] == MinMerge(old(depths[..]), maps)
    {
      ghost var start := depths[..];
      for l := 0 to |layers|
        invariant depths[..] == MinMerge(start, maps[..l])
        invariant forall k :: 0 <= k < |layers| ==> layers[k].depths[..] == maps[k]
      {
        MergeLayer(layers[l].depths);
        MinMergeStep(start, maps, l);
      }
      assert maps[..|layers|] == maps;
    }

    /** One layer per chunk, each with its own all-MAX map. */
    static method MakeLayers(chunks: seq<seq<int>>, mapsize: nat, maxDepth: int) returns (layers: seq<ParallelDm>)
      ensures |layers| == |chunks|
      ensures forall k :: 0 <= k < |layers| ==> fresh(layers[k].depths) && layers[k].depths.Length == mapsize
      ensures forall k :: 0 <= k < |layers| ==> layers[k].depths[..] == Fill(mapsize, MAX)
      ensures forall k :: 0 <= k < |layers| ==> layers[k].maxDepth == maxDepth && layers[k].starts == chunks[k]
      ensures forall k, j :: 0 <= k < j < |layers| ==> layers[k].depths != layers[j].depths
    {
      layers := [];
      for c := 0 to |chunks|
        invariant |layers| == c
        invariant forall k :: 0 <= k < c ==> fresh(layers[k].depths) && layers[k].depths.Length == mapsize
        invariant forall k :: 0 <= k < c ==> layers[k].depths[..] == Fill(mapsize, MAX)
        invariant forall k :: 0 <= k < c ==> layers[k].maxDepth == maxDepth && layers[k].starts == chunks[k]
        invariant forall k, j :: 0 <= k < j < c ==> layers[k].depths != layers[j].depths
      {
        var layer := new ParallelDm(mapsize, maxDepth, chunks[c]);
        layers := layers + [layer];
      }
    }

    /** The exits of every tile, queried once before the layers run. */
    static method SnapshotExits(grid: BaseMap, mapsize: nat) returns (exits: seq<seq<Exit>>)
      requires grid.ValidFor(mapsize)
      ensures exits == grid.exits
    {
      exits := [];
      for idx := 0 to mapsize
        invariant exits == grid.exits[..idx]
      {
        exits := exits + [grid.ExitsOf(idx)];
      }
      assert grid.exits[..mapsize] == grid.exits;
    }

    /** Every layer runs its floods over the shared snapshot. */
    static method FloodLayers(layers: seq<ParallelDm>, exits: seq<seq<Exit>>)
      requires forall k :: 0 <= k < |layers| ==>
        AdjacencyWithin(exits, layers[k].depths.Length) && AllWithin(layers[k].starts, layers[k].depths.Length)
      requires forall k :: 0 <= k < |layers| ==> layers[k].depths[..] == Fill(layers[k].depths.Length, MAX)
      requires forall k, j :: 0 <= k < j < |layers| ==> layers[k].depths != layers[j].depths
      modifies set k | 0 <= k < |layers| :: layers[k].depths
      ensures forall k :: 0 <= k < |layers| ==>
        layers[k].depths[..] == LayerMap(layers[k].maxDepth, exits, layers[k].depths.Length, layers[k].starts)
    {
      for l := 0 to |layers|
        invariant forall k :: 0 <= k < l ==>
          layers[k].depths[..] == LayerMap(layers[k].maxDepth, exits, layers[k].depths.Length, layers[k].starts)
        invariant forall k :: l <= k < |layers| ==> layers[k].depths[..] == Fill(layers[k].depths.Length, MAX)
      {
        var layer := layers[l];
        assert forall k :: 0 <= k < |layers| && k != l ==> layers[k].depths != layer.depths;
        layer.Flood(exits);
        assert layer.depths[..] == LayerMap(layer.maxDepth, exits, layer.depths.Length, layer.starts);
      }
    }

    /** The inner recombination loop: each entry becomes the smaller of its
        own and the layer's. */
    method MergeLayer(layer: array<int>)
      requires layer.Length == depths.Length && layer != depths
      modifies depths
      ensures |depths[..]| == |old(depths[..])|
      ensures forall i :: 0 <= i < depths.Length ==> depths[i] == Min(old(depths[i]), layer[i])
    {
      for i := 0 to depths.Length
        invariant forall j :: 0 <= j < i ==> depths[j] == Min(old(depths[j]), layer[j])
        invariant forall j :: i <= j < depths.Length ==> depths[j] == old(depths[j])
      {
        depths[i] := Min(depths[i], layer[i]);
      }
    }

    /** find_lowest_exit: relabel every exit with its tile's map value, sort
        stably ascending, and take the head. */
    method FindLowestExit(position: int, grid: BaseMap) returns (r: Option<int>)
      requires Valid() && grid.ValidFor(depths.Length)
      ensures r.None? <==> grid.ExitsOf(position) == []
      ensures r.Some? ==> FirstLowest(depths[..], grid.ExitsOf(position), r.value)
    {
      var exits := Relabel(position, grid);
      if exits == [] {
        return None;
      }
      var sorted := SortBy(exits, ExitCost);
      ghost var k := SortByHead(exits, ExitCost);
      r := Some(sorted[0].idx);
      assert FirstLowest(depths[..], grid.ExitsOf(position), r.value) by {
        assert forall j :: 0 <= j < |exits| ==> ExitCost(exits[j]) == depths[grid.ExitsOf(position)[j].idx];
      }
    }

    /** find_highest_exit as written: the same ascending sort, so the same
        answer as find_lowest_exit (see HighestExitPicksLowest). */
    method FindHighestExit(position: int, grid: BaseMap) returns (r: Option<int>)
      requires Valid() && grid.ValidFor(depths.Length)
      ensures r.None? <==> grid.ExitsOf(position) == []
      ensures r.Some? ==> FirstLowest(depths[..], grid.ExitsOf(position), r.value)
    {
      var exits := Relabel(position, grid);
      if exits == [] {
        return None;
      }
      var sorted := SortBy(exits, ExitCost);
      ghost var k := SortByHead(exits, ExitCost);
      r := Some(sorted[0].idx);
      assert FirstLowest(depths[..], grid.ExitsOf(position), r.value) by {
        assert forall j :: 0 <= j < |exits| ==> ExitCost(exits[j]) == depths[grid.ExitsOf(position)[j].idx];
      }
    }

    /** find_highest_exit as its documentation describes it: a stable
        descending sort, so the head is the first exit of greatest value. */
    method FindHighestExitDescending(position: int, grid: BaseMap) returns (r: Option<int>)
      requires Valid() && grid.ValidFor(depths.Length)
      ensures r.None? <==> grid.ExitsOf(position) == []
      ensures r.Some? ==> FirstHighest(depths[..], grid.ExitsOf(position), r.value)
    {
      var exits := Relabel(position, grid);
      if exits == [] {
        return None;
      }
      var sorted := SortBy(exits, NegatedCost);
      ghost var k := SortByHead(exits, NegatedCost);
      r := Some(sorted[0].idx);
      assert FirstHighest(depths[..], grid.ExitsOf(position), r.value) by {
        assert forall j :: 0 <= j < |exits| ==> NegatedCost(exits[j]) == -depths[grid.ExitsOf(position)[j].idx];
      }
    }

    /** The exits of a tile with each cost replaced by the map value of the
        exit's tile, in exit order. */
    method Relabel(position: int, grid: BaseMap) returns (exits: seq<Exit>)
      requires Valid() && grid.ValidFor(depths.Length)
      ensures |exits| == |grid.ExitsOf(position)|
      ensures forall j :: 0 <= j < |exits| ==>
        exits[j] == Exit(grid.ExitsOf(position)[j].idx, depths[grid.ExitsOf(position)[j].idx])
    {
      exits := grid.ExitsOf(position);
      ghost var given := exits;
      for k := 0 to |exits|
        invariant |exits| == |given|
        invariant forall j :: 0 <= j < k ==> exits[j] == Exit(given[j].idx, depths[given[j].idx])
        invariant forall j :: k <= j < |exits| ==> exits[j] == given[j]
      {
        exits := exits[k := Exit(exits[k].idx, depths[exits[k].idx])];
      }
    }
  }

  /** One parallel layer: its own map, the depth bound and its chunk of starts. */
  class ParallelDm {
    const depths: array<int>
    const maxDepth: int
    const starts: seq<int>

    constructor (mapsize: nat, maxDepth: int, starts: seq<int>)
      ensures fresh(depths) && depths.Length == mapsize && depths[..] == Fill(mapsize, MAX)
      ensures this.maxDepth == maxDepth && this.starts == starts
    {
      depths := new int[mapsize](_ => MAX);
      this.maxDepth := maxDepth;
      this.starts := starts;
      new;
      assert depths[..] == Fill(mapsize, MAX);
    }

    /** The layer's floods, one per start, over one closed list that is never
        cleared between them. */
    method Flood(exits: seq<seq<Exit>>)
      requires AdjacencyWithin(exits, depths.Length) && AllWithin(starts, depths.Length)
      modifies depths
      ensures depths[..] == LayerBuild(maxDepth, exits, old(depths[..]), Fill(depths.Length, false), starts).0
    {
      var closed := new bool[depths.Length](_ => false);
      assert closed[..] == Fill(depths.Length, false);
      for s := 0 to |starts|
        invariant (depths[..], closed[..]) == LayerBuild(maxDepth, exits, old(depths[..]), Fill(depths.Length, false), starts[..s])
      {
        LayerBuildStep(maxDepth, exits, old(depths[..]), Fill(depths.Length, false), starts, s);
        ghost var pops := DijkstraMap.Drain(maxDepth, exits, depths, [Entry(starts[s], 0)], closed);
      }
      assert starts[..|starts|] == starts;
    }
  }

  /** find_highest_exit as written picks the lowest exit: with tiles 0 and 1
      holding 0 and 5, the exits [0, 1] give tile 0 from both pickers, while
      the highest exit is tile 1. */
  lemma HighestExitPicksLowest()
    ensures FirstLowest([0, 5], [Exit(0, 1), Exit(1, 1)], 0)
    ensures forall t :: FirstLowest([0, 5], [Exit(0, 1), Exit(1, 1)], t) ==> t == 0
    ensures !FirstHighest([0, 5], [Exit(0, 1), Exit(1, 1)], 0)
    ensures FirstHighest([0, 5], [Exit(0, 1), Exit(1, 1)], 1)
  {
    var values, exits := [0, 5], [Exit(0, 1), Exit(1, 1)];
    assert exits[0].idx == 0;
    assert exits[1].idx == 1;
    forall t | FirstLowest(values, exits, t)
      ensures t == 0
    {
      FirstLowestUnique(values, exits, t, 0);
    }
  }

  /** The first lowest exit is unique: both lookups name exactly one tile. */
  lemma FirstLowestUnique(values: seq<int>, exits: seq<Exit>, t: int, u: int)
    requires ExitsWithin(exits, |values|)
    requires FirstLowest(values, exits, t) && FirstLowest(values, exits, u)
    ensures t == u
  {
    var k :| 0 <= k < |exits| && exits[k].idx == t &&
      (forall j :: 0 <= j < |exits| ==> values[t] <= values[exits[j].idx]) &&
      (forall j :: 0 <= j < k ==> values[exits[j].idx] > values[t]);
    var l :| 0 <= l < |exits| && exits[l].idx == u &&
      (forall j :: 0 <= j < |exits| ==> values[u] <= values[exits[j].idx]) &&
      (forall j :: 0 <= j < l ==> values[exits[j].idx] > values[u]);
    var vt, vu := values[t], values[u];
    assert vt <= vu && vu <= vt;
    assert k < l ==> vt > vu;
    assert l < k ==> vu > vt;
  }
}
