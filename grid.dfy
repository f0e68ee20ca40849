/** The map capability that both searches consume: for every cell index, the
    list of exits (neighbour index and traversal cost), and a heuristic
    distance between two cells. Implementations are supplied by the caller;
    here a map is given by its adjacency table and its distance function. */
module Grid {

  datatype Option<+T> = None | Some(value: T)

  /** One available exit of a cell: the neighbour reached and what it costs. */
  datatype Exit = Exit(idx: int, cost: int)

  datatype BaseMap = BaseMap(exits: seq<seq<Exit>>, distance: (int, int) -> int)
  {
    /** get_available_exits: cells outside the table have no exits. */
    function ExitsOf(idx: int): seq<Exit>
    {
      if 0 <= idx < |exits| then exits[idx] else []
    }

    /** get_pathing_distance */
    function PathingDistance(from: int, to: int): int
    {
      distance(from, to)
    }

    /** The table covers the cells 0..n and every exit stays inside them. */
    ghost predicate ValidFor(n: nat)
    {
      AdjacencyWithin(exits, n)
    }
  }

  ghost predicate AdjacencyWithin(adj: seq<seq<Exit>>, n: nat)
  {
    |adj| == n && forall t :: 0 <= t < n ==> ExitsWithin(adj[t], n)
  }

  ghost predicate CostsNonNegative(es: seq<Exit>)
  {
    forall k :: 0 <= k < |es| ==> es[k].cost >= 0
  }

  ghost predicate AdjacencyNonNegative(adj: seq<seq<Exit>>)
  {
    forall t :: 0 <= t < |adj| ==> CostsNonNegative(adj[t])
  }

  ghost predicate ExitsWithin(es: seq<Exit>, n: nat)
  {
    forall k :: 0 <= k < |es| ==> 0 <= es[k].idx < n
  }

  /** Some exit in the list leads to cell b. */
  ghost predicate HasExitTo(es: seq<Exit>, b: int)
  {
    exists k :: 0 <= k < |es| && es[k].idx == b
  }

  ghost predicate AllWithin(cells: seq<int>, n: nat)
  {
    forall i :: 0 <= i < |cells| ==> 0 <= cells[i] < n
  }
}
