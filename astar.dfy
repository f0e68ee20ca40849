/** The A* searcher of src/astar.rs: an object holding an open list kept
    sorted by f, a closed map from cell to the f it was expanded with, a map
    from cell to the cell it was reached from, and a step counter that bounds
    the search. */
module Astar {
  import opened Grid
  import opened StableSort

  /** The search gives up after this many expansions. */
  const MAX_ASTAR_STEPS: int := 2048

  /** A cell on the open list: f is the total, g the cost so far, h the heuristic. */
  datatype Node = Node(idx: int, f: int, g: int, h: int)

  /** The result of a query; steps include the starting cell. */
  datatype NavigationPath = NavigationPath(destination: int, success: bool, steps: seq<int>)

  /** NavigationPath::new: the unsuccessful result. */
  function NewPath(): (p: NavigationPath)
    ensures !p.success && p.steps == [] && p.destination == 0
  {
    NavigationPath(0, false, [])
  }

  /** The key the open list is sorted by. */
  function FScore(n: Node): int { n.f }

  /** Some node on the open list is at the same cell with a strictly smaller f. */
  ghost predicate OpenHasBetter(open: seq<Node>, s: Node)
  {
    exists j :: 0 <= j < |open| && open[j].idx == s.idx && open[j].f < s.f
  }

  /** The cell was expanded with a strictly smaller f. */
  ghost predicate ClosedHasBetter(closed: map<int, int>, s: Node)
  {
    s.idx in closed && closed[s.idx] < s.f
  }

  /** Every link of p goes from a cell to the cell it was reached from. */
  ghost predicate Linked(parents: map<int, int>, p: seq<int>)
  {
    forall i :: 0 < i < |p| ==> p[i] in parents && parents[p[i]] == p[i - 1]
  }

  /** p walks the parent links back from last to start, meeting start only at
      its head: what found_it assembles when its loop ends. */
  ghost predicate ParentChain(parents: map<int, int>, start: int, last: int, p: seq<int>)
  {
    |p| > 0 && p[0] == start && p[|p| - 1] == last && Linked(parents, p) &&
    forall i :: 0 < i < |p| ==> p[i] != start
  }

  /** Every recorded parent link is an exit of the map. */
  ghost predicate ParentsFollowExits(parents: map<int, int>, grid: BaseMap)
  {
    forall k :: k in parents ==> HasExitTo(grid.ExitsOf(parents[k]), k)
  }

  /** The found_it loop with a lookup budget: prepend the parent of the
      current cell until the start is reached. None when a parent is missing
      (the source panics) or the budget runs out (the source goes round a cycle). */
  function Unwind(parents: map<int, int>, start: int, current: int, fuel: nat, acc: seq<int>): (r: Option<seq<int>>)
    ensures r.Some? ==> |acc| <= |r.value| <= |acc| + fuel
    ensures r.Some? && acc != [] && acc[0] == current ==> r.value[0] == start
    decreases fuel
  {
    if current == start then Some(acc)
    else if fuel == 0 || current !in parents then None
    else Unwind(parents, start, parents[current], fuel - 1, [parents[current]] + acc)
  }

  /** What Unwind returns is a parent chain ending where acc ends. */
  lemma {:induction false} UnwindSound(parents: map<int, int>, start: int, current: int, fuel: nat, acc: seq<int>)
    requires acc != [] && acc[0] == current && Linked(parents, acc)
    requires forall i :: 0 < i < |acc| ==> acc[i] != start
    ensures Unwind(parents, start, current, fuel, acc).Some? ==>
      ParentChain(parents, start, acc[|acc| - 1], Unwind(parents, start, current, fuel, acc).value)
    decreases fuel
  {
    if current != start && fuel != 0 && current in parents {
      var acc' := [parents[current]] + acc;
      assert Linked(parents, acc') by {
        forall i | 0 < i < |acc'|
          ensures acc'[i] in parents && parents[acc'[i]] == acc'[i - 1]
        {
          if i > 1 {
            assert acc'[i] == acc[i - 1] && acc'[i - 1] == acc[i - 2];
          }
        }
      }
      UnwindSound(parents, start, parents[current], fuel - 1, acc');
    }
  }

  /** A parent chain pre + [current] of at most fuel links is what Unwind finds. */
  lemma {:induction false} UnwindComplete(parents: map<int, int>, start: int, current: int, fuel: nat, acc: seq<int>, pre: seq<int>)
    requires acc != [] && acc[0] == current && |pre| <= fuel
    requires ParentChain(parents, start, current, pre + [current])
    ensures Unwind(parents, start, current, fuel, acc) == Some(pre + acc)
    decreases |pre|
  {
    var p := pre + [current];
    if pre == [] {
      assert current == p[0] == start;
      assert pre + acc == acc;
    } else {
      assert p[|pre|] == current && current != start;
      assert p[|pre| - 1] == pre[|pre| - 1];
      assert current in parents && parents[current] == pre[|pre| - 1];
      var pre', last := pre[..|pre| - 1], pre[|pre| - 1];
      assert pre == pre' + [last];
      assert pre' + [last] == p[..|pre|];
      assert ParentChain(parents, start, last, pre' + [last]);
      UnwindComplete(parents, start, last, fuel - 1, [last] + acc, pre');
      assert pre' + ([last] + acc) == pre + acc;
    }
  }

  /** Cells on a parent chain do not repeat: walking back from two equal cells
      would reach the start at two different positions. */
  lemma {:induction false} ChainNoRepeat(parents: map<int, int>, start: int, last: int, p: seq<int>, i: nat, j: nat)
    requires ParentChain(parents, start, last, p)
    requires i < j < |p|
    ensures p[i] != p[j]
    decreases i
  {
    if i > 0 && p[i] == p[j] {
      assert p[i - 1] == parents[p[i]] == parents[p[j]] == p[j - 1];
      ChainNoRepeat(parents, start, last, p, i - 1, j - 1);
    }
  }

  /** A sequence without repeats drawn from a set is no longer than the set. */
  lemma {:induction false} DistinctWithin(s: seq<int>, a: set<int>)
    requires forall i, j :: 0 <= i < j < |s| ==> s[i] != s[j]
    requires forall i :: 0 <= i < |s| ==> s[i] in a
    ensures |s| <= |a|
    decreases |s|
  {
    if s != [] {
      var x := s[|s| - 1];
      DistinctWithin(s[..|s| - 1], a - {x});
      assert |a - {x}| == |a| - 1;
    }
  }

  /** Every cell after the start of a parent chain is a distinct key of
      parents, so a chain has at most |parents| links. */
  lemma ChainShort(parents: map<int, int>, start: int, last: int, p: seq<int>)
    requires ParentChain(parents, start, last, p)
    ensures |p| <= |parents| + 1
  {
    var tail := p[1..];
    forall i, j | 0 <= i < j < |tail|
      ensures tail[i] != tail[j]
    {
      ChainNoRepeat(parents, start, last, p, i + 1, j + 1);
    }
    forall i | 0 <= i < |tail|
      ensures tail[i] in parents.Keys
    {
      assert p[i + 1] == tail[i];
    }
    DistinctWithin(tail, parents.Keys);
  }

  /** With the budget |parents|, Unwind finds a chain exactly when one exists. */
  lemma UnwindFindsChain(parents: map<int, int>, start: int, end: int)
    ensures Unwind(parents, start, end, |parents|, [end]).Some? <==> exists p :: ParentChain(parents, start, end, p)
    ensures Unwind(parents, start, end, |parents|, [end]).Some? ==>
      ParentChain(parents, start, end, Unwind(parents, start, end, |parents|, [end]).value)
  {
    UnwindSound(parents, start, end, |parents|, [end]);
    if p :| ParentChain(parents, start, end, p) {
      ChainShort(parents, start, end, p);
      var pre := p[..|p| - 1];
      assert pre + [end] == p;
      UnwindComplete(parents, start, end, |parents|, [end], pre);
    }
  }

  /** What offering one cell to the searcher leaves: whether it was the end,
      the open list and the parent links. */
  datatype Offer = Offer(found: bool, open: seq<Node>, parents: map<int, int>)

  /** add_successor on values: the end gets its parent recorded and stops the
      search; any other cell reached at cost g becomes a node with the
      heuristic as h and h + g as f, pushed with its parent unless the open or
      the closed list holds that cell with a strictly smaller f. */
  ghost function Successor(open: seq<Node>, closed: map<int, int>, parents: map<int, int>, end: int,
                           q: Node, idx: int, g: int, grid: BaseMap): (r: Offer)
    ensures r.found <==> idx == end
    ensures |open| <= |r.open| <= |open| + 1
  {
    if idx == end then Offer(true, open, parents[idx := q.idx])
    else
      var h := grid.PathingDistance(idx, end);
      var s := Node(idx, h + g, g, h);
      if !OpenHasBetter(open, s) && !ClosedHasBetter(closed, s)
      then Offer(false, open + [s], parents[idx := q.idx])
      else Offer(false, open, parents)
  }

  /** The inner loop of search: each exit of q is offered at its cost plus
      q's f, in order, until one of them is the end. */
  ghost function OfferAll(open: seq<Node>, closed: map<int, int>, parents: map<int, int>, end: int,
                          q: Node, exits: seq<Exit>, grid: BaseMap): (r: Offer)
    ensures |open| <= |r.open| <= |open| + |exits|
    decreases |exits|
  {
    if exits == [] then Offer(false, open, parents)
    else
      var o := Successor(open, closed, parents, end, q, exits[0].idx, exits[0].cost + q.f, grid);
      if o.found then o else OfferAll(o.open, closed, o.parents, end, q, exits[1..], grid)
  }

  /** n is the node for one of the exits, reached through q: g is the exit's
      cost plus q's f, h the heuristic to the end, and f their sum. */
  ghost predicate FromExit(n: Node, exits: seq<Exit>, q: Node, end: int, grid: BaseMap)
  {
    exists k :: 0 <= k < |exits| && exits[k].idx == n.idx &&
      n.g == exits[k].cost + q.f && n.h == grid.PathingDistance(n.idx, end) && n.f == n.h + n.g
  }

  /** Offering the exits of q stops exactly when one of them is the end,
      whose parent is then q. */
  lemma {:induction false} OfferAllStops(open: seq<Node>, closed: map<int, int>, parents: map<int, int>, end: int,
                                         q: Node, exits: seq<Exit>, grid: BaseMap)
    ensures var r := OfferAll(open, closed, parents, end, q, exits, grid);
      (r.found <==> exists k :: 0 <= k < |exits| && exits[k].idx == end) &&
      (r.found ==> end in r.parents && r.parents[end] == q.idx)
    decreases |exits|
  {
    if exits != [] {
      var e := exits[0];
      var o := Successor(open, closed, parents, end, q, e.idx, e.cost + q.f, grid);
      if !o.found {
        var rest := exits[1..];
        OfferAllStops(o.open, closed, o.parents, end, q, rest, grid);
        assert e.idx != end;
        if k :| 0 <= k < |exits| && exits[k].idx == end {
          assert k > 0 && rest[k - 1] == exits[k];
        }
        if k :| 0 <= k < |rest| && rest[k].idx == end {
          assert exits[k + 1] == rest[k];
        }
      } else {
        assert exits[0].idx == end;
      }
    }
  }

  /** Offering the exits of q only appends to the open list, and each node
      it appends comes from an exit other than the end and is not beaten by
      the closed list. */
  lemma {:induction false} OfferAllAppends(open: seq<Node>, closed: map<int, int>, parents: map<int, int>, end: int,
                                           q: Node, exits: seq<Exit>, grid: BaseMap)
    ensures var r := OfferAll(open, closed, parents, end, q, exits, grid);
      |open| <= |r.open| && r.open[..|open|] == open &&
      forall i :: |open| <= i < |r.open| ==>
        r.open[i].idx != end && !ClosedHasBetter(closed, r.open[i]) && FromExit(r.open[i], exits, q, end, grid)
    decreases |exits|
  {
    if exits != [] {
      var e := exits[0];
      var o := Successor(open, closed, parents, end, q, e.idx, e.cost + q.f, grid);
      if !o.found {
        var rest := exits[1..];
        OfferAllAppends(o.open, closed, o.parents, end, q, rest, grid);
        SuccessorAppends(open, closed, parents, end, q, exits, grid);
        var r := OfferAll(o.open, closed, o.parents, end, q, rest, grid);
        assert r == OfferAll(open, closed, parents, end, q, exits, grid);
        assert r.open[..|open|] == r.open[..|o.open|][..|open|];
        forall i | |open| <= i < |r.open|
          ensures r.open[i].idx != end && !ClosedHasBetter(closed, r.open[i]) && FromExit(r.open[i], exits, q, end, grid)
        {
          if i < |o.open| {
            assert r.open[i] == r.open[..|o.open|][i];
          } else {
            FromLaterExit(r.open[i], exits, q, end, grid);
          }
        }
      }
    }
  }

  /** Offering the first exit only appends, a node from that exit. */
  lemma SuccessorAppends(open: seq<Node>, closed: map<int, int>, parents: map<int, int>, end: int,
                         q: Node, exits: seq<Exit>, grid: BaseMap)
    requires exits != []
    ensures var o := Successor(open, closed, parents, end, q, exits[0].idx, exits[0].cost + q.f, grid);
      !o.found ==>
        |open| <= |o.open| && o.open[..|open|] == open &&
        forall i :: |open| <= i < |o.open| ==>
          o.open[i].idx != end && !ClosedHasBetter(closed, o.open[i]) && FromExit(o.open[i], exits, q, end, grid)
  {
    var o := Successor(open, closed, parents, end, q, exits[0].idx, exits[0].cost + q.f, grid);
    if !o.found && o.open != open {
      assert o.open[..|open|] == open;
      assert exits[0].idx == o.open[|open|].idx;
    }
  }

  /** A node from one of the later exits comes from one of the exits. */
  lemma FromLaterExit(n: Node, exits: seq<Exit>, q: Node, end: int, grid: BaseMap)
    requires exits != [] && FromExit(n, exits[1..], q, end, grid)
    ensures FromExit(n, exits, q, end, grid)
  {
    var rest := exits[1..];
    var k :| 0 <= k < |rest| && rest[k].idx == n.idx &&
      n.g == rest[k].cost + q.f && n.h == grid.PathingDistance(n.idx, end) && n.f == n.h + n.g;
    assert exits[k + 1] == rest[k];
  }

  /** Every parent link that offering the exits of q records points from
      one of those exits back to q; the other links are kept. */
  lemma {:induction false} OfferAllParents(open: seq<Node>, closed: map<int, int>, parents: map<int, int>, end: int,
                                           q: Node, exits: seq<Exit>, grid: BaseMap)
    ensures var r := OfferAll(open, closed, parents, end, q, exits, grid);
      forall c :: c in r.parents ==>
        (c in parents && r.parents[c] == parents[c]) || (r.parents[c] == q.idx && HasExitTo(exits, c))
    decreases |exits|
  {
    if exits != [] {
      var e := exits[0];
      var o := Successor(open, closed, parents, end, q, e.idx, e.cost + q.f, grid);
      if !o.found {
        var rest := exits[1..];
        OfferAllParents(o.open, closed, o.parents, end, q, rest, grid);
        var r := OfferAll(o.open, closed, o.parents, end, q, rest, grid);
        assert r == OfferAll(open, closed, parents, end, q, exits, grid);
        forall c | c in r.parents
          ensures (c in parents && r.parents[c] == parents[c]) || (r.parents[c] == q.idx && HasExitTo(exits, c))
        {
          if c in o.parents && r.parents[c] == o.parents[c] {
            if !(c in parents && o.parents[c] == parents[c]) {
              assert c == e.idx && exits[0].idx == c;
            }
          } else {
            var k :| 0 <= k < |rest| && rest[k].idx == c;
            assert exits[k + 1] == rest[k];
          }
        }
      } else {
        assert exits[0].idx == end;
      }
    }
  }

  /** Offering the exits of a cell keeps every parent link an exit of the map. */
  lemma OfferAllFollowsExits(open: seq<Node>, closed: map<int, int>, parents: map<int, int>, end: int,
                             q: Node, grid: BaseMap)
    requires ParentsFollowExits(parents, grid)
    ensures ParentsFollowExits(OfferAll(open, closed, parents, end, q, grid.ExitsOf(q.idx), grid).parents, grid)
  {
    OfferAllParents(open, closed, parents, end, q, grid.ExitsOf(q.idx), grid);
  }

  /** The four fields of a searcher that the search changes. */
  datatype State = State(open: seq<Node>, closed: map<int, int>, parents: map<int, int>, counter: int)

  /** One pass of the search loop on values: count the step, pop the head
      of the open list and offer its exits at their cost plus its f. When one
      of them is the end the pass reports it and stops there; otherwise the
      head is closed with its f and the open list is re-sorted by f. */
  ghost function Step(s: State, end: int, grid: BaseMap): (r: (bool, State))
    requires s.open != []
    ensures r.1.counter == s.counter + 1
  {
    var q := s.open[0];
    var o := OfferAll(s.open[1..], s.closed, s.parents, end, q, grid.ExitsOf(q.idx), grid);
    if o.found then (true, State(o.open, s.closed, o.parents, s.counter + 1))
    else (false, State(SortBy(o.open, FScore), s.closed[q.idx := q.f], o.parents, s.counter + 1))
  }

  /** A state that differs from s as one pass says is the pass's result. */
  lemma StepFrom(s: State, end: int, grid: BaseMap, found: bool, t: State)
    requires s.open != []
    requires var q := s.open[0];
      var o := OfferAll(s.open[1..], s.closed, s.parents, end, q, grid.ExitsOf(q.idx), grid);
      found == o.found && t.parents == o.parents && t.counter == s.counter + 1 &&
      (found ==> t.open == o.open && t.closed == s.closed) &&
      (!found ==> t.open == SortBy(o.open, FScore) && t.closed == s.closed[q.idx := q.f])
    ensures (found, t) == Step(s, end, grid)
  {
  }

  /** The search loop on values: passes until one reaches the end, the open
      list is empty or the step budget is spent. The flag says whether the
      end was reached. */
  ghost function Run(s: State, end: int, grid: BaseMap): (r: (bool, State))
    ensures !r.0 ==> r.1.open == [] || r.1.counter >= MAX_ASTAR_STEPS
    decreases MAX_ASTAR_STEPS - s.counter
  {
    if s.open == [] || s.counter >= MAX_ASTAR_STEPS then (false, s)
    else
      var t := Step(s, end, grid);
      if t.0 then t else Run(t.1, end, grid)
  }

  /** The loop runs one pass while its condition holds. */
  lemma RunStep(s: State, end: int, grid: BaseMap)
    requires s.open != [] && s.counter < MAX_ASTAR_STEPS
    ensures Run(s, end, grid) == if Step(s, end, grid).0 then Step(s, end, grid) else Run(Step(s, end, grid).1, end, grid)
  {
  }

  /** Where the search loop stops: within the budget, and, when the end was
      not reached, with an empty open list or a spent budget and the open
      list still sorted; when it was reached, with the end's parent recorded.
      Parent links stay exits of the map throughout. */
  lemma {:induction false} RunEnds(s: State, end: int, grid: BaseMap)
    requires s.counter <= MAX_ASTAR_STEPS
    ensures var r := Run(s, end, grid);
      s.counter <= r.1.counter <= MAX_ASTAR_STEPS &&
      (!r.0 ==> r.1.open == [] || r.1.counter == MAX_ASTAR_STEPS) &&
      (!r.0 && SortedBy(s.open, FScore) ==> SortedBy(r.1.open, FScore)) &&
      (r.0 ==> end in r.1.parents) &&
      (ParentsFollowExits(s.parents, grid) ==> ParentsFollowExits(r.1.parents, grid))
    decreases MAX_ASTAR_STEPS - s.counter
  {
    if s.open != [] && s.counter < MAX_ASTAR_STEPS {
      var q := s.open[0];
      OfferAllStops(s.open[1..], s.closed, s.parents, end, q, grid.ExitsOf(q.idx), grid);
      if ParentsFollowExits(s.parents, grid) {
        OfferAllFollowsExits(s.open[1..], s.closed, s.parents, end, q, grid);
      }
      var t := Step(s, end, grid);
      if !t.0 {
        RunEnds(t.1, end, grid);
      }
    }
  }

  class AStar {
    const start: int
    const end: int
    var openList: seq<Node>
    var closedList: map<int, int>
    var parents: map<int, int>
    var stepCounter: int

    /** new: only the start is open, with f, g and h all 0. */
    constructor (start: int, end: int)
      ensures this.start == start && this.end == end
      ensures openList == [Node(start, 0, 0, 0)]
      ensures closedList == map[] && parents == map[] && stepCounter == 0
    {
      this.start, this.end := start, end;
      openList := [Node(start, 0, 0, 0)];
      closedList, parents := map[], map[];
      stepCounter := 0;
    }

    /** The scan of the open list in add_successor: adding is allowed unless a
        node at the same cell has a strictly smaller f. */
    static method OpenAllows(open: seq<Node>, s: Node) returns (shouldAdd: bool)
      ensures shouldAdd <==> !OpenHasBetter(open, s)
    {
      shouldAdd := true;
      for i := 0 to |open|
        invariant shouldAdd <==> forall j :: 0 <= j < i ==> !(open[j].idx == s.idx && open[j].f < s.f)
      {
        if open[i].f < s.f && open[i].idx == s.idx {
          shouldAdd := false;
        }
      }
    }

    /** add_successor: reaching the end records its parent and reports success;
        any other cell is pushed, with its parent recorded, unless the open or
        the closed list holds it with a strictly smaller f. */
    method AddSuccessor(q: Node, idx: int, cost: int, grid: BaseMap) returns (found: bool)
      modifies this
      ensures found <==> idx == end
      ensures closedList == old(closedList) && stepCounter == old(stepCounter)
      ensures Offer(found, openList, parents) ==
        Successor(old(openList), old(closedList), old(parents), end, q, idx, cost, grid)
    {
      if idx == end {
        parents := parents[idx := q.idx];
        found := true;
      } else {
        var distance := grid.PathingDistance(idx, end);
        var s := Node(idx, distance + cost, cost, distance);
        var shouldAdd := OpenAllows(openList, s);
        if shouldAdd && idx in closedList && closedList[idx] < s.f {
          shouldAdd := false;
        }
        if shouldAdd {
          openList := openList + [s];
          parents := parents[idx := q.idx];
        }
        found := false;
      }
    }

    /** found_it: the parent chain from the end back to the start. None when
        there is none, where the source panics on a missing parent or loops. */
    method FoundIt() returns (r: Option<NavigationPath>)
      ensures r.Some? <==> exists p :: ParentChain(parents, start, end, p)
      ensures r.Some? ==>
        r.value.success && r.value.destination == end && ParentChain(parents, start, end, r.value.steps)
    {
      var steps := [end];
      var current := end;
      var fuel: nat := |parents|;
      while current != start
        invariant Unwind(parents, start, current, fuel, steps) == Unwind(parents, start, end, |parents|, [end])
        decreases fuel
      {
        if fuel == 0 || current !in parents {
          UnwindFindsChain(parents, start, end);
          return None;
        }
        var parent := parents[current];
        steps := [parent] + steps;
        current := parent;
        fuel := fuel - 1;
      }
      UnwindFindsChain(parents, start, end);
      r := Some(NavigationPath(end, true, steps));
    }

    /** One pass of the search loop: pop the head of the open list (the
        lowest f while the list is sorted), offer each exit of it at the exit's
        cost plus the head's f and, unless one of them is the end, close the
        head with its f and re-sort the open list by f. */
    method Expand(grid: BaseMap) returns (found: bool)
      requires openList != []
      modifies this
      ensures stepCounter == old(stepCounter) + 1
      ensures SortedBy(old(openList), FScore) ==>
        forall j :: 0 <= j < |old(openList)| ==> old(openList)[0].f <= old(openList)[j].f
      ensures var q := old(openList)[0];
        var o := OfferAll(old(openList)[1..], old(closedList), old(parents), end, q, grid.ExitsOf(q.idx), grid);
        found == o.found && parents == o.parents &&
        (found ==> openList == o.open && closedList == old(closedList)) &&
        (!found ==> openList == SortBy(o.open, FScore) && closedList == old(closedList)[q.idx := q.f])
      ensures (found, State(openList, closedList, parents, stepCounter)) ==
        Step(State(old(openList), old(closedList), old(parents), old(stepCounter)), end, grid)
    {
      stepCounter := stepCounter + 1;
      var q := openList[0];
      openList := openList[1..];
      found := OfferSuccessors(q, grid.ExitsOf(q.idx), grid);
      if !found {
        closedList := closedList[q.idx := q.f];
        openList := SortBy(openList, FScore);
      }
      StepFrom(State(old(openList), old(closedList), old(parents), old(stepCounter)), end, grid,
               found, State(openList, closedList, parents, stepCounter));
    }

    /** The for loop of search over the exits of q: add_successor for each,
        at its cost plus q's f, returning as soon as one is the end. */
    method OfferSuccessors(q: Node, successors: seq<Exit>, grid: BaseMap) returns (found: bool)
      modifies this
      ensures closedList == old(closedList) && stepCounter == old(stepCounter)
      ensures Offer(found, openList, parents) ==
        OfferAll(old(openList), old(closedList), old(parents), end, q, successors, grid)
    {
      found := false;
      for i := 0 to |successors|
        invariant closedList == old(closedList) && stepCounter == old(stepCounter)
        invariant OfferAll(openList, closedList, parents, end, q, successors[i..], grid) ==
          OfferAll(old(openList), closedList, old(parents), end, q, successors, grid)
      {
        assert successors[i..][1..] == successors[i + 1..];
        found := AddSuccessor(q, successors[i].idx, successors[i].cost + q.f, grid);
        if found {
          return;
        }
      }
      assert successors[|successors|..] == [];
    }

    /** search: expand the head of the open list until a successor is the
        end, the open list is empty or the step budget is spent. The fields
        end as Run says, and the empty path is returned exactly when the run
        did not reach the end. */
    method Search(grid: BaseMap) returns (r: Option<NavigationPath>)
      requires SortedBy(openList, FScore) && 0 <= stepCounter <= MAX_ASTAR_STEPS
      requires ParentsFollowExits(parents, grid)
      modifies this
      ensures var run := Run(State(old(openList), old(closedList), old(parents), old(stepCounter)), end, grid);
        State(openList, closedList, parents, stepCounter) == run.1 && (r == Some(NewPath()) <==> !run.0)
      ensures old(stepCounter) <= stepCounter <= MAX_ASTAR_STEPS
      ensures ParentsFollowExits(parents, grid)
      ensures r.Some? && !r.value.success ==>
        r.value == NewPath() && SortedBy(openList, FScore) && (openList == [] || stepCounter == MAX_ASTAR_STEPS)
      ensures r.Some? && r.value.success ==>
        end in parents && r.value.destination == end && ParentChain(parents, start, end, r.value.steps)
      ensures r.Some? && r.value.success ==>
        forall i :: 0 < i < |r.value.steps| ==> HasExitTo(grid.ExitsOf(r.value.steps[i - 1]), r.value.steps[i])
      ensures r.None? ==> end in parents && !exists p :: ParentChain(parents, start, end, p)
    {
      ghost var s0 := State(openList, closedList, parents, stepCounter);
      RunEnds(s0, end, grid);
      r := Some(NewPath());
      while openList != [] && stepCounter < MAX_ASTAR_STEPS
        invariant old(stepCounter) <= stepCounter <= MAX_ASTAR_STEPS
        invariant Run(State(openList, closedList, parents, stepCounter), end, grid) == Run(s0, end, grid)
        decreases MAX_ASTAR_STEPS - stepCounter
      {
        RunStep(State(openList, closedList, parents, stepCounter), end, grid);
        var found := Expand(grid);
        if found {
          r := FoundIt();
          if r.Some? {
            var steps := r.value.steps;
            forall k | 0 < k < |steps|
              ensures HasExitTo(grid.ExitsOf(steps[k - 1]), steps[k])
            {
              assert steps[k] in parents && parents[steps[k]] == steps[k - 1];
            }
          }
          return;
        }
      }
    }
  }

  /** a_star_search: a fresh searcher from start to end, run once. */
  method AStarSearch(start: int, end: int, grid: BaseMap) returns (r: Option<NavigationPath>)
    ensures var run := Run(State([Node(start, 0, 0, 0)], map[], map[], 0), end, grid);
      (r == Some(NewPath()) <==> !run.0) &&
      (r.Some? && r.value.success ==> ParentChain(run.1.parents, start, end, r.value.steps)) &&
      (r.None? ==> end in run.1.parents && !exists p :: ParentChain(run.1.parents, start, end, p))
    ensures r.Some? && !r.value.success ==> r.value == NewPath()
    ensures r.Some? && r.value.success ==>
      var steps := r.value.steps;
      r.value.destination == end && |steps| > 0 && steps[0] == start && steps[|steps| - 1] == end &&
      (forall i :: 0 < i < |steps| ==> steps[i] != start) &&
      (forall i :: 0 < i < |steps| ==> HasExitTo(grid.ExitsOf(steps[i - 1]), steps[i]))
  {
    var searcher := new AStar(start, end);
    r := searcher.Search(grid);
  }
}
