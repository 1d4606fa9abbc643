/**
 * Dijkstra's search (`dijkstra_t`). Each node carries a cost `c`; the open
 * list is a binary heap ordered by `best_cost_compare`; the open hash map and
 * the closed map are keyed by state handle. The cost callback returns an
 * unsigned value; it is modelled as an integer-valued function, and its
 * non-negativity is a precondition of the lemmas that need it.
 *
 * The heap is modelled by the node positions it holds (`open`); which one a
 * pop returns is left unconstrained, since the heap's ordering code is not
 * part of this model.
 *
 * An open node is re-costed with the bare edge cost `cost(cur, s)`, while a
 * new node gets `cur.c + cost(cur, s)`; the model keeps both as written.
 */
module Dijkstra {
  import opened SearchCore
  import opened Successors

  /** `default_cost_compare(c1, c2)`, which is `c2 - c1`. */
  function DefaultCostCompare(c1: int, c2: int): (r: int)
    ensures r < 0 <==> c2 < c1
    ensures r == 0 <==> c1 == c2
  {
    c2 - c1
  }

  /** The cost of the start node, the cost of a new node reached from node
      `from` (`from.c + cost(from, t)`), the cost an open node takes when it
      is re-parented onto `from` (the bare `cost(from, t)`), and the update
      test of an open node: `default_cost_compare(cost(from, t), stored c) <
      0`, which holds when the stored cost is SMALLER. */
  function Root<S>(): S -> int
  {
    s => 0
  }

  function Reach<S>(cost: (S, S) -> int): (Node<S, int>, S) -> int
  {
    (from: Node<S, int>, t) => from.score + cost(from.state, t)
  }

  function Rescore<S>(cost: (S, S) -> int): (Node<S, int>, S) -> int
  {
    (from: Node<S, int>, t) => cost(from.state, t)
  }

  function Fires<S>(cost: (S, S) -> int): (int, Node<S, int>, S) -> bool
  {
    (stored: int, from: Node<S, int>, t) => DefaultCostCompare(cost(from.state, t), stored) < 0
  }

  /** The goal test of the search loop: `compare(state, end) == 0`. */
  function Goal<S>(compare: (S, S) -> int, end: S): S -> bool
  {
    s => compare(s, end) == 0
  }

  /** In a node set scored as the driver scores it, every cost is
      non-negative and at most the sum of the edge costs along the path read
      back from the node: a re-parented node forgets the cost of its parent,
      so the cost can fall short of the path's. */
  lemma {:induction false} CostsBoundedByPath<S>(cost: (S, S) -> int, nodes: seq<Node<S, int>>,
                                                 depth: seq<nat>, i: nat)
    requires forall a: S, b: S :: 0 <= cost(a, b)
    requires ParentsBelow(nodes, depth) && i < |nodes|
    requires Scored(Reach(cost), Rescore(cost), Root<S>(), nodes)
    ensures 0 <= nodes[i].score <= PathCost(cost, nodes, depth, i)
    decreases depth[i]
  {
    match nodes[i].parent
    case None =>
    case Some(p) =>
      CostsBoundedByPath(cost, nodes, depth, p);
      var s := nodes[i].state;
      assert nodes[i].score == nodes[p].score + cost(nodes[p].state, s) ||
             nodes[i].score == cost(nodes[p].state, s);
  }

  /** An open node is re-costed only when its stored cost is smaller than the
      bare edge cost from the expanded node, never when it is larger. */
  lemma UpdateNeedsLargerCost<S>(cost: (S, S) -> int, stored: int, from: Node<S, int>, t: S)
    ensures Fires(cost)(stored, from, t) <==> stored < cost(from.state, t)
  {
  }

  /** The bare edge cost makes the stored cost differ from the path cost:
      with unit costs except 3 from state 1 to state 2, expanding node 1
      (state 1, cost 1) while node 2 (state 2, cost 1, parent the start
      node 0) is open re-parents node 2 onto node 1 with cost 3, whereas
      the path read back from it, 2, 1, 0, costs 4. */
  lemma BareCostIsNotPathCost()
    ensures var cost := (a: int, b: int) => if a == 1 && b == 2 then 3 else 1;
            var g := SearchTree([Node(None, 0, 0), Node(Some(0), 1, 1), Node(Some(0), 1, 2)],
                                [0, 1, 1], {2}, map[2 := 2]);
            var r := Relax(Reach(cost), Rescore(cost), Fires(cost), g, map[0 := 0], 1, 2);
            && r.nodes[2] == Node(Some(1), 3, 2)
            && PathCost(cost, r.nodes, r.depth, 2) == 4
  {
    var cost := (a: int, b: int) => if a == 1 && b == 2 then 3 else 1;
    var g := SearchTree([Node(None, 0, 0), Node(Some(0), 1, 1), Node(Some(0), 1, 2)],
                        [0, 1, 1], {2}, map[2 := 2]);
    var r := Relax(Reach(cost), Rescore(cost), Fires(cost), g, map[0 := 0], 1, 2);
    UpdateNeedsLargerCost(cost, 1, g.nodes[1], 2);
    assert Rescore(cost)(g.nodes[1], 2) == 3;
    assert r.nodes == [Node(None, 0, 0), Node(Some(0), 1, 1), Node(Some(1), 3, 2)];
    assert r.depth == [0, 1, 2];
    assert PathCost(cost, r.nodes, r.depth, 1) == 1;
  }

  class Dijkstra<S(==,0,!new)> {
    const compare: (S, S) -> int
    const cost: (S, S) -> int
    const successorsOf: S -> seq<S>
    const successors: Buffer<S>

    /** `node_path`: the goal node once a search has succeeded. */
    var nodePath: Option<nat>
    /** Every node allocated since the last cleanup. */
    var nodes: seq<Node<S, int>>
    /** `open_list`: the nodes in the heap. */
    var open: set<nat>
    /** `open_hash_map`: state to open node. */
    var openIndex: map<S, nat>
    /** `closed_list`: state to closed node. */
    var closed: map<S, nat>
    ghost var depth: seq<nat>

    ghost predicate Valid()
      reads this, successors
    {
      && successors.Valid()
      && Bookkeeping(nodes, depth, open, openIndex, closed)
      && (nodePath.Some? ==> nodePath.value < |nodes|)
    }

    /** `dijkstra_create`: stores the callbacks and creates a successor buffer of
        capacity 8 and empty open and closed collections. */
    constructor (compare: (S, S) -> int, cost: (S, S) -> int, successorsOf: S -> seq<S>)
      ensures Valid() && fresh(successors) && fresh(successors.data)
      ensures this.compare == compare && this.cost == cost && this.successorsOf == successorsOf
      ensures nodes == [] && open == {} && openIndex == map[] && closed == map[]
      ensures nodePath == None && successors.Contents() == [] && successors.data.Length == 8
    {
      this.compare := compare;
      this.cost := cost;
      this.successorsOf := successorsOf;
      successors := new Buffer.Create(8);
      nodePath := None;
      nodes := [];
      open := {};
      openIndex := map[];
      closed := map[];
      depth := [];
      new;
      EmptyBookkeeping<S, int>();
    }

    /** `dijkstra_cleanup`: asserts that the open hash map and the heap have the
        same size, then forgets the goal node, clears the successor buffer and
        empties the heap, the open hash map and the closed map. */
    method Cleanup()
      requires Valid()
      modifies this, successors`size
      ensures Valid() && successors.data == old(successors.data)
      ensures nodes == [] && open == {} && openIndex == map[] && closed == map[]
      ensures nodePath == None && successors.Contents() == []
    {
      OpenSizesAgree(nodes, open, openIndex);
      assert |openIndex| == |open|;
      nodePath := None;
      successors.Clear();
      open := {};
      openIndex := map[];
      closed := map[];
      nodes := [];
      depth := [];
      EmptyBookkeeping<S, int>();
    }

    /** Steps 1 and 2 of a search, shared by `dijkstra_find` and
        `dijkstra_iterative_init`: cleanup, then the start node with no parent
        and cost 0, in the heap and in the open hash map. */
    method Seed(start: S)
      requires Valid()
      modifies this, successors`size
      ensures Valid() && successors.data == old(successors.data) && successors.Contents() == []
      ensures Scored(Reach(cost), Rescore(cost), Root<S>(), nodes)
      ensures FollowsEdges(successorsOf, nodes)
      ensures nodes == [Node(None, 0, start)]
      ensures open == {0} && openIndex == map[start := 0] && closed == map[] && nodePath == None
    {
      Cleanup();
      nodes := [Node(None, 0, start)];
      depth := [0];
      open := {0};
      openIndex := map[start := 0];
      SeededBookkeeping(start, 0);
    }

    /** One successor handle `t` of the expanded node `cur`, as the body of
        the successor loop of step 3d treats it: a closed handle is skipped,
        or, with `iterative` set as in `dijkstra_iterative_find`, ends the
        step; for an open handle, with `c` the bare edge cost `cost(cur, t)`,
        the open node takes `cur` as parent and cost `c` only if
        `default_cost_compare(c, stored c) < 0`; otherwise a new node with
        parent `cur` and cost `cur.c + cost(cur, t)` joins the heap and the
        open hash map. The collections are passed in and the updated ones
        returned. */
    method Visit(nodes: seq<Node<S, int>>, ghost depth: seq<nat>, open: set<nat>,
                 openIndex: map<S, nat>, closed: map<S, nat>, cur: nat, t: S, iterative: bool)
      returns (nodes': seq<Node<S, int>>, ghost depth': seq<nat>, open': set<nat>,
               openIndex': map<S, nat>, stopped: bool)
      requires Addressed(SearchTree(nodes, depth, open, openIndex)) && cur < |nodes|
      ensures SearchTree(nodes', depth', open', openIndex') ==
              Relax(Reach(cost), Rescore(cost), Fires(cost), SearchTree(nodes, depth, open, openIndex), closed, cur, t)
      ensures stopped <==> iterative && t in closed
    {
      nodes', depth', open', openIndex', stopped := nodes, depth, open, openIndex, false;
      if t in closed {
        stopped := iterative;
      } else if t in openIndex {
        var j := openIndex[t];
        var c := cost(nodes[cur].state, t);
        if DefaultCostCompare(c, nodes[j].score) < 0 {
          nodes' := nodes[j := Node(Some(cur), c, nodes[j].state)];
          depth' := depth[j := depth[cur] + 1];
        }
      } else {
        var c := nodes[cur].score + cost(nodes[cur].state, t);
        nodes' := nodes + [Node(Some(cur), c, t)];
        depth' := depth + [depth[cur] + 1];
        open' := open + {|nodes|};
        openIndex' := openIndex[t := |nodes|];
      }
    }

    /** Step 3d of `dijkstra_find` for the expanded node `cur`: every handle in
        the successor buffer, in order, goes through `Visit`. */
    method Expand(nodes: seq<Node<S, int>>, ghost depth: seq<nat>, open: set<nat>,
                  openIndex: map<S, nat>, closed: map<S, nat>, cur: nat)
      returns (nodes': seq<Node<S, int>>, ghost depth': seq<nat>, open': set<nat>, openIndex': map<S, nat>)
      requires successors.Valid()
      requires Addressed(SearchTree(nodes, depth, open, openIndex)) && cur < |nodes|
      ensures SearchTree(nodes', depth', open', openIndex') ==
              RelaxAll(Reach(cost), Rescore(cost), Fires(cost),
                       SearchTree(nodes, depth, open, openIndex), closed, cur, successors.Contents())
    {
      ghost var buf := successors.Contents();
      ghost var reach, rescore, fires := Reach(cost), Rescore(cost), Fires(cost);
      nodes', depth', open', openIndex' := nodes, depth, open, openIndex;
      var i := 0;
      while i < successors.size
        invariant i <= successors.size
        invariant SearchTree(nodes', depth', open', openIndex') ==
                  RelaxAll(reach, rescore, fires, SearchTree(nodes, depth, open, openIndex), closed, cur, buf[..i])
      {
        var t := successors.Get(i);
        var stopped;
        nodes', depth', open', openIndex', stopped :=
          Visit(nodes', depth', open', openIndex', closed, cur, t, false);
        assert buf[..i + 1][..i] == buf[..i];
        i := i + 1;
      }
      assert buf[..i] == buf;
    }

    /** The successor loop of `dijkstra_iterative_find` for the expanded node
        `cur`: the handles in the buffer go through `Visit` in order until
        the first closed one, where the loop stops (`stopped`). */
    method ExpandUntilClosed(nodes: seq<Node<S, int>>, ghost depth: seq<nat>, open: set<nat>,
                             openIndex: map<S, nat>, closed: map<S, nat>, cur: nat)
      returns (nodes': seq<Node<S, int>>, ghost depth': seq<nat>, open': set<nat>,
               openIndex': map<S, nat>, stopped: bool)
      requires successors.Valid()
      requires Addressed(SearchTree(nodes, depth, open, openIndex)) && cur < |nodes|
      ensures SearchTree(nodes', depth', open', openIndex') ==
              RelaxAll(Reach(cost), Rescore(cost), Fires(cost),
                       SearchTree(nodes, depth, open, openIndex), closed, cur,
                       OpenRun(successors.Contents(), closed))
      ensures stopped <==> |OpenRun(successors.Contents(), closed)| < successors.size
    {
      ghost var buf := successors.Contents();
      ghost var reach, rescore, fires := Reach(cost), Rescore(cost), Fires(cost);
      nodes', depth', open', openIndex', stopped := nodes, depth, open, openIndex, false;
      var i := 0;
      while i < successors.size && !stopped
        invariant i <= successors.size
        invariant Scanned(buf, closed, i, stopped)
        invariant SearchTree(nodes', depth', open', openIndex') ==
                  RelaxAll(reach, rescore, fires, SearchTree(nodes, depth, open, openIndex), closed, cur, buf[..i])
      {
        var t := successors.Get(i);
        nodes', depth', open', openIndex', stopped :=
          Visit(nodes', depth', open', openIndex', closed, cur, t, true);
        ScannedStep(buf, closed, i, stopped);
        assert buf[..i + 1][..i] == buf[..i];
        i := i + 1;
      }
      ScannedRun(reach, rescore, fires, SearchTree(nodes, depth, open, openIndex), closed, cur, buf, i, stopped);
    }

    /** Steps 3c to 3e of `dijkstra_find` for the popped node `cur`: the
        successor callback fills the empty buffer with the successors of its
        state, `Expand` treats them, and the buffer is cleared. */
    method ExpandNode(nodes: seq<Node<S, int>>, ghost depth: seq<nat>, open: set<nat>,
                      openIndex: map<S, nat>, closed: map<S, nat>, cur: nat)
      returns (nodes': seq<Node<S, int>>, ghost depth': seq<nat>, open': set<nat>, openIndex': map<S, nat>)
      requires successors.Valid() && successors.Contents() == []
      requires Addressed(SearchTree(nodes, depth, open, openIndex)) && cur < |nodes|
      modifies successors, successors.data
      ensures successors.Valid() && successors.Contents() == []
      ensures successors.data == old(successors.data) || fresh(successors.data)
      ensures SearchTree(nodes', depth', open', openIndex') ==
              RelaxAll(Reach(cost), Rescore(cost), Fires(cost),
                       SearchTree(nodes, depth, open, openIndex), closed, cur, successorsOf(nodes[cur].state))
    {
      successors.PushAll(successorsOf(nodes[cur].state));
      assert successors.Contents() == successorsOf(nodes[cur].state);
      nodes', depth', open', openIndex' := Expand(nodes, depth, open, openIndex, closed, cur);
      successors.Clear();
    }

    /** What the search loop keeps between two rounds: the search invariant
        and, unless the goal node `path` has been found, an unfinished
        search. */
    ghost predicate Live(start: S, end: S, universe: set<S>,
                         nodes: seq<Node<S, int>>, depth: seq<nat>, open: set<nat>,
                         openIndex: map<S, nat>, closed: map<S, nat>, path: Option<nat>)
    {
      && Searching(successorsOf, Reach(cost), Rescore(cost), Root<S>(), start, universe,
                   nodes, depth, open, openIndex, closed)
      && (path.Some? ==> path.value < |nodes| && compare(nodes[path.value].state, end) == 0)
      && (path.None? ==> Unfinished(successorsOf, Goal(compare, end), start, openIndex, closed))
    }

    /** One round of the search loop of `dijkstra_find` (step 3), on the
        collections taken out of the object: some heap node is popped and its
        state dropped from the open hash map; when `compare(state, end) == 0`
        it is the goal node `path`, otherwise it is expanded through
        `ExpandNode`. Either way the popped node goes into the closed map.
        `universe` is a finite set of states closed under successors that
        holds every node's state. */
    method Step(start: S, end: S, ghost universe: set<S>,
                nodes: seq<Node<S, int>>, ghost depth: seq<nat>, open: set<nat>,
                openIndex: map<S, nat>, closed: map<S, nat>)
      returns (nodes': seq<Node<S, int>>, ghost depth': seq<nat>, open': set<nat>,
               openIndex': map<S, nat>, closed': map<S, nat>, path: Option<nat>, ghost popped: nat)
      requires successors.Valid() && successors.Contents() == [] && ClosedUnder(successorsOf, universe)
      requires Live(start, end, universe, nodes, depth, open, openIndex, closed, None) && |open| > 0
      modifies successors, successors.data
      ensures successors.Valid() && successors.Contents() == []
      ensures successors.data == old(successors.data) || fresh(successors.data)
      ensures popped in open && (path.Some? ==> path == Some(popped))
      ensures Round(SearchTree(nodes', depth', open', openIndex'), closed', path.Some?, []) ==
              FindRound(successorsOf, Reach(cost), Rescore(cost), Fires(cost), Goal(compare, end),
                        SearchTree(nodes, depth, open, openIndex), closed, popped)
      ensures Live(start, end, universe, nodes', depth', open', openIndex', closed', path)
      ensures Progress(universe, closed, open, closed', open')
    {
      var cur :| cur in open;
      popped := cur;
      OpenNodeIndexed(nodes, open, openIndex, cur);
      var u := nodes[cur].state;
      if compare(u, end) == 0 {
        PopCloseKeeps(successorsOf, Reach(cost), Rescore(cost), Root<S>(), start, universe,
                      nodes, depth, open, openIndex, closed, cur);
        nodes', depth', open', openIndex', path := nodes, depth, open - {cur}, openIndex - {u}, Some(cur);
      } else {
        ExpansionKeeps(successorsOf, Reach(cost), Rescore(cost), Fires(cost), Root<S>(),
                       Goal(compare, end), start, universe, nodes, depth, open, openIndex, closed, cur);
        nodes', depth', open', openIndex' := ExpandNode(nodes, depth, open - {cur}, openIndex - {u}, closed, cur);
        path := None;
      }
      closed' := closed[u := cur];
    }

        /** `Step` with its contract cut to what the loop of `Run` needs, so
        that the loop does not carry the description of the round. */
    method Advance(start: S, end: S, ghost universe: set<S>,
                   nodes: seq<Node<S, int>>, ghost depth: seq<nat>, open: set<nat>,
                   openIndex: map<S, nat>, closed: map<S, nat>)
      returns (nodes': seq<Node<S, int>>, ghost depth': seq<nat>, open': set<nat>,
               openIndex': map<S, nat>, closed': map<S, nat>, path: Option<nat>)
      requires successors.Valid() && successors.Contents() == [] && ClosedUnder(successorsOf, universe)
      requires Live(start, end, universe, nodes, depth, open, openIndex, closed, None) && |open| > 0
      modifies successors, successors.data
      ensures successors.Valid() && successors.Contents() == []
      ensures successors.data == old(successors.data) || fresh(successors.data)
      ensures Live(start, end, universe, nodes', depth', open', openIndex', closed', path)
      ensures Progress(universe, closed, open, closed', open')
    {
      ghost var popped;
      nodes', depth', open', openIndex', closed', path, popped :=
        Step(start, end, universe, nodes, depth, open, openIndex, closed);
    }

/** Step 3 of `dijkstra_find`: rounds of `Step` until a goal node is found
        or the heap is empty. The number of states of `universe` not yet
        closed, then the size of the heap, decreases with each round. */
    method Run(start: S, end: S, ghost universe: set<S>,
               nodes: seq<Node<S, int>>, ghost depth: seq<nat>, open: set<nat>,
               openIndex: map<S, nat>, closed: map<S, nat>)
      returns (nodes': seq<Node<S, int>>, ghost depth': seq<nat>, open': set<nat>,
               openIndex': map<S, nat>, closed': map<S, nat>, path: Option<nat>)
      requires successors.Valid() && successors.Contents() == [] && ClosedUnder(successorsOf, universe)
      requires Live(start, end, universe, nodes, depth, open, openIndex, closed, None)
      modifies successors, successors.data
      ensures successors.Valid() && successors.Contents() == []
      ensures successors.data == old(successors.data) || fresh(successors.data)
      ensures Live(start, end, universe, nodes', depth', open', openIndex', closed', path)
      ensures path.None? ==> open' == {}
    {
      nodes', depth', open', openIndex', closed', path := nodes, depth, open, openIndex, closed, None;
      while path.None? && |open'| > 0
        invariant successors.Valid() && successors.Contents() == []
        invariant successors.data == old(successors.data) || fresh(successors.data)
        invariant Live(start, end, universe, nodes', depth', open', openIndex', closed', path)
        decreases |universe - closed'.Keys|, |open'|
      {
        nodes', depth', open', openIndex', closed', path :=
          Advance(start, end, universe, nodes', depth', open', openIndex', closed');
      }
    }

    /** The body of `dijkstra_iterative_find` once a heap node `cur` is popped,
        on the collections taken out of the object: one `IterativeRound`,
        with `path` the popped node when it is the goal. */
    method IterativeStep(end: S, nodes: seq<Node<S, int>>, ghost depth: seq<nat>, open: set<nat>,
                         openIndex: map<S, nat>, closed: map<S, nat>, cur: nat)
      returns (nodes': seq<Node<S, int>>, ghost depth': seq<nat>, open': set<nat>,
               openIndex': map<S, nat>, closed': map<S, nat>, path: Option<nat>)
      requires successors.Valid() && Bookkeeping(nodes, depth, open, openIndex, closed) && cur in open
      modifies successors, successors.data
      ensures successors.Valid()
      ensures successors.data == old(successors.data) || fresh(successors.data)
      ensures path.Some? ==> path == Some(cur)
      ensures Round(SearchTree(nodes', depth', open', openIndex'), closed', path.Some?, successors.Contents()) ==
              IterativeRound(successorsOf, Reach(cost), Rescore(cost), Fires(cost), Goal(compare, end),
                             SearchTree(nodes, depth, open, openIndex), closed, old(successors.Contents()), cur)
    {
      PopKeeps(nodes, depth, open, openIndex, closed, cur);
      var u := nodes[cur].state;
      if compare(u, end) == 0 {
        RoundFindsGoal(successorsOf, Reach(cost), Rescore(cost), Fires(cost), Goal(compare, end),
                       SearchTree(nodes, depth, open, openIndex), closed, successors.Contents(), cur);
        nodes', depth', open', openIndex', closed', path :=
          nodes, depth, open - {cur}, openIndex - {u}, closed[u := cur], Some(cur);
      } else {
        RoundExpands(successorsOf, Reach(cost), Rescore(cost), Fires(cost), Goal(compare, end),
                     SearchTree(nodes, depth, open, openIndex), closed, successors.Contents(), cur);
        successors.PushAll(successorsOf(u));
        var stopped;
        nodes', depth', open', openIndex', stopped :=
          ExpandUntilClosed(nodes, depth, open - {cur}, openIndex - {u}, closed, cur);
        path := None;
        if stopped {
          closed' := closed;
        } else {
          successors.Clear();
          closed' := closed[u := cur];
        }
      }
    }

    /** Writes the collections of a finished search back into the object. */
    method Store(nodes: seq<Node<S, int>>, ghost depth: seq<nat>, open: set<nat>,
                 openIndex: map<S, nat>, closed: map<S, nat>, nodePath: Option<nat>)
      modifies this
      ensures this.nodes == nodes && this.depth == depth && this.open == open
      ensures this.openIndex == openIndex && this.closed == closed && this.nodePath == nodePath
    {
      this.nodes, this.depth, this.open, this.openIndex, this.closed, this.nodePath :=
        nodes, depth, open, openIndex, closed, nodePath;
    }

    /** Right after seeding, the search loop may start. */
    lemma SeededLive(start: S, end: S, universe: set<S>)
      requires start in universe
      ensures Live(start, end, universe, [Node(None, 0, start)], [0], {0}, map[start := 0], map[], None)
    {
      SeededSearching(successorsOf, Reach(cost), Rescore(cost), Root<S>(), Goal(compare, end),
                      start, universe);
    }

    /** When the search loop ends, the goal node found reads back a walk from
        `start`, and an exhausted search leaves no open node and no walk from
        `start` to a goal state. */
    lemma LiveEnds(start: S, end: S, universe: set<S>,
                   nodes: seq<Node<S, int>>, depth: seq<nat>, open: set<nat>,
                   openIndex: map<S, nat>, closed: map<S, nat>, path: Option<nat>)
      requires Live(start, end, universe, nodes, depth, open, openIndex, closed, path)
      requires path.None? ==> open == {}
      ensures Bookkeeping(nodes, depth, open, openIndex, closed)
      ensures Scored(Reach(cost), Rescore(cost), Root<S>(), nodes) && FollowsEdges(successorsOf, nodes)
      ensures |nodes| > 0 && nodes[0] == Node(None, 0, start)
      ensures path.Some? ==> path.value < |nodes| && compare(nodes[path.value].state, end) == 0
      ensures path.Some? ==> var p := PathFrom(nodes, depth, path.value);
                             p[|p| - 1] == start && IsBackWalk(successorsOf, p)
      ensures path.None? ==> openIndex == map[]
      ensures path.None? ==> forall w | IsWalk(successorsOf, w) && |w| > 0 && w[0] == start ::
                               compare(w[|w| - 1], end) != 0
    {
      SearchEnds(successorsOf, Reach(cost), Rescore(cost), Root<S>(), Goal(compare, end),
                 start, universe, nodes, depth, open, openIndex, closed, path);
    }

    /** `dijkstra_find`: cleanup and seeding, the search loop of `Run`, and the
        result stored back: `node_path` is the goal node found, if any.
        `universe` is a finite set of states closed under successors that
        holds `start`. */
    method Find(start: S, end: S, ghost universe: set<S>) returns (found: bool)
      requires Valid()
      requires start in universe && ClosedUnder(successorsOf, universe)
      modifies this, successors, successors.data
      ensures Valid() && successors.Contents() == []
      ensures Scored(Reach(cost), Rescore(cost), Root<S>(), nodes)
      ensures FollowsEdges(successorsOf, nodes)
      ensures |nodes| > 0 && nodes[0] == Node(None, 0, start)
      ensures found <==> nodePath.Some?
      ensures found ==> compare(nodes[nodePath.value].state, end) == 0
      ensures found ==> var path := PathFrom(nodes, depth, nodePath.value);
                        path[|path| - 1] == start && IsBackWalk(successorsOf, path)
      ensures !found ==> open == {} && openIndex == map[]
      ensures !found ==> forall w | IsWalk(successorsOf, w) && |w| > 0 && w[0] == start ::
                           compare(w[|w| - 1], end) != 0
    {
      Seed(start);
      SeededLive(start, end, universe);
      var nodes', depth', open', openIndex', closed', path :=
        Run(start, end, universe, nodes, depth, open, openIndex, closed);
      LiveEnds(start, end, universe, nodes', depth', open', openIndex', closed', path);
      Store(nodes', depth', open', openIndex', closed', path);
      found := path.Some?;
    }

    /** `dijkstra_first_node`: the goal node of the last successful search. */
    function FirstNode(): (n: Option<nat>)
      reads this, successors
      requires Valid()
      ensures n.Some? ==> n.value < |nodes|
    {
      nodePath
    }

    /** `dijkstra_state`: the state handle of node `i`, the first state of the
        path read back from it. */
    function StateOf(i: nat): (s: S)
      reads this, successors
      requires Valid() && i < |nodes|
      ensures s == PathFrom(nodes, depth, i)[0]
    {
      nodes[i].state
    }

    /** `dijkstra_next_node`: the parent of node `i`. Following it from node `i`
        reads the rest of the path back, and it is null only at the end. */
    function NextNode(i: nat): (n: Option<nat>)
      reads this, successors
      requires Valid() && i < |nodes|
      ensures n.None? ==> PathFrom(nodes, depth, i) == [StateOf(i)]
      ensures n.Some? ==> n.value < |nodes| && PathFrom(nodes, depth, i) == [StateOf(i)] + PathFrom(nodes, depth, n.value)
    {
      nodes[i].parent
    }

    /** `dijkstra_iterative_init`: `*found` is reset, then cleanup and seeding as
        in `dijkstra_find`. */
    method IterativeInit(start: S) returns (found: bool)
      requires Valid()
      modifies this, successors`size
      ensures Valid() && successors.data == old(successors.data) && successors.Contents() == []
      ensures Scored(Reach(cost), Rescore(cost), Root<S>(), nodes)
      ensures FollowsEdges(successorsOf, nodes)
      ensures nodes == [Node(None, 0, start)]
      ensures open == {0} && openIndex == map[start := 0] && closed == map[] && nodePath == None
      ensures !found
    {
      found := false;
      Seed(start);
    }

    /** `dijkstra_iterative_find`: one round of the search loop, taken only when
        `*found` is false and the heap is not empty (`popped` names the node
        it pops). The goal node is closed and becomes `node_path`. Any other
        node is expanded over the buffer, which holds what an earlier step
        left in it followed by the node's successors, up to the first closed
        handle; at such a handle the step returns without clearing the buffer
        and without closing the node. */
    method IterativeFind(end: S, found: bool) returns (found': bool, ghost popped: Option<nat>)
      requires Valid()
      modifies this, successors, successors.data
      ensures Valid()
      ensures successors.data == old(successors.data) || fresh(successors.data)
      ensures popped.None? <==> old(IterativeIsDone(found))
      ensures popped.None? ==>
                && found' == found && nodes == old(nodes) && open == old(open) && openIndex == old(openIndex)
                && closed == old(closed) && nodePath == old(nodePath)
                && successors.Contents() == old(successors.Contents())
      ensures popped.Some? ==>
                && popped.value in old(open)
                && nodePath == (if found' then popped else old(nodePath))
                && Round(SearchTree(nodes, depth, open, openIndex), closed, found', successors.Contents()) ==
                   IterativeRound(successorsOf, Reach(cost), Rescore(cost), Fires(cost),
                                  Goal(compare, end),
                                  old(SearchTree(nodes, depth, open, openIndex)), old(closed),
                                  old(successors.Contents()), popped.value)
    {
      found' := found;
      popped := None;
      if !found && |open| > 0 {
        var cur :| cur in open;
        ghost var r := IterativeRound(successorsOf, Reach(cost), Rescore(cost), Fires(cost), Goal(compare, end),
                                      SearchTree(nodes, depth, open, openIndex), closed, successors.Contents(), cur);
        IterativeRoundKeeps(successorsOf, Reach(cost), Rescore(cost), Fires(cost), Root<S>(),
                            Goal(compare, end), SearchTree(nodes, depth, open, openIndex), closed,
                            successors.Contents(), cur);
        var nodes', depth', open', openIndex', closed', path :=
          IterativeStep(end, nodes, depth, open, openIndex, closed, cur);
        assert Round(SearchTree(nodes', depth', open', openIndex'), closed', path.Some?, successors.Contents()) == r;
        popped := Some(cur);
        found' := path.Some?;
        Store(nodes', depth', open', openIndex', closed', if path.Some? then path else nodePath);
      }
    }

    /** `dijkstra_iterative_is_done`: `*found`, or the heap is empty. */
    function IterativeIsDone(found: bool): (done: bool)
      reads this, successors
      requires Valid()
      ensures done <==> found || openIndex == map[]
    {
      OpenSizesAgree(nodes, open, openIndex);
      found || |open| == 0
    }
  }
}
