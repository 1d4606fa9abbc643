/**
 * Breadth-first search (`breadthfs_t`). The open list is a linked list used
 * as a queue: nodes are taken from its front and new nodes inserted at its
 * back; the open hash map and the closed map are keyed by state handle, and
 * the goal test is `state == end`, pointer identity of the handles. A
 * successor handle that is closed or open is skipped; an iterative step
 * returns at the first such handle.
 *
 * Besides the invariants every driver keeps, the open list is first in,
 * first out: it holds the most recently added nodes in the order they were
 * added, so nodes are taken out level by level.
 */
module BreadthFirst {
  import opened SearchCore
  import opened ListSearch
  import opened Successors

  /** The open list holds the last `|list|` nodes added, oldest first. */
  ghost predicate Fifo(list: seq<nat>, n: nat)
  {
    |list| <= n && forall k | 0 <= k < |list| :: list[k] == n - |list| + k
  }

  /** The queue invariant of breadth-first search: the open list is first in,
      first out, the nodes are leveled and were added level by level, and the
      levels of the open nodes lie within one of each other. */
  ghost predicate Queue<S>(nodes: seq<Node<S, ()>>, depth: seq<nat>, list: seq<nat>)
  {
    && Fifo(list, |nodes|) && Leveled(nodes, depth)
    && (forall i, j | 0 <= i <= j < |nodes| :: depth[i] <= depth[j])
    && (forall i, j | |nodes| - |list| <= i <= j < |nodes| :: depth[j] <= depth[i] + 1)
  }

  /** Taking the front off a first-in first-out list and inserting the
      positions of the nodes added since at the back keeps it first in,
      first out. */
  lemma FifoRound(list: seq<nat>, n: nat, n': nat)
    requires Fifo(list, n) && list != [] && n <= n'
    ensures Fifo(list[1..] + Span(n, n'), n')
  {
    var list' := list[1..] + Span(n, n');
    forall k | 0 <= k < |list'|
      ensures list'[k] == n' - |list'| + k
    {
      if k >= |list| - 1 {
        assert list'[k] == Span(n, n')[k - (|list| - 1)];
      }
    }
  }

  /** The open positions after such a round: those before, less the front,
      and the positions of the nodes added since. */
  lemma FifoRoundElems(list: seq<nat>, n: nat, n': nat)
    requires Fifo(list, n) && list != [] && n <= n'
    ensures Elems(list[1..] + Span(n, n')) == (Elems(list) - {list[0]}) + Positions(n, n')
  {
    SpanSplit(n, n, n');
    forall x | x in Elems(list) - {list[0]}
      ensures x in list[1..]
    {
      var k :| 0 <= k < |list| && list[k] == x;
      assert list[1..][k - 1] == x;
    }
  }

  /** Nodes added one level below the front node `lo` of the open list keep
      the nodes leveled and the open levels within one of each other. */
  lemma LevelRound<S>(nodes: seq<Node<S, ()>>, depth: seq<nat>, lo: nat,
                      nodes': seq<Node<S, ()>>, depth': seq<nat>)
    requires Leveled(nodes, depth) && lo < |nodes|
    requires forall i, j | 0 <= i <= j < |nodes| :: depth[i] <= depth[j]
    requires forall i, j | lo <= i <= j < |nodes| :: depth[j] <= depth[i] + 1
    requires ParentsBelow(nodes', depth') && |nodes| <= |nodes'|
    requires nodes'[..|nodes|] == nodes && depth'[..|nodes|] == depth
    requires forall k | |nodes| <= k < |nodes'| ::
               nodes'[k].parent == Some(lo) && depth'[k] == depth[lo] + 1
    ensures Leveled(nodes', depth')
    ensures forall i, j | 0 <= i <= j < |nodes'| :: depth'[i] <= depth'[j]
    ensures forall i, j | lo + 1 <= i <= j < |nodes'| :: depth'[j] <= depth'[i] + 1
  {
    var n := |nodes|;
    LeveledGrows(nodes, depth, lo, nodes', depth');
    forall i, j | 0 <= i <= j < |nodes'|
      ensures depth'[i] <= depth'[j]
    {
      if i < n <= j {
        if i <= lo {
          assert depth[i] <= depth[lo];
        } else {
          assert depth[i] <= depth[lo] + 1;
        }
      }
    }
    forall i, j | lo + 1 <= i <= j < |nodes'|
      ensures depth'[j] <= depth'[i] + 1
    {
      if i < n <= j {
        assert depth[lo] <= depth[i];
      }
    }
  }

  /** Taking the front node off the open list and inserting at the back the
      nodes added for it, one level below it, keeps the queue invariant. */
  lemma QueueRound<S>(nodes: seq<Node<S, ()>>, depth: seq<nat>, list: seq<nat>,
                      nodes': seq<Node<S, ()>>, depth': seq<nat>)
    requires Queue(nodes, depth, list) && list != []
    requires ParentsBelow(nodes', depth') && |nodes| <= |nodes'|
    requires nodes'[..|nodes|] == nodes && depth'[..|nodes|] == depth
    requires forall k | |nodes| <= k < |nodes'| ::
               nodes'[k].parent == Some(list[0]) && depth'[k] == depth[list[0]] + 1
    ensures Queue(nodes', depth', list[1..] + Span(|nodes|, |nodes'|))
  {
    assert list[0] == |nodes| - |list|;
    FifoRound(list, |nodes|, |nodes'|);
    LevelRound(nodes, depth, list[0], nodes', depth');
  }

  /** One round of the search loop keeps the queue invariant: the front node
      `list[0]` is taken off the open list, and the nodes added while it was
      expanded, one level below it, are inserted at the back in the order
      they were added. */
  lemma QueueKeeps<S>(nodes: seq<Node<S, ()>>, depth: seq<nat>, list: seq<nat>, open: set<nat>,
                      openIndex: map<S, nat>, r: SearchTree<S, ()>, closed: map<S, nat>, seen: seq<S>)
    requires Queue(nodes, depth, list) && open == Elems(list) && list != []
    requires ParentsBelow(r.nodes, r.depth)
    requires OnlyAdded(SearchTree(nodes, depth, open - {list[0]}, openIndex), r, closed, list[0], seen)
    ensures |nodes| <= |r.nodes|
    ensures var list' := list[1..] + Span(|nodes|, |r.nodes|);
            Queue(r.nodes, r.depth, list') && r.open == Elems(list')
  {
    QueueRound(nodes, depth, list, r.nodes, r.depth);
    FifoRoundElems(list, |nodes|, |r.nodes|);
  }

  /** A round of `breadthfs_iterative_find` keeps the queue invariant: the
      front node is taken off the open list and the nodes it adds, one level
      below it, are inserted at the back, whether the round finds the goal,
      expands the node fully or returns early. */
  lemma IterativeQueueKeeps<S>(succ: S -> seq<S>, end: S, nodes: seq<Node<S, ()>>, depth: seq<nat>,
                               list: seq<nat>, open: set<nat>, openIndex: map<S, nat>, closed: map<S, nat>,
                               buf: seq<S>, r: Round<S, ()>)
    requires Bookkeeping(nodes, depth, open, openIndex, closed) && open == Elems(list)
    requires Queue(nodes, depth, list) && list != []
    requires r == ListRound(succ, end, SearchTree(nodes, depth, open, openIndex), closed, buf, list[0])
    ensures |nodes| <= |r.tree.nodes|
    ensures var list' := list[1..] + Span(|nodes|, |r.tree.nodes|);
            && Bookkeeping(r.tree.nodes, r.tree.depth, r.tree.open, r.tree.openIndex, r.closed)
            && r.tree.open == Elems(list') && Queue(r.tree.nodes, r.tree.depth, list')
  {
    var g := SearchTree(nodes, depth, open, openIndex);
    var cur := list[0];
    ListRoundKeeps(succ, end, g, closed, buf, cur);
    PopKeeps(nodes, depth, open, openIndex, closed, cur);
    var u := nodes[cur].state;
    var popped := SearchTree(nodes, depth, open - {cur}, openIndex - {u});
    if u == end {
      ListRoundFindsGoal(succ, end, g, closed, buf, cur);
      OnlyPushes(popped, closed, cur, []);
      QueueKeeps(nodes, depth, list, open, openIndex - {u}, r.tree, closed, []);
    } else {
      ListRoundExpands(succ, end, g, closed, buf, cur);
      var all := buf + succ(u);
      var seen := all[..FreshLength(all, closed.Keys + popped.openIndex.Keys)];
      OnlyPushes(popped, closed, cur, seen);
      QueueKeeps(nodes, depth, list, open, openIndex - {u}, r.tree, closed, seen);
    }
  }

  /** Breadth-first order: the front of the open list, the node taken out
      next, lies on the shallowest level of any open node, and every open
      node lies on that level or the next. */
  lemma FrontIsShallowest<S>(nodes: seq<Node<S, ()>>, depth: seq<nat>, list: seq<nat>)
    requires Queue(nodes, depth, list) && list != []
    ensures forall x | x in list :: x < |nodes| && depth[list[0]] <= depth[x] <= depth[list[0]] + 1
  {
    forall x | x in list
      ensures x < |nodes| && depth[list[0]] <= depth[x] <= depth[list[0]] + 1
    {
      var k :| 0 <= k < |list| && list[k] == x;
      assert list[0] == |nodes| - |list| <= x;
    }
  }

  class BreadthFirst<S(==,0,!new)> {
    const compare: (S, S) -> int
    const successorsOf: S -> seq<S>
    const successors: Buffer<S>

    /** `node_path`: the goal node once a search has succeeded. */
    var nodePath: Option<nat>
    /** Every node allocated since the last cleanup. */
    var nodes: seq<Node<S, ()>>
    /** `open_list`: the positions of the open nodes, front first. */
    var openList: seq<nat>
    /** The same positions, as a set. */
    ghost var open: set<nat>
    /** `open_hash_map`: state to open node. */
    var openIndex: map<S, nat>
    /** `closed_list`: state to closed node. */
    var closed: map<S, nat>
    ghost var depth: seq<nat>

    ghost predicate Valid()
      reads this, successors
    {
      && successors.Valid()
      && Bookkeeping(nodes, depth, open, openIndex, closed)
      && open == Elems(openList) && Queue(nodes, depth, openList)
      && (nodePath.Some? ==> nodePath.value < |nodes|)
    }

    /** `breadthfs_create`: stores the callbacks and creates a successor buffer
        of capacity 8, an empty open list and empty maps. The state hasher
        only serves the open hash map. */
    constructor (compare: (S, S) -> int, successorsOf: S -> seq<S>)
      ensures Valid() && fresh(successors) && fresh(successors.data)
      ensures this.compare == compare && this.successorsOf == successorsOf
      ensures nodes == [] && openList == [] && openIndex == map[] && closed == map[]
      ensures nodePath == None && successors.Contents() == [] && successors.data.Length == 8
    {
      this.compare := compare;
      this.successorsOf := successorsOf;
      successors := new Buffer.Create(8);
      nodePath := None;
      nodes := [];
      openList := [];
      open := {};
      openIndex := map[];
      closed := map[];
      depth := [];
      new;
      EmptyBookkeeping<S, ()>();
    }

    /** `breadthfs_cleanup`: asserts that the open hash map and the open list
        have the same size, then forgets the goal node, clears the successor
        buffer and empties the open list and both maps. */
    method Cleanup()
      requires Valid()
      modifies this, successors`size
      ensures Valid() && successors.data == old(successors.data)
      ensures nodes == [] && openList == [] && openIndex == map[] && closed == map[]
      ensures nodePath == None && successors.Contents() == []
    {
      OpenSizesAgree(nodes, open, openIndex);
      DistinctCard(openList);
      assert |openIndex| == |openList|;
      Reset();
    }

    /** The second half of `breadthfs_cleanup`: forgets the goal node, clears
        the successor buffer and empties the open list and both maps,
        whatever they held. */
    method Reset()
      requires successors.Valid()
      modifies this, successors`size
      ensures Valid() && successors.data == old(successors.data)
      ensures nodes == [] && openList == [] && openIndex == map[] && closed == map[]
      ensures nodePath == None && successors.Contents() == []
    {
      successors.Clear();
      nodePath := None;
      openList := [];
      open := {};
      openIndex := map[];
      closed := map[];
      nodes := [];
      depth := [];
      EmptyBookkeeping<S, ()>();
    }

    /** Steps 1 and 2 of a search, shared by `breadthfs_find` and
        `breadthfs_iterative_init`: cleanup, then the start node with no
        parent at the back of the open list and in the open hash map. */
    method Seed(start: S)
      requires Valid()
      modifies this, successors`size
      ensures Valid() && successors.data == old(successors.data) && successors.Contents() == []
      ensures FollowsEdges(successorsOf, nodes)
      ensures nodes == [Node(None, (), start)]
      ensures openList == [0] && openIndex == map[start := 0] && closed == map[] && nodePath == None
    {
      Cleanup();
      nodes := [Node(None, (), start)];
      depth := [0];
      openList := [0];
      open := {0};
      openIndex := map[start := 0];
      SeededBookkeeping(start, ());
    }

    /** One successor handle `t` of the expanded node `cur`, as the body of
        the successor loop of step 3d treats it: a closed or open handle is
        skipped, or, with `iterative` set as in `breadthfs_iterative_find`,
        ends the step; any other handle becomes a new node with parent `cur`,
        inserted at the back of the open list and in the open hash map. The
        collections are passed in and the updated ones returned. */
    method Visit(nodes: seq<Node<S, ()>>, ghost depth: seq<nat>, openList: seq<nat>, ghost open: set<nat>,
                 openIndex: map<S, nat>, closed: map<S, nat>, cur: nat, t: S, iterative: bool)
      returns (nodes': seq<Node<S, ()>>, ghost depth': seq<nat>, openList': seq<nat>, ghost open': set<nat>,
               openIndex': map<S, nat>, stopped: bool)
      requires Addressed(SearchTree(nodes, depth, open, openIndex)) && cur < |nodes|
      ensures SearchTree(nodes', depth', open', openIndex') ==
              Relax(Unscored(), Unscored(), Never(), SearchTree(nodes, depth, open, openIndex), closed, cur, t)
      ensures openList' == openList + Span(|nodes|, |nodes'|)
      ensures stopped <==> iterative && (t in closed || t in openIndex)
    {
      nodes', depth', openList', open', openIndex', stopped := nodes, depth, openList, open, openIndex, false;
      if t in closed {
        stopped := iterative;
      } else if t in openIndex {
        stopped := iterative;
      } else {
        nodes' := nodes + [Node(Some(cur), (), t)];
        depth' := depth + [depth[cur] + 1];
        openList' := openList + [|nodes|];
        open' := open + {|nodes|};
        openIndex' := openIndex[t := |nodes|];
      }
    }

    /** Step 3d of `breadthfs_find` for the expanded node `cur`: every handle
        in the successor buffer, in order, goes through `Visit`. */
    method Expand(nodes: seq<Node<S, ()>>, ghost depth: seq<nat>, openList: seq<nat>, ghost open: set<nat>,
                  openIndex: map<S, nat>, closed: map<S, nat>, cur: nat)
      returns (nodes': seq<Node<S, ()>>, ghost depth': seq<nat>, openList': seq<nat>, ghost open': set<nat>,
               openIndex': map<S, nat>)
      requires successors.Valid()
      requires Addressed(SearchTree(nodes, depth, open, openIndex)) && cur < |nodes|
      ensures SearchTree(nodes', depth', open', openIndex') ==
              RelaxAll(Unscored(), Unscored(), Never(),
                       SearchTree(nodes, depth, open, openIndex), closed, cur, successors.Contents())
      ensures openList' == openList + Span(|nodes|, |nodes'|)
    {
      ghost var buf := successors.Contents();
      ghost var reach, fires := Unscored<S>(), Never<S>();
      nodes', depth', openList', open', openIndex' := nodes, depth, openList, open, openIndex;
      var i := 0;
      while i < successors.size
        invariant i <= successors.size
        invariant SearchTree(nodes', depth', open', openIndex') ==
                  RelaxAll(reach, reach, fires, SearchTree(nodes, depth, open, openIndex), closed, cur, buf[..i])
        invariant openList' == openList + Span(|nodes|, |nodes'|)
      {
        var t := successors.Get(i);
        ghost var size := |nodes'|;
        var stopped;
        nodes', depth', openList', open', openIndex', stopped :=
          Visit(nodes', depth', openList', open', openIndex', closed, cur, t, false);
        AppendSpans(openList, |nodes|, size, |nodes'|);
        assert buf[..i + 1][..i] == buf[..i];
        i := i + 1;
      }
      assert buf[..i] == buf;
    }

    /** The successor loop of `breadthfs_iterative_find` for the expanded
        node `cur`: the handles in the buffer go through `Visit` in order
        until the first one that is closed or open, where the loop stops
        (`stopped`). */
    method ExpandUntilTaken(nodes: seq<Node<S, ()>>, ghost depth: seq<nat>, openList: seq<nat>, ghost open: set<nat>,
                            openIndex: map<S, nat>, closed: map<S, nat>, cur: nat)
      returns (nodes': seq<Node<S, ()>>, ghost depth': seq<nat>, openList': seq<nat>, ghost open': set<nat>,
               openIndex': map<S, nat>, stopped: bool)
      requires successors.Valid()
      requires Addressed(SearchTree(nodes, depth, open, openIndex)) && cur < |nodes|
      ensures var n := FreshLength(successors.Contents(), closed.Keys + openIndex.Keys);
              && SearchTree(nodes', depth', open', openIndex') ==
                 RelaxAll(Unscored(), Unscored(), Never(),
                          SearchTree(nodes, depth, open, openIndex), closed, cur, successors.Contents()[..n])
              && (stopped <==> n < successors.size)
      ensures openList' == openList + Span(|nodes|, |nodes'|)
    {
      ghost var buf := successors.Contents();
      ghost var g := SearchTree(nodes, depth, open, openIndex);
      ghost var taken := closed.Keys + openIndex.Keys;
      ghost var reach, fires := Unscored<S>(), Never<S>();
      nodes', depth', openList', open', openIndex', stopped := nodes, depth, openList, open, openIndex, false;
      var i := 0;
      while i < successors.size && !stopped
        invariant i <= successors.size
        invariant FreshScanned(buf, taken, i, stopped)
        invariant SearchTree(nodes', depth', open', openIndex') == RelaxAll(reach, reach, fires, g, closed, cur, buf[..i])
        invariant openList' == openList + Span(|nodes|, |nodes'|)
      {
        var t := successors.Get(i);
        ScanStep(g, closed, cur, buf, i);
        ghost var size := |nodes'|;
        nodes', depth', openList', open', openIndex', stopped :=
          Visit(nodes', depth', openList', open', openIndex', closed, cur, t, true);
        AppendSpans(openList, |nodes|, size, |nodes'|);
        i := i + 1;
      }
      FreshScannedRun(g, closed, cur, buf, i, stopped);
    }

    /** Steps 3c to 3e of `breadthfs_find` for the taken node `cur`: the
        successor callback fills the empty buffer with the successors of its
        state, `Expand` treats them, and the buffer is cleared. */
    method ExpandNode(nodes: seq<Node<S, ()>>, ghost depth: seq<nat>, openList: seq<nat>, ghost open: set<nat>,
                      openIndex: map<S, nat>, closed: map<S, nat>, cur: nat)
      returns (nodes': seq<Node<S, ()>>, ghost depth': seq<nat>, openList': seq<nat>, ghost open': set<nat>,
               openIndex': map<S, nat>)
      requires successors.Valid() && successors.Contents() == []
      requires Addressed(SearchTree(nodes, depth, open, openIndex)) && cur < |nodes|
      modifies successors, successors.data
      ensures successors.Valid() && successors.Contents() == []
      ensures successors.data == old(successors.data) || fresh(successors.data)
      ensures SearchTree(nodes', depth', open', openIndex') ==
              RelaxAll(Unscored(), Unscored(), Never(),
                       SearchTree(nodes, depth, open, openIndex), closed, cur, successorsOf(nodes[cur].state))
      ensures openList' == openList + Span(|nodes|, |nodes'|)
    {
      successors.PushAll(successorsOf(nodes[cur].state));
      assert successors.Contents() == successorsOf(nodes[cur].state);
      nodes', depth', openList', open', openIndex' := Expand(nodes, depth, openList, open, openIndex, closed, cur);
      successors.Clear();
    }

    /** What the search loop keeps between two rounds: the search invariant,
        the queue invariant and, unless the goal node `path` has been found,
        an unfinished search. */
    ghost predicate Live(start: S, end: S, universe: set<S>,
                         nodes: seq<Node<S, ()>>, depth: seq<nat>, openList: seq<nat>, open: set<nat>,
                         openIndex: map<S, nat>, closed: map<S, nat>, path: Option<nat>)
    {
      && Searching(successorsOf, Unscored(), Unscored(), Unrooted(), start, universe,
                   nodes, depth, open, openIndex, closed)
      && open == Elems(openList) && Queue(nodes, depth, openList)
      && (path.Some? ==> path.value < |nodes| && nodes[path.value].state == end)
      && (path.None? ==> Unfinished(successorsOf, IsEnd(end), start, openIndex, closed))
    }

    /** One round of the search loop of `breadthfs_find` (step 3), on the
        collections taken out of the object: the front node of the open list
        is taken off and its state dropped from the open hash map; when its
        state is `end` it is the goal node `path`, otherwise it is expanded
        through `ExpandNode`. Either way it goes into the closed map.
        `universe` is a finite set of states closed under successors that
        holds every node's state. */
    method Step(start: S, end: S, ghost universe: set<S>,
                nodes: seq<Node<S, ()>>, ghost depth: seq<nat>, openList: seq<nat>, ghost open: set<nat>,
                openIndex: map<S, nat>, closed: map<S, nat>)
      returns (nodes': seq<Node<S, ()>>, ghost depth': seq<nat>, openList': seq<nat>, ghost open': set<nat>,
               openIndex': map<S, nat>, closed': map<S, nat>, path: Option<nat>)
      requires successors.Valid() && successors.Contents() == [] && ClosedUnder(successorsOf, universe)
      requires Live(start, end, universe, nodes, depth, openList, open, openIndex, closed, None) && |openList| > 0
      modifies successors, successors.data
      ensures successors.Valid() && successors.Contents() == []
      ensures successors.data == old(successors.data) || fresh(successors.data)
      ensures path.Some? ==> path == Some(openList[0])
      ensures Round(SearchTree(nodes', depth', open', openIndex'), closed', path.Some?, []) ==
              FindRound(successorsOf, Unscored(), Unscored(), Never(), IsEnd(end),
                        SearchTree(nodes, depth, open, openIndex), closed, openList[0])
      ensures Live(start, end, universe, nodes', depth', openList', open', openIndex', closed', path)
      ensures |nodes| <= |nodes'| && openList' == openList[1..] + Span(|nodes|, |nodes'|)
      ensures Progress(universe, closed, open, closed', open')
    {
      var cur := openList[0];
      PopKeeps(nodes, depth, open, openIndex, closed, cur);
      var u := nodes[cur].state;
      if u == end {
        nodes', depth', openList', open', openIndex', path :=
          nodes, depth, openList[1..], open - {cur}, openIndex - {u}, Some(cur);
        AppendNoSpan(openList', |nodes|);
      } else {
        nodes', depth', openList', open', openIndex' :=
          ExpandNode(nodes, depth, openList[1..], open - {cur}, openIndex - {u}, closed, cur);
        path := None;
      }
      closed' := closed[u := cur];
      StepKeeps(start, end, universe, nodes, depth, openList, open, openIndex, closed,
                SearchTree(nodes', depth', open', openIndex'), openList', path);
    }

    /** What one round of `Step` proves: from a live search, taking the
        front node `cur` off the open list, and either finding it to be the
        goal or expanding it into `r`, with the added nodes at the back of
        the open list, and closing it, gives a live search that has made
        progress. */
    lemma StepKeeps(start: S, end: S, universe: set<S>,
                    nodes: seq<Node<S, ()>>, depth: seq<nat>, openList: seq<nat>, open: set<nat>,
                    openIndex: map<S, nat>, closed: map<S, nat>,
                    r: SearchTree<S, ()>, openList': seq<nat>, path: Option<nat>)
      requires ClosedUnder(successorsOf, universe)
      requires Live(start, end, universe, nodes, depth, openList, open, openIndex, closed, None)
      requires openList != [] && openList[0] < |nodes|
      requires var cur := openList[0];
               var u := nodes[cur].state;
               var popped := SearchTree(nodes, depth, open - {cur}, openIndex - {u});
               && path == (if u == end then Some(cur) else None)
               && (u == end ==> r == popped)
               && (u != end ==> Addressed(popped) &&
                                r == RelaxAll(Unscored(), Unscored(), Never(), popped, closed, cur, successorsOf(u)))
      requires |nodes| <= |r.nodes| && openList' == openList[1..] + Span(|nodes|, |r.nodes|)
      ensures var cur := openList[0];
              var closed' := closed[nodes[cur].state := cur];
              && Live(start, end, universe, r.nodes, r.depth, openList', r.open, r.openIndex, closed', path)
              && Progress(universe, closed, open, closed', r.open)
    {
      var cur := openList[0];
      var u := nodes[cur].state;
      var popped := SearchTree(nodes, depth, open - {cur}, openIndex - {u});
      if u == end {
        PopCloseKeeps(successorsOf, Unscored(), Unscored(), Unrooted(), start, universe,
                      nodes, depth, open, openIndex, closed, cur);
        OnlyPushes(popped, closed, cur, []);
        QueueKeeps(nodes, depth, openList, open, openIndex - {u}, r, closed, []);
      } else {
        ExpansionKeeps(successorsOf, Unscored(), Unscored(), Never(), Unrooted(),
                       IsEnd(end), start, universe, nodes, depth, open, openIndex, closed, cur);
        OnlyPushes(popped, closed, cur, successorsOf(u));
        QueueKeeps(nodes, depth, openList, open, openIndex - {u}, r, closed, successorsOf(u));
      }
    }

        /** `Step` with its contract cut to what the loop of `Run` needs, so
        that the loop does not carry the description of the round. */
    method Advance(start: S, end: S, ghost universe: set<S>,
                   nodes: seq<Node<S, ()>>, ghost depth: seq<nat>, openList: seq<nat>, ghost open: set<nat>,
                   openIndex: map<S, nat>, closed: map<S, nat>)
      returns (nodes': seq<Node<S, ()>>, ghost depth': seq<nat>, openList': seq<nat>, ghost open': set<nat>,
               openIndex': map<S, nat>, closed': map<S, nat>, path: Option<nat>)
      requires successors.Valid() && successors.Contents() == [] && ClosedUnder(successorsOf, universe)
      requires Live(start, end, universe, nodes, depth, openList, open, openIndex, closed, None) && |openList| > 0
      modifies successors, successors.data
      ensures successors.Valid() && successors.Contents() == []
      ensures successors.data == old(successors.data) || fresh(successors.data)
      ensures Live(start, end, universe, nodes', depth', openList', open', openIndex', closed', path)
      ensures Progress(universe, closed, open, closed', open')
    {
      nodes', depth', openList', open', openIndex', closed', path :=
        Step(start, end, universe, nodes, depth, openList, open, openIndex, closed);
    }

/** Step 3 of `breadthfs_find`: rounds of `Step` until a goal node is
        found or the open list is empty. The number of states of `universe`
        not yet closed, then the number of open nodes, decreases with each
        round. */
    method Run(start: S, end: S, ghost universe: set<S>,
               nodes: seq<Node<S, ()>>, ghost depth: seq<nat>, openList: seq<nat>, ghost open: set<nat>,
               openIndex: map<S, nat>, closed: map<S, nat>)
      returns (nodes': seq<Node<S, ()>>, ghost depth': seq<nat>, openList': seq<nat>, ghost open': set<nat>,
               openIndex': map<S, nat>, closed': map<S, nat>, path: Option<nat>)
      requires successors.Valid() && successors.Contents() == [] && ClosedUnder(successorsOf, universe)
      requires Live(start, end, universe, nodes, depth, openList, open, openIndex, closed, None)
      modifies successors, successors.data
      ensures successors.Valid() && successors.Contents() == []
      ensures successors.data == old(successors.data) || fresh(successors.data)
      ensures Live(start, end, universe, nodes', depth', openList', open', openIndex', closed', path)
      ensures path.None? ==> openList' == []
    {
      nodes', depth', openList', open', openIndex', closed', path :=
        nodes, depth, openList, open, openIndex, closed, None;
      while path.None? && |openList'| > 0
        invariant successors.Valid() && successors.Contents() == []
        invariant successors.data == old(successors.data) || fresh(successors.data)
        invariant Live(start, end, universe, nodes', depth', openList', open', openIndex', closed', path)
        decreases |universe - closed'.Keys|, |open'|
      {
        nodes', depth', openList', open', openIndex', closed', path :=
          Advance(start, end, universe, nodes', depth', openList', open', openIndex', closed');
      }
    }

    /** The body of `breadthfs_iterative_find` once the front node `cur` is
        taken off the open list, on the collections taken out of the object:
        one `ListRound`, with `path` the node taken when it is the goal. */
    method IterativeStep(end: S, nodes: seq<Node<S, ()>>, ghost depth: seq<nat>, openList: seq<nat>,
                         ghost open: set<nat>, openIndex: map<S, nat>, closed: map<S, nat>)
      returns (nodes': seq<Node<S, ()>>, ghost depth': seq<nat>, openList': seq<nat>, ghost open': set<nat>,
               openIndex': map<S, nat>, closed': map<S, nat>, path: Option<nat>)
      requires successors.Valid() && Bookkeeping(nodes, depth, open, openIndex, closed)
      requires open == Elems(openList) && openList != []
      modifies successors, successors.data
      ensures successors.Valid()
      ensures successors.data == old(successors.data) || fresh(successors.data)
      ensures path.Some? ==> path == Some(openList[0])
      ensures Round(SearchTree(nodes', depth', open', openIndex'), closed', path.Some?, successors.Contents()) ==
              ListRound(successorsOf, end, SearchTree(nodes, depth, open, openIndex), closed,
                        old(successors.Contents()), openList[0])
      ensures |nodes| <= |nodes'| && openList' == openList[1..] + Span(|nodes|, |nodes'|)
    {
      var cur := openList[0];
      PopKeeps(nodes, depth, open, openIndex, closed, cur);
      var u := nodes[cur].state;
      if u == end {
        ListRoundFindsGoal(successorsOf, end, SearchTree(nodes, depth, open, openIndex), closed,
                           successors.Contents(), cur);
        nodes', depth', openList', open', openIndex', closed', path :=
          nodes, depth, openList[1..], open - {cur}, openIndex - {u}, closed[u := cur], Some(cur);
        AppendNoSpan(openList', |nodes|);
      } else {
        ListRoundExpands(successorsOf, end, SearchTree(nodes, depth, open, openIndex), closed,
                         successors.Contents(), cur);
        successors.PushAll(successorsOf(u));
        var stopped;
        nodes', depth', openList', open', openIndex', stopped :=
          ExpandUntilTaken(nodes, depth, openList[1..], open - {cur}, openIndex - {u}, closed, cur);
        path := None;
        if stopped {
          closed' := closed;
        } else {
          successors.Clear();
          closed' := closed[u := cur];
        }
      }
    }

    /** Writes the collections of a finished search back into the object. */
    method Store(nodes: seq<Node<S, ()>>, ghost depth: seq<nat>, openList: seq<nat>, ghost open: set<nat>,
                 openIndex: map<S, nat>, closed: map<S, nat>, nodePath: Option<nat>)
      modifies this
      ensures this.nodes == nodes && this.depth == depth && this.openList == openList && this.open == open
      ensures this.openIndex == openIndex && this.closed == closed && this.nodePath == nodePath
    {
      this.nodes, this.depth, this.openList, this.open, this.openIndex, this.closed, this.nodePath :=
        nodes, depth, openList, open, openIndex, closed, nodePath;
    }

    /** Right after seeding, the search loop may start. */
    lemma SeededLive(start: S, end: S, universe: set<S>)
      requires start in universe
      ensures Live(start, end, universe, [Node(None, (), start)], [0], [0], {0}, map[start := 0], map[], None)
    {
      SeededSearching(successorsOf, Unscored(), Unscored(), Unrooted(), IsEnd(end), start, universe);
      assert Span(0, 1) == [0];
    }

    /** When the search loop ends, the goal node found reads back a walk from
        `start` whose length is its level, and an exhausted search leaves no
        open node and no walk from `start` to `end`. */
    lemma LiveEnds(start: S, end: S, universe: set<S>,
                   nodes: seq<Node<S, ()>>, depth: seq<nat>, openList: seq<nat>, open: set<nat>,
                   openIndex: map<S, nat>, closed: map<S, nat>, path: Option<nat>)
      requires Live(start, end, universe, nodes, depth, openList, open, openIndex, closed, path)
      requires path.None? ==> openList == []
      ensures Bookkeeping(nodes, depth, open, openIndex, closed) && FollowsEdges(successorsOf, nodes)
      ensures |nodes| > 0 && nodes[0] == Node(None, (), start)
      ensures path.Some? ==> path.value < |nodes| && nodes[path.value].state == end
      ensures path.Some? ==> var p := PathFrom(nodes, depth, path.value);
                             && p[|p| - 1] == start && IsBackWalk(successorsOf, p)
                             && |p| == depth[path.value] + 1
      ensures path.None? ==> openIndex == map[]
      ensures path.None? ==> forall w | IsWalk(successorsOf, w) && |w| > 0 && w[0] == start :: w[|w| - 1] != end
    {
      SearchEnds(successorsOf, Unscored(), Unscored(), Unrooted(), IsEnd(end),
                 start, universe, nodes, depth, open, openIndex, closed, path);
      if path.Some? {
        LevelIsPathLength(nodes, depth, path.value);
      }
    }

    /** `breadthfs_find`: cleanup and seeding, the search loop of `Run`, and
        the result stored back: `node_path` is the goal node found, if any.
        `universe` is a finite set of states closed under successors that
        holds `start`. */
    method Find(start: S, end: S, ghost universe: set<S>) returns (found: bool)
      requires Valid()
      requires start in universe && ClosedUnder(successorsOf, universe)
      modifies this, successors, successors.data
      ensures Valid() && successors.Contents() == []
      ensures FollowsEdges(successorsOf, nodes)
      ensures |nodes| > 0 && nodes[0] == Node(None, (), start)
      ensures found <==> nodePath.Some?
      ensures found ==> nodes[nodePath.value].state == end
      ensures found ==> var path := PathFrom(nodes, depth, nodePath.value);
                        && path[|path| - 1] == start && IsBackWalk(successorsOf, path)
                        && |path| == depth[nodePath.value] + 1
      ensures !found ==> openList == [] && openIndex == map[]
      ensures !found ==> forall w | IsWalk(successorsOf, w) && |w| > 0 && w[0] == start :: w[|w| - 1] != end
    {
      Seed(start);
      SeededLive(start, end, universe);
      var nodes', depth', openList', open', openIndex', closed', path :=
        Run(start, end, universe, nodes, depth, openList, open, openIndex, closed);
      LiveEnds(start, end, universe, nodes', depth', openList', open', openIndex', closed', path);
      Store(nodes', depth', openList', open', openIndex', closed', path);
      found := path.Some?;
    }

    /** `breadthfs_first_node`: the goal node of the last successful search. */
    function FirstNode(): (n: Option<nat>)
      reads this, successors
      requires Valid()
      ensures n.Some? ==> n.value < |nodes|
    {
      nodePath
    }

    /** `breadthfs_state`: the state handle of node `i`, the first state of
        the path read back from it. */
    function StateOf(i: nat): (s: S)
      reads this, successors
      requires Valid() && i < |nodes|
      ensures s == PathFrom(nodes, depth, i)[0]
    {
      nodes[i].state
    }

    /** `breadthfs_next_node`: the parent of node `i`. Following it from node
        `i` reads the rest of the path back, and it is null only at the end. */
    function NextNode(i: nat): (n: Option<nat>)
      reads this, successors
      requires Valid() && i < |nodes|
      ensures n.None? ==> PathFrom(nodes, depth, i) == [StateOf(i)]
      ensures n.Some? ==> n.value < |nodes| && PathFrom(nodes, depth, i) == [StateOf(i)] + PathFrom(nodes, depth, n.value)
    {
      nodes[i].parent
    }

    /** `breadthfs_iterative_init`: `*found` is reset, then cleanup and
        seeding as in `breadthfs_find`. */
    method IterativeInit(start: S) returns (found: bool)
      requires Valid()
      modifies this, successors`size
      ensures Valid() && successors.data == old(successors.data) && successors.Contents() == []
      ensures FollowsEdges(successorsOf, nodes)
      ensures nodes == [Node(None, (), start)]
      ensures openList == [0] && openIndex == map[start := 0] && closed == map[] && nodePath == None
      ensures !found
    {
      found := false;
      Seed(start);
    }

    /** `breadthfs_iterative_find`: one round of the search loop, taken only
        when `*found` is false and the open list is not empty. The front node
        is taken off the open list. When its state is `end` it is closed and
        becomes `node_path`. Otherwise it is expanded over the buffer, which
        holds what an earlier step left in it followed by the node's
        successors, up to the first handle that is closed or open; at such a
        handle the step returns without clearing the buffer and without
        closing the node. */
    method IterativeFind(end: S, found: bool) returns (found': bool)
      requires Valid()
      modifies this, successors, successors.data
      ensures Valid()
      ensures successors.data == old(successors.data) || fresh(successors.data)
      ensures old(IterativeIsDone(found)) ==>
                && found' == found && nodes == old(nodes) && openList == old(openList)
                && openIndex == old(openIndex) && closed == old(closed) && nodePath == old(nodePath)
                && successors.Contents() == old(successors.Contents())
      ensures !old(IterativeIsDone(found)) ==>
                && nodePath == (if found' then Some(old(openList)[0]) else old(nodePath))
                && old(|nodes|) <= |nodes| && openList == old(openList)[1..] + Span(old(|nodes|), |nodes|)
                && Round(SearchTree(nodes, depth, open, openIndex), closed, found', successors.Contents()) ==
                   ListRound(successorsOf, end, old(SearchTree(nodes, depth, open, openIndex)), old(closed),
                             old(successors.Contents()), old(openList)[0])
    {
      found' := found;
      if !found && |openList| > 0 {
        ghost var buf := successors.Contents();
        var nodes', depth', openList', open', openIndex', closed', path :=
          IterativeStep(end, nodes, depth, openList, open, openIndex, closed);
        IterativeQueueKeeps(successorsOf, end, nodes, depth, openList, open, openIndex, closed, buf,
                            Round(SearchTree(nodes', depth', open', openIndex'), closed', path.Some?,
                                  successors.Contents()));
        found' := path.Some?;
        Store(nodes', depth', openList', open', openIndex', closed', if path.Some? then path else nodePath);
      }
    }

    /** `breadthfs_iterative_is_done`: `*found`, or the open list is empty. */
    function IterativeIsDone(found: bool): (done: bool)
      reads this, successors
      requires Valid()
      ensures done <==> found || openIndex == map[]
    {
      OpenSizesAgree(nodes, open, openIndex);
      assert openList != [] ==> openList[0] in open;
      found || |openList| == 0
    }
  }
}
