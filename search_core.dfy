/**
 * What the five search drivers share: the search node (a parent link, the
 * driver's scores and a state handle), the bookkeeping that ties the node
 * set, the open frontier, the open index and the closed map together, and the
 * graph notions (walks, the path read back through parent links) in which
 * the drivers' results are stated.
 *
 * Nodes live in an arena `nodes: seq<Node<S, Score>>` and are named by their
 * position; a parent pointer is the position of the parent node. State
 * handles are opaque values of the type parameter `S`. The open index and
 * the closed map are Dafny maps keyed by handle, so two distinct handles are
 * always two distinct keys; the drivers' own maps decide key equality with a
 * pointer-difference comparator instead. The open frontier enters the bookkeeping as
 * the set of node positions it holds; the heap drivers keep exactly that
 * set, the list drivers the list of positions, whose elements form it.
 */
module SearchCore {

  datatype Option<T> = None | Some(value: T)

  /** A search node: the parent it was reached from (none for the start node),
      the driver's scores, and the state handle. */
  datatype Node<S, Score> = Node(parent: Option<nat>, score: Score, state: S)

  ghost predicate Distinct(xs: seq<nat>)
  {
    forall k, l | 0 <= k < l < |xs| :: xs[k] != xs[l]
  }

  /** The node positions from `lo` up to, not including, `hi`: the nodes an
      expansion step appends. */
  function Positions(lo: nat, hi: nat): (r: set<nat>)
    ensures forall k :: k in r <==> lo <= k < hi
    decreases hi - lo
  {
    if hi <= lo then {} else Positions(lo, hi - 1) + {hi - 1}
  }

  /** The elements of a frontier list. */
  function Elems(xs: seq<nat>): (r: set<nat>)
    ensures forall x :: x in r <==> x in xs
  {
    set x | x in xs
  }

  /** A list without repetitions has as many elements as positions. */
  lemma {:induction false} DistinctCard(xs: seq<nat>)
    requires Distinct(xs)
    ensures |Elems(xs)| == |xs|
  {
    if xs != [] {
      var rest := xs[1..];
      assert Distinct(rest) by {
        forall k, l | 0 <= k < l < |rest| ensures rest[k] != rest[l] {
          assert rest[k] == xs[k + 1] && rest[l] == xs[l + 1];
        }
      }
      DistinctCard(rest);
      assert xs[0] !in rest by {
        forall k | 0 <= k < |rest| ensures rest[k] != xs[0] {
          assert rest[k] == xs[k + 1];
        }
      }
      assert Elems(xs) == Elems(rest) + {xs[0]} by {
        assert xs == [xs[0]] + rest;
      }
    }
  }

  /** Every node except the start node (position 0) has a parent, and the
      parent lies strictly closer to the start in the ghost `depth` ranking.
      Following parent links therefore always ends at the start node. */
  ghost predicate ParentsBelow<S, Sc>(nodes: seq<Node<S, Sc>>, depth: seq<nat>)
  {
    && |depth| == |nodes|
    && (forall i | 0 <= i < |nodes| :: nodes[i].parent.None? <==> i == 0)
    && (forall i | 0 <= i < |nodes| && nodes[i].parent.Some? ::
          nodes[i].parent.value < |nodes| && depth[nodes[i].parent.value] < depth[i])
  }

  /** Only expanded nodes are parents: no node on the open frontier is the
      parent of another node, and the start node is open only before anything
      has been expanded. */
  ghost predicate OpenAreLeaves<S, Sc>(nodes: seq<Node<S, Sc>>, open: set<nat>)
  {
    && (forall i | 0 <= i < |nodes| && nodes[i].parent.Some? :: nodes[i].parent.value !in open)
    && (0 in open ==> |nodes| == 1)
  }

  /** The open index maps exactly the states of the open nodes to them, so
      the two always have the same size. */
  ghost predicate OpenIndexed<S, Sc>(nodes: seq<Node<S, Sc>>, open: set<nat>, openIndex: map<S, nat>)
  {
    && (forall x {:trigger x in open} | x in open ::
          x < |nodes| && nodes[x].state in openIndex && openIndex[nodes[x].state] == x)
    && (forall s {:trigger s in openIndex} | s in openIndex ::
          openIndex[s] < |nodes| && nodes[openIndex[s]].state == s && openIndex[s] in open)
    && |openIndex| == |open|
  }

  /** The closed map sends a state to a node for that state that is not open. */
  ghost predicate ClosedIndexed<S, Sc>(nodes: seq<Node<S, Sc>>, open: set<nat>, closed: map<S, nat>)
  {
    forall s | s in closed :: closed[s] < |nodes| && nodes[closed[s]].state == s && closed[s] !in open
  }

  /** The invariant every driver keeps between operations. */
  ghost predicate Bookkeeping<S, Sc>(nodes: seq<Node<S, Sc>>, depth: seq<nat>, open: set<nat>,
                                     openIndex: map<S, nat>, closed: map<S, nat>)
  {
    && ParentsBelow(nodes, depth)
    && OpenAreLeaves(nodes, open)
    && OpenIndexed(nodes, open, openIndex)
    && ClosedIndexed(nodes, open, closed)
  }

  /** The state of a node is a successor of its parent's state. */
  ghost predicate FollowsEdges<S, Sc>(succ: S -> seq<S>, nodes: seq<Node<S, Sc>>)
  {
    forall i | 0 <= i < |nodes| && nodes[i].parent.Some? && nodes[i].parent.value < |nodes| ::
      nodes[i].state in succ(nodes[nodes[i].parent.value].state)
  }

  /** `w` is a walk through the successor relation. */
  ghost predicate IsWalk<S>(succ: S -> seq<S>, w: seq<S>)
  {
    forall k | 0 <= k < |w| - 1 :: w[k + 1] in succ(w[k])
  }

  /** `w` is a walk read backwards: each state is a successor of the next. */
  ghost predicate IsBackWalk<S>(succ: S -> seq<S>, w: seq<S>)
  {
    forall k | 0 <= k < |w| - 1 :: w[k] in succ(w[k + 1])
  }

  /** No successor leads out of `inside`. */
  ghost predicate ClosedUnder<S>(succ: S -> seq<S>, inside: set<S>)
  {
    forall s, t | s in inside && t in succ(s) :: t in inside
  }

  /** Every successor of a `done` state is `done` or `pending`. */
  ghost predicate Bordered<S>(succ: S -> seq<S>, done: set<S>, pending: set<S>)
  {
    forall s, t | s in done && t in succ(s) :: t in done || t in pending
  }

  /** The states met when following parent links from node `i`, `i` first:
      what the `*_first_node`, `*_state` and `*_next_node` accessors return. */
  ghost function PathFrom<S, Sc>(nodes: seq<Node<S, Sc>>, depth: seq<nat>, i: nat): (path: seq<S>)
    requires ParentsBelow(nodes, depth) && i < |nodes|
    ensures |path| >= 1 && path[0] == nodes[i].state
    decreases depth[i]
  {
    match nodes[i].parent
    case None => [nodes[i].state]
    case Some(p) => [nodes[i].state] + PathFrom(nodes, depth, p)
  }

  /** The sum of the edge costs along the parent links from node `i` back to
      the start node. */
  ghost function PathCost<S, Sc>(cost: (S, S) -> int, nodes: seq<Node<S, Sc>>, depth: seq<nat>, i: nat): int
    requires ParentsBelow(nodes, depth) && i < |nodes|
    decreases depth[i]
  {
    match nodes[i].parent
    case None => 0
    case Some(p) => PathCost(cost, nodes, depth, p) + cost(nodes[p].state, nodes[i].state)
  }

  /** The path read back from any node ends at the start node. */
  lemma {:induction false} PathEndsAtStart<S, Sc>(nodes: seq<Node<S, Sc>>, depth: seq<nat>, i: nat)
    requires ParentsBelow(nodes, depth) && i < |nodes|
    ensures var path := PathFrom(nodes, depth, i); path[|path| - 1] == nodes[0].state
    decreases depth[i]
  {
    match nodes[i].parent
    case None =>
    case Some(p) => PathEndsAtStart(nodes, depth, p);
  }

  /** When every node follows an edge from its parent, the path read back is a
      walk from the start node, read backwards. */
  lemma {:induction false} PathFollowsEdges<S, Sc>(succ: S -> seq<S>, nodes: seq<Node<S, Sc>>, depth: seq<nat>, i: nat)
    requires ParentsBelow(nodes, depth) && i < |nodes| && FollowsEdges(succ, nodes)
    ensures IsBackWalk(succ, PathFrom(nodes, depth, i))
    decreases depth[i]
  {
    match nodes[i].parent
    case None =>
    case Some(p) =>
      PathFollowsEdges(succ, nodes, depth, p);
      var rest := PathFrom(nodes, depth, p);
      var path := PathFrom(nodes, depth, i);
      assert path == [nodes[i].state] + rest;
      forall k | 0 <= k < |path| - 1 ensures path[k] in succ(path[k + 1]) {
        if k > 0 {
          assert path[k] == rest[k - 1] && path[k + 1] == rest[k];
        }
      }
  }

  /** A walk that starts inside a set closed under successors stays inside. */
  lemma {:induction false} WalkStaysInside<S>(succ: S -> seq<S>, inside: set<S>, w: seq<S>)
    requires |w| > 0 && w[0] in inside && IsWalk(succ, w) && ClosedUnder(succ, inside)
    ensures forall k | 0 <= k < |w| :: w[k] in inside
    decreases |w|
  {
    if |w| > 1 {
      var front := w[..|w| - 1];
      assert IsWalk(succ, front) by {
        forall k | 0 <= k < |front| - 1 ensures front[k + 1] in succ(front[k]) {
          assert front[k] == w[k] && front[k + 1] == w[k + 1];
        }
      }
      WalkStaysInside(succ, inside, front);
      assert w[|w| - 2] == front[|w| - 2];
      assert w[|w| - 1] in succ(w[|w| - 2]);
    }
  }

  /** When the frontier runs dry, the closed states are closed under
      successors; a state reachable from a closed state is then closed too. */
  lemma ExhaustedSearch<S>(succ: S -> seq<S>, done: set<S>, start: S, w: seq<S>)
    requires Bordered(succ, done, {}) && start in done
    requires |w| > 0 && w[0] == start && IsWalk(succ, w)
    ensures w[|w| - 1] in done
  {
    WalkStaysInside(succ, done, w);
  }

  /** Reads the path back from `first` the way a caller of the accessors
      does: take the node's state, move to its parent, stop at null. */
  method WalkPath<S, Sc>(nodes: seq<Node<S, Sc>>, ghost depth: seq<nat>, first: Option<nat>)
    returns (path: seq<S>)
    requires ParentsBelow(nodes, depth) && (first.Some? ==> first.value < |nodes|)
    ensures first.None? ==> path == []
    ensures first.Some? ==> path == PathFrom(nodes, depth, first.value)
  {
    path := [];
    var n := first;
    while n.Some?
      invariant n.Some? ==> n.value < |nodes|
      invariant first.None? ==> path == [] && n.None?
      invariant first.Some? ==>
                  path + (if n.Some? then PathFrom(nodes, depth, n.value) else []) ==
                  PathFrom(nodes, depth, first.value)
      decreases if n.Some? then depth[n.value] + 1 else 0
    {
      var i := n.value;
      assert PathFrom(nodes, depth, i) ==
             [nodes[i].state] + (if nodes[i].parent.Some? then PathFrom(nodes, depth, nodes[i].parent.value) else []);
      path := path + [nodes[i].state];
      n := nodes[i].parent;
    }
  }

  /** The bookkeeping right after `*_cleanup`: everything empty. */
  lemma EmptyBookkeeping<S, Sc>()
    ensures Bookkeeping<S, Sc>([], [], {}, map[], map[])
  {
  }

  /** The bookkeeping after seeding the start node: one node, open and indexed. */
  lemma SeededBookkeeping<S, Sc>(start: S, score: Sc)
    ensures Bookkeeping([Node(None, score, start)], [0], {0}, map[start := 0], map[])
  {
    assert map[start := 0].Keys == {start};
  }

  /** Popping the open node `cur` and dropping its state from the open index
      keeps the bookkeeping. */
  lemma PopKeeps<S, Sc>(nodes: seq<Node<S, Sc>>, depth: seq<nat>, open: set<nat>,
                        openIndex: map<S, nat>, closed: map<S, nat>, cur: nat)
    requires Bookkeeping(nodes, depth, open, openIndex, closed) && cur in open
    ensures cur < |nodes| && nodes[cur].state in openIndex
    ensures Bookkeeping(nodes, depth, open - {cur}, openIndex - {nodes[cur].state}, closed)
  {
    var index' := openIndex - {nodes[cur].state};
    assert index'.Keys == openIndex.Keys - {nodes[cur].state};
  }

  /** Adding a node reached from the expanded node `cur` for a state that is
      not open keeps the bookkeeping. */
  lemma PushKeeps<S, Sc>(nodes: seq<Node<S, Sc>>, depth: seq<nat>, open: set<nat>,
                         openIndex: map<S, nat>, closed: map<S, nat>,
                         cur: nat, score: Sc, t: S)
    requires Bookkeeping(nodes, depth, open, openIndex, closed)
    requires cur < |nodes| && cur !in open && t !in openIndex
    ensures |nodes| !in open
    ensures Bookkeeping(nodes + [Node(Some(cur), score, t)], depth + [depth[cur] + 1],
                        open + {|nodes|}, openIndex[t := |nodes|], closed)
  {
    var nodes' := nodes + [Node(Some(cur), score, t)];
    PushKeepsParents(nodes, depth, open, cur, score, t);
    PushKeepsIndex(nodes, open, openIndex, cur, score, t);
    assert ClosedIndexed(nodes', open + {|nodes|}, closed);
  }

  lemma PushKeepsParents<S, Sc>(nodes: seq<Node<S, Sc>>, depth: seq<nat>, open: set<nat>,
                                cur: nat, score: Sc, t: S)
    requires ParentsBelow(nodes, depth) && OpenAreLeaves(nodes, open)
    requires cur < |nodes| && cur !in open && (forall x | x in open :: x < |nodes|)
    ensures ParentsBelow(nodes + [Node(Some(cur), score, t)], depth + [depth[cur] + 1])
    ensures OpenAreLeaves(nodes + [Node(Some(cur), score, t)], open + {|nodes|})
  {
    var nodes' := nodes + [Node(Some(cur), score, t)];
    assert nodes'[|nodes|].parent == Some(cur);
    assert 0 !in open + {|nodes|} by {
      assert |nodes| > 0;
    }
  }

  lemma PushKeepsIndex<S, Sc>(nodes: seq<Node<S, Sc>>, open: set<nat>,
                              openIndex: map<S, nat>, cur: nat, score: Sc, t: S)
    requires OpenIndexed(nodes, open, openIndex) && t !in openIndex
    ensures |nodes| !in open
    ensures OpenIndexed(nodes + [Node(Some(cur), score, t)], open + {|nodes|}, openIndex[t := |nodes|])
  {
    var nodes', open', index' := nodes + [Node(Some(cur), score, t)], open + {|nodes|}, openIndex[t := |nodes|];
    assert |nodes| !in open;
    assert |open'| == |open| + 1 && |index'| == |openIndex| + 1;
    forall x | x in open'
      ensures x < |nodes'| && nodes'[x].state in index' && index'[nodes'[x].state] == x
    {
      if x != |nodes| {
        assert nodes'[x] == nodes[x];
      }
    }
    forall s | s in index'
      ensures index'[s] < |nodes'| && nodes'[index'[s]].state == s && index'[s] in open'
    {
      if s != t {
        assert nodes'[openIndex[s]] == nodes[openIndex[s]];
      }
    }
  }

  /** Re-parenting the open node `j` onto the expanded node `cur`, with new
      scores and the same state, keeps the bookkeeping. */
  lemma UpdateKeeps<S, Sc>(nodes: seq<Node<S, Sc>>, depth: seq<nat>, open: set<nat>,
                           openIndex: map<S, nat>, closed: map<S, nat>,
                           j: nat, cur: nat, score: Sc)
    requires Bookkeeping(nodes, depth, open, openIndex, closed)
    requires j in open && cur < |nodes| && cur !in open
    ensures 0 < j < |nodes|
    ensures Bookkeeping(nodes[j := Node(Some(cur), score, nodes[j].state)],
                        depth[j := depth[cur] + 1], open, openIndex, closed)
  {
  }

  /** Putting the popped node `cur` in the closed map keeps the bookkeeping. */
  lemma CloseKeeps<S, Sc>(nodes: seq<Node<S, Sc>>, depth: seq<nat>, open: set<nat>,
                          openIndex: map<S, nat>, closed: map<S, nat>, cur: nat)
    requires Bookkeeping(nodes, depth, open, openIndex, closed)
    requires cur < |nodes| && cur !in open
    ensures Bookkeeping(nodes, depth, open, openIndex, closed[nodes[cur].state := cur])
  {
  }

  /** What the successor loop of an expansion of node `cur` has done to the
      nodes, the open frontier and the open index once it has treated the
      handles `seen` (the closed map does not change):
      - `cur`, already popped, is not open;
      - every handle seen is now closed or open, and no open state was dropped;
      - an existing node is unchanged, or is an open node (never the start
        node) for a handle seen on which the update test `fires` held, now
        with parent `cur` and the scores `rescore` gives through `cur`;
      - every added node is open, has parent `cur`, the scores `reach` or (when
        a repeated handle re-parented it) `rescore` gives through `cur`, and a
        handle seen that was neither open nor closed. */
  ghost predicate Grown<S, Sc>(reach: (Node<S, Sc>, S) -> Sc, rescore: (Node<S, Sc>, S) -> Sc, fires: (Sc, Node<S, Sc>, S) -> bool,
                               nodes: seq<Node<S, Sc>>, open: set<nat>, openIndex: map<S, nat>,
                               closed: map<S, nat>, cur: nat, seen: seq<S>,
                               nodes': seq<Node<S, Sc>>, open': set<nat>, openIndex': map<S, nat>)
  {
    && cur < |nodes| <= |nodes'| && cur !in open && cur !in open'
    && (forall s | s in openIndex :: s in openIndex')
    && (forall t | t in seen :: t in closed || t in openIndex')
    && (forall k | 0 <= k < |nodes| ::
          nodes'[k] == nodes[k] ||
          (0 < k && k in open && nodes[k].state in seen && fires(nodes[k].score, nodes[cur], nodes[k].state) &&
           nodes'[k] == Node(Some(cur), rescore(nodes[cur], nodes[k].state), nodes[k].state)))
    && (forall k | |nodes| <= k < |nodes'| ::
          nodes'[k].parent == Some(cur) &&
          (nodes'[k].score == reach(nodes[cur], nodes'[k].state) ||
           nodes'[k].score == rescore(nodes[cur], nodes'[k].state)) &&
          nodes'[k].state in seen && nodes'[k].state !in openIndex && nodes'[k].state !in closed)
    && open' == open + Positions(|nodes|, |nodes'|)
  }

  /** `Grown`, with the bookkeeping kept for the new collections and the
      ranks `depth'`. */
  ghost predicate Expanded<S, Sc>(reach: (Node<S, Sc>, S) -> Sc, rescore: (Node<S, Sc>, S) -> Sc, fires: (Sc, Node<S, Sc>, S) -> bool,
                                  nodes: seq<Node<S, Sc>>, open: set<nat>, openIndex: map<S, nat>,
                                  closed: map<S, nat>, cur: nat, seen: seq<S>,
                                  nodes': seq<Node<S, Sc>>, depth': seq<nat>, open': set<nat>,
                                  openIndex': map<S, nat>)
  {
    && Bookkeeping(nodes', depth', open', openIndex', closed)
    && Grown(reach, rescore, fires, nodes, open, openIndex, closed, cur, seen, nodes', open', openIndex')
  }

  /** The part of a driver's state one expansion changes: the nodes, their
      ghost ranks, the open frontier and the open index. */
  datatype SearchTree<S, Sc> = SearchTree(nodes: seq<Node<S, Sc>>, depth: seq<nat>, open: set<nat>,
                                          openIndex: map<S, nat>)

  /** The open index only names existing nodes, each for the state it is
      indexed by, and every node has a rank: what a successor loop needs to
      run. */
  ghost predicate Addressed<S, Sc>(g: SearchTree<S, Sc>)
  {
    && |g.depth| == |g.nodes|
    && (forall s | s in g.openIndex :: g.openIndex[s] < |g.nodes| && g.nodes[g.openIndex[s]].state == s)
  }

  /** One successor handle `t` of the expanded node `cur`: a closed handle
      changes nothing; an open handle re-parents its node onto `cur`, with the
      scores `rescore` gives through `cur`, exactly when `fires` holds for the
      stored scores; any other handle becomes a new open node with the scores
      `reach` gives through `cur`. */
  ghost function Relax<S, Sc>(reach: (Node<S, Sc>, S) -> Sc, rescore: (Node<S, Sc>, S) -> Sc, fires: (Sc, Node<S, Sc>, S) -> bool,
                              g: SearchTree<S, Sc>, closed: map<S, nat>, cur: nat, t: S): (r: SearchTree<S, Sc>)
    requires Addressed(g) && cur < |g.nodes|
    ensures Addressed(r) && |g.nodes| <= |r.nodes|
  {
    if t in closed then g
    else if t in g.openIndex then
      var j := g.openIndex[t];
      if fires(g.nodes[j].score, g.nodes[cur], t) then
        g.(nodes := g.nodes[j := Node(Some(cur), rescore(g.nodes[cur], t), g.nodes[j].state)],
           depth := g.depth[j := g.depth[cur] + 1])
      else g
    else
      SearchTree(g.nodes + [Node(Some(cur), reach(g.nodes[cur], t), t)], g.depth + [g.depth[cur] + 1],
                 g.open + {|g.nodes|}, g.openIndex[t := |g.nodes|])
  }

  /** The handles `seen` treated by `Relax` one after the other, in order. */
  ghost function RelaxAll<S, Sc>(reach: (Node<S, Sc>, S) -> Sc, rescore: (Node<S, Sc>, S) -> Sc, fires: (Sc, Node<S, Sc>, S) -> bool,
                                 g: SearchTree<S, Sc>, closed: map<S, nat>, cur: nat, seen: seq<S>)
    : (r: SearchTree<S, Sc>)
    requires Addressed(g) && cur < |g.nodes|
    ensures Addressed(r) && |g.nodes| <= |r.nodes|
    decreases |seen|
  {
    if seen == [] then g
    else Relax(reach, rescore, fires, RelaxAll(reach, rescore, fires, g, closed, cur, seen[..|seen| - 1]), closed, cur, seen[|seen| - 1])
  }

  /** The handles of `buf` before its first closed one: what the successor
      loop of an iterative step treats before it returns early. */
  ghost function OpenRun<S>(buf: seq<S>, closed: map<S, nat>): (run: seq<S>)
    ensures |run| <= |buf| && run == buf[..|run|]
    ensures forall k | 0 <= k < |run| :: run[k] !in closed
    ensures |run| < |buf| ==> buf[|run|] in closed
  {
    if buf == [] || buf[0] in closed then [] else [buf[0]] + OpenRun(buf[1..], closed)
  }

  /** A prefix of `buf` with no closed handle, followed by a closed handle or
      by the end of `buf`, is the open run of `buf`. */
  lemma OpenRunIs<S>(buf: seq<S>, closed: map<S, nat>, i: nat)
    requires i <= |buf| && forall k | 0 <= k < i :: buf[k] !in closed
    requires i < |buf| ==> buf[i] in closed
    ensures OpenRun(buf, closed) == buf[..i]
  {
  }

  /** The successor loop of an iterative step has treated the handles
      `buf[..i]`: none but the last of them is closed, and `stopped` says
      whether the last one is. */
  ghost predicate Scanned<S>(buf: seq<S>, closed: map<S, nat>, i: nat, stopped: bool)
  {
    && i <= |buf|
    && (forall k | 0 <= k < i - 1 :: buf[k] !in closed)
    && (if i == 0 then !stopped else (stopped <==> buf[i - 1] in closed))
  }

  /** Treating one more handle, after an open one. */
  lemma ScannedStep<S>(buf: seq<S>, closed: map<S, nat>, i: nat, stopped: bool)
    requires Scanned(buf, closed, i, false) && i < |buf| && (stopped <==> buf[i] in closed)
    ensures Scanned(buf, closed, i + 1, stopped)
  {
  }

  /** A loop that stops at the first closed handle, or at the end of `buf`,
      has treated exactly the open run of `buf`, and it stopped exactly when
      that run is shorter than `buf`. */
  lemma ScannedRun<S, Sc>(reach: (Node<S, Sc>, S) -> Sc, rescore: (Node<S, Sc>, S) -> Sc,
                          fires: (Sc, Node<S, Sc>, S) -> bool,
                          g: SearchTree<S, Sc>, closed: map<S, nat>, cur: nat, buf: seq<S>, i: nat, stopped: bool)
    requires Addressed(g) && cur < |g.nodes|
    requires Scanned(buf, closed, i, stopped) && (stopped || i == |buf|)
    ensures RelaxAll(reach, rescore, fires, g, closed, cur, buf[..i]) ==
            RelaxAll(reach, rescore, fires, g, closed, cur, OpenRun(buf, closed))
    ensures stopped <==> |OpenRun(buf, closed)| < |buf|
  {
    if stopped {
      OpenRunIs(buf, closed, i - 1);
      assert buf[..i][..i - 1] == buf[..i - 1];
    } else {
      OpenRunIs(buf, closed, i);
    }
  }

  /** The bookkeeping gives what the successor loop needs. */
  lemma BookkeepingAddressed<S, Sc>(nodes: seq<Node<S, Sc>>, depth: seq<nat>, open: set<nat>,
                                    openIndex: map<S, nat>, closed: map<S, nat>)
    requires Bookkeeping(nodes, depth, open, openIndex, closed)
    ensures Addressed(SearchTree(nodes, depth, open, openIndex))
  {
  }

  /** One `Relax` step is an expansion by one handle. */
  lemma RelaxExpands<S, Sc>(reach: (Node<S, Sc>, S) -> Sc, rescore: (Node<S, Sc>, S) -> Sc, fires: (Sc, Node<S, Sc>, S) -> bool,
                            g: SearchTree<S, Sc>, closed: map<S, nat>, cur: nat, t: S)
    requires Bookkeeping(g.nodes, g.depth, g.open, g.openIndex, closed) && cur < |g.nodes| && cur !in g.open
    ensures Addressed(g)
    ensures var r := Relax(reach, rescore, fires, g, closed, cur, t);
            Expanded(reach, rescore, fires, g.nodes, g.open, g.openIndex, closed, cur, [t], r.nodes, r.depth, r.open, r.openIndex)
  {
    if t in closed || (t in g.openIndex && !fires(g.nodes[g.openIndex[t]].score, g.nodes[cur], t)) {
      SkipExpands(reach, rescore, fires, g, closed, cur, t);
    } else if t in g.openIndex {
      UpdateExpands(reach, rescore, fires, g, closed, cur, t);
    } else {
      PushExpands(reach, rescore, fires, g, closed, cur, t);
    }
  }

  lemma SkipExpands<S, Sc>(reach: (Node<S, Sc>, S) -> Sc, rescore: (Node<S, Sc>, S) -> Sc, fires: (Sc, Node<S, Sc>, S) -> bool,
                       g: SearchTree<S, Sc>, closed: map<S, nat>, cur: nat, t: S)
    requires Bookkeeping(g.nodes, g.depth, g.open, g.openIndex, closed) && cur < |g.nodes| && cur !in g.open
    requires t in closed || (t in g.openIndex && !fires(g.nodes[g.openIndex[t]].score, g.nodes[cur], t))
    ensures Addressed(g)
    ensures var r := Relax(reach, rescore, fires, g, closed, cur, t);
            Expanded(reach, rescore, fires, g.nodes, g.open, g.openIndex, closed, cur, [t], r.nodes, r.depth, r.open, r.openIndex)
  {
    RelaxSkips(reach, rescore, fires, g, closed, cur, t);
    SkipStep(reach, rescore, fires, g.nodes, g.depth, g.open, g.openIndex, closed, cur, t);
  }

  lemma UpdateExpands<S, Sc>(reach: (Node<S, Sc>, S) -> Sc, rescore: (Node<S, Sc>, S) -> Sc, fires: (Sc, Node<S, Sc>, S) -> bool,
                       g: SearchTree<S, Sc>, closed: map<S, nat>, cur: nat, t: S)
    requires Bookkeeping(g.nodes, g.depth, g.open, g.openIndex, closed) && cur < |g.nodes| && cur !in g.open
    requires t !in closed && t in g.openIndex && fires(g.nodes[g.openIndex[t]].score, g.nodes[cur], t)
    ensures Addressed(g)
    ensures var r := Relax(reach, rescore, fires, g, closed, cur, t);
            Expanded(reach, rescore, fires, g.nodes, g.open, g.openIndex, closed, cur, [t], r.nodes, r.depth, r.open, r.openIndex)
  {
    RelaxUpdates(reach, rescore, fires, g, closed, cur, t);
    UpdateStep(reach, rescore, fires, g.nodes, g.depth, g.open, g.openIndex, closed, cur, t, g.openIndex[t],
               rescore(g.nodes[cur], t));
  }

  lemma PushExpands<S, Sc>(reach: (Node<S, Sc>, S) -> Sc, rescore: (Node<S, Sc>, S) -> Sc, fires: (Sc, Node<S, Sc>, S) -> bool,
                       g: SearchTree<S, Sc>, closed: map<S, nat>, cur: nat, t: S)
    requires Bookkeeping(g.nodes, g.depth, g.open, g.openIndex, closed) && cur < |g.nodes| && cur !in g.open
    requires t !in closed && t !in g.openIndex
    ensures Addressed(g)
    ensures var r := Relax(reach, rescore, fires, g, closed, cur, t);
            Expanded(reach, rescore, fires, g.nodes, g.open, g.openIndex, closed, cur, [t], r.nodes, r.depth, r.open, r.openIndex)
  {
    RelaxPushes(reach, rescore, fires, g, closed, cur, t);
    var r := Relax(reach, rescore, fires, g, closed, cur, t);
    assert r.nodes == g.nodes + [Node(Some(cur), reach(g.nodes[cur], t), t)] && r.depth == g.depth + [g.depth[cur] + 1];
    assert r.open == g.open + {|g.nodes|} && r.openIndex == g.openIndex[t := |g.nodes|];
    PushStep(reach, rescore, fires, g.nodes, g.depth, g.open, g.openIndex, closed, cur, t, reach(g.nodes[cur], t));
  }

  lemma RelaxSkips<S, Sc>(reach: (Node<S, Sc>, S) -> Sc, rescore: (Node<S, Sc>, S) -> Sc, fires: (Sc, Node<S, Sc>, S) -> bool,
                          g: SearchTree<S, Sc>, closed: map<S, nat>, cur: nat, t: S)
    requires Addressed(g) && cur < |g.nodes|
    requires t in closed || (t in g.openIndex && !fires(g.nodes[g.openIndex[t]].score, g.nodes[cur], t))
    ensures Relax(reach, rescore, fires, g, closed, cur, t) == g
  {
  }

  lemma RelaxUpdates<S, Sc>(reach: (Node<S, Sc>, S) -> Sc, rescore: (Node<S, Sc>, S) -> Sc, fires: (Sc, Node<S, Sc>, S) -> bool,
                            g: SearchTree<S, Sc>, closed: map<S, nat>, cur: nat, t: S)
    requires Addressed(g) && cur < |g.nodes|
    requires t !in closed && t in g.openIndex && fires(g.nodes[g.openIndex[t]].score, g.nodes[cur], t)
    ensures var j := g.openIndex[t];
            Relax(reach, rescore, fires, g, closed, cur, t) ==
            SearchTree(g.nodes[j := Node(Some(cur), rescore(g.nodes[cur], t), g.nodes[j].state)],
                       g.depth[j := g.depth[cur] + 1], g.open, g.openIndex)
  {
  }

  lemma RelaxPushes<S, Sc>(reach: (Node<S, Sc>, S) -> Sc, rescore: (Node<S, Sc>, S) -> Sc, fires: (Sc, Node<S, Sc>, S) -> bool,
                           g: SearchTree<S, Sc>, closed: map<S, nat>, cur: nat, t: S)
    requires Addressed(g) && cur < |g.nodes|
    requires t !in closed && t !in g.openIndex
    ensures Relax(reach, rescore, fires, g, closed, cur, t) ==
            SearchTree(g.nodes + [Node(Some(cur), reach(g.nodes[cur], t), t)], g.depth + [g.depth[cur] + 1],
                       g.open + {|g.nodes|}, g.openIndex[t := |g.nodes|])
  {
  }

  /** Treating the handles `seen` in order is an expansion by `seen`. */
  lemma {:induction false} RelaxAllExpands<S, Sc>(reach: (Node<S, Sc>, S) -> Sc, rescore: (Node<S, Sc>, S) -> Sc, fires: (Sc, Node<S, Sc>, S) -> bool,
                                                  g: SearchTree<S, Sc>, closed: map<S, nat>, cur: nat, seen: seq<S>)
    requires Bookkeeping(g.nodes, g.depth, g.open, g.openIndex, closed) && cur < |g.nodes| && cur !in g.open
    ensures Addressed(g)
    ensures var r := RelaxAll(reach, rescore, fires, g, closed, cur, seen);
            Expanded(reach, rescore, fires, g.nodes, g.open, g.openIndex, closed, cur, seen, r.nodes, r.depth, r.open, r.openIndex)
    decreases |seen|
  {
    if seen == [] {
      ExpandedNothing(reach, rescore, fires, g.nodes, g.depth, g.open, g.openIndex, closed, cur);
    } else {
      var front := seen[..|seen| - 1];
      RelaxAllExpands(reach, rescore, fires, g, closed, cur, front);
      var mid := RelaxAll(reach, rescore, fires, g, closed, cur, front);
      RelaxExpands(reach, rescore, fires, mid, closed, cur, seen[|seen| - 1]);
      var r := Relax(reach, rescore, fires, mid, closed, cur, seen[|seen| - 1]);
      ExpandedStep(reach, rescore, fires, g.nodes, g.open, g.openIndex, closed, cur, seen,
                   mid.nodes, mid.depth, mid.open, mid.openIndex, r.nodes, r.depth, r.open, r.openIndex);
    }
  }

  /** Before the first handle nothing has changed. */
  lemma ExpandedNothing<S, Sc>(reach: (Node<S, Sc>, S) -> Sc, rescore: (Node<S, Sc>, S) -> Sc, fires: (Sc, Node<S, Sc>, S) -> bool,
                               nodes: seq<Node<S, Sc>>, depth: seq<nat>, open: set<nat>,
                               openIndex: map<S, nat>, closed: map<S, nat>, cur: nat)
    requires Bookkeeping(nodes, depth, open, openIndex, closed) && cur < |nodes| && cur !in open
    ensures Expanded(reach, rescore, fires, nodes, open, openIndex, closed, cur, [], nodes, depth, open, openIndex)
  {
    assert Positions(|nodes|, |nodes|) == {};
  }

  /** A handle that is closed, or open without the update firing, changes
      nothing. */
  lemma SkipStep<S, Sc>(reach: (Node<S, Sc>, S) -> Sc, rescore: (Node<S, Sc>, S) -> Sc, fires: (Sc, Node<S, Sc>, S) -> bool,
                        nodes: seq<Node<S, Sc>>, depth: seq<nat>, open: set<nat>,
                        openIndex: map<S, nat>, closed: map<S, nat>, cur: nat, t: S)
    requires Bookkeeping(nodes, depth, open, openIndex, closed) && cur < |nodes| && cur !in open
    requires t in closed || t in openIndex
    ensures Expanded(reach, rescore, fires, nodes, open, openIndex, closed, cur, [t], nodes, depth, open, openIndex)
  {
    assert Positions(|nodes|, |nodes|) == {};
  }

  /** An open handle `t`, with open node `j`, on which the update fires:
      node `j` takes parent `cur` and the scores `rescore` gives through `cur`. */
  lemma UpdateStep<S, Sc>(reach: (Node<S, Sc>, S) -> Sc, rescore: (Node<S, Sc>, S) -> Sc, fires: (Sc, Node<S, Sc>, S) -> bool,
                          nodes: seq<Node<S, Sc>>, depth: seq<nat>, open: set<nat>,
                          openIndex: map<S, nat>, closed: map<S, nat>, cur: nat, t: S, j: nat, score: Sc)
    requires Bookkeeping(nodes, depth, open, openIndex, closed) && cur < |nodes| && cur !in open
    requires t in openIndex && j == openIndex[t] && j < |nodes|
    requires score == rescore(nodes[cur], t) && fires(nodes[j].score, nodes[cur], t)
    ensures Expanded(reach, rescore, fires, nodes, open, openIndex, closed, cur, [t],
                     nodes[j := Node(Some(cur), score, nodes[j].state)],
                     depth[j := depth[cur] + 1], open, openIndex)
  {
    UpdateKeeps(nodes, depth, open, openIndex, closed, j, cur, score);
    GrownByUpdate(reach, rescore, fires, nodes, open, openIndex, closed, cur, t, j, score);
  }

  /** A handle `t` neither open nor closed: a new open node with parent `cur`
      and the scores reached through `cur`. */
  lemma PushStep<S, Sc>(reach: (Node<S, Sc>, S) -> Sc, rescore: (Node<S, Sc>, S) -> Sc, fires: (Sc, Node<S, Sc>, S) -> bool,
                        nodes: seq<Node<S, Sc>>, depth: seq<nat>, open: set<nat>,
                        openIndex: map<S, nat>, closed: map<S, nat>, cur: nat, t: S, score: Sc)
    requires Bookkeeping(nodes, depth, open, openIndex, closed) && cur < |nodes| && cur !in open
    requires t !in openIndex && t !in closed && score == reach(nodes[cur], t)
    ensures Expanded(reach, rescore, fires, nodes, open, openIndex, closed, cur, [t],
                     nodes + [Node(Some(cur), score, t)], depth + [depth[cur] + 1],
                     open + {|nodes|}, openIndex[t := |nodes|])
  {
    PushKeeps(nodes, depth, open, openIndex, closed, cur, score, t);
    GrownByPush(reach, rescore, fires, nodes, open, openIndex, closed, cur, t, score);
  }

  lemma GrownByUpdate<S, Sc>(reach: (Node<S, Sc>, S) -> Sc, rescore: (Node<S, Sc>, S) -> Sc, fires: (Sc, Node<S, Sc>, S) -> bool,
                             nodes: seq<Node<S, Sc>>, open: set<nat>, openIndex: map<S, nat>,
                             closed: map<S, nat>, cur: nat, t: S, j: nat, score: Sc)
    requires OpenAreLeaves(nodes, open) && OpenIndexed(nodes, open, openIndex) && cur < |nodes| && cur !in open
    requires t in openIndex && j == openIndex[t] && j < |nodes|
    requires score == rescore(nodes[cur], t) && fires(nodes[j].score, nodes[cur], t)
    ensures Grown(reach, rescore, fires, nodes, open, openIndex, closed, cur, [t],
                  nodes[j := Node(Some(cur), score, nodes[j].state)], open, openIndex)
  {
    assert Positions(|nodes|, |nodes|) == {};
  }

  lemma GrownByPush<S, Sc>(reach: (Node<S, Sc>, S) -> Sc, rescore: (Node<S, Sc>, S) -> Sc, fires: (Sc, Node<S, Sc>, S) -> bool,
                           nodes: seq<Node<S, Sc>>, open: set<nat>, openIndex: map<S, nat>,
                           closed: map<S, nat>, cur: nat, t: S, score: Sc)
    requires cur < |nodes| && cur !in open
    requires t !in openIndex && t !in closed && score == reach(nodes[cur], t)
    ensures Grown(reach, rescore, fires, nodes, open, openIndex, closed, cur, [t],
                  nodes + [Node(Some(cur), score, t)], open + {|nodes|}, openIndex[t := |nodes|])
  {
    assert Positions(|nodes|, |nodes| + 1) == {|nodes|};
  }

  /** Treating the last handle of `seen` extends what the loop has done for
      the ones before it. */
  lemma ExpandedStep<S, Sc>(reach: (Node<S, Sc>, S) -> Sc, rescore: (Node<S, Sc>, S) -> Sc, fires: (Sc, Node<S, Sc>, S) -> bool,
                            nodes: seq<Node<S, Sc>>, open: set<nat>, openIndex: map<S, nat>,
                            closed: map<S, nat>, cur: nat, seen: seq<S>,
                            nodes1: seq<Node<S, Sc>>, depth1: seq<nat>, open1: set<nat>,
                            openIndex1: map<S, nat>,
                            nodes2: seq<Node<S, Sc>>, depth2: seq<nat>, open2: set<nat>,
                            openIndex2: map<S, nat>)
    requires |seen| > 0
    requires Expanded(reach, rescore, fires, nodes, open, openIndex, closed, cur, seen[..|seen| - 1],
                      nodes1, depth1, open1, openIndex1)
    requires Expanded(reach, rescore, fires, nodes1, open1, openIndex1, closed, cur, [seen[|seen| - 1]],
                      nodes2, depth2, open2, openIndex2)
    ensures Expanded(reach, rescore, fires, nodes, open, openIndex, closed, cur, seen, nodes2, depth2, open2, openIndex2)
  {
    GrownStep(reach, rescore, fires, nodes, open, openIndex, closed, cur, seen, nodes1, open1, openIndex1,
              nodes2, open2, openIndex2);
  }

  /** The structural part of `ExpandedStep`. */
  lemma {:induction false} GrownStep<S, Sc>(reach: (Node<S, Sc>, S) -> Sc, rescore: (Node<S, Sc>, S) -> Sc, fires: (Sc, Node<S, Sc>, S) -> bool,
                                            nodes: seq<Node<S, Sc>>, open: set<nat>, openIndex: map<S, nat>,
                                            closed: map<S, nat>, cur: nat, seen: seq<S>,
                                            nodes1: seq<Node<S, Sc>>, open1: set<nat>, openIndex1: map<S, nat>,
                                            nodes2: seq<Node<S, Sc>>, open2: set<nat>, openIndex2: map<S, nat>)
    requires |seen| > 0
    requires Grown(reach, rescore, fires, nodes, open, openIndex, closed, cur, seen[..|seen| - 1], nodes1, open1, openIndex1)
    requires Grown(reach, rescore, fires, nodes1, open1, openIndex1, closed, cur, [seen[|seen| - 1]], nodes2, open2, openIndex2)
    ensures Grown(reach, rescore, fires, nodes, open, openIndex, closed, cur, seen, nodes2, open2, openIndex2)
  {
    var front, t := seen[..|seen| - 1], seen[|seen| - 1];
    assert forall x | x in seen :: x in front || x == t by {
      assert seen == front + [t];
    }
    assert nodes1[cur] == nodes[cur];
    forall k | 0 <= k < |nodes|
      ensures nodes2[k] == nodes[k] ||
              (0 < k && k in open && nodes[k].state in seen && fires(nodes[k].score, nodes[cur], nodes[k].state) &&
               nodes2[k] == Node(Some(cur), rescore(nodes[cur], nodes[k].state), nodes[k].state))
    {
      if nodes2[k] != nodes1[k] {
        assert k in open1 && k < |nodes|;
      }
    }
    forall k | |nodes| <= k < |nodes2|
      ensures nodes2[k].parent == Some(cur) &&
              (nodes2[k].score == reach(nodes[cur], nodes2[k].state) ||
               nodes2[k].score == rescore(nodes[cur], nodes2[k].state)) &&
              nodes2[k].state in seen && nodes2[k].state !in openIndex && nodes2[k].state !in closed
    {
      if k < |nodes1| {
        assert nodes1[k].state in front;
      }
    }
    assert open2 == open + Positions(|nodes|, |nodes2|) by {
      PositionsSplit(|nodes|, |nodes1|, |nodes2|);
    }
  }

  lemma PositionsSplit(lo: nat, mid: nat, hi: nat)
    requires lo <= mid <= hi
    ensures Positions(lo, mid) + Positions(mid, hi) == Positions(lo, hi)
  {
  }

  /** Node `i` carries the scores its driver gives it: `root` of its state for
      the start node, otherwise the scores `reach` (when it was added) or
      `rescore` (when it was re-parented) gives through its parent. */
  ghost predicate Scored<S, Sc>(reach: (Node<S, Sc>, S) -> Sc, rescore: (Node<S, Sc>, S) -> Sc, root: S -> Sc, nodes: seq<Node<S, Sc>>)
  {
    forall i | 0 <= i < |nodes| ::
      match nodes[i].parent
      case None => nodes[i].score == root(nodes[i].state)
      case Some(p) =>
        p < |nodes| && (nodes[i].score == reach(nodes[p], nodes[i].state) ||
                        nodes[i].score == rescore(nodes[p], nodes[i].state))
  }

  /** An expansion whose handles are all successors of the expanded state
      keeps every node on an edge from its parent: an existing node it leaves
      alone keeps its parent, which is not open and so was left alone too. */
  lemma ExpandedKeepsEdges<S, Sc>(succ: S -> seq<S>, reach: (Node<S, Sc>, S) -> Sc, rescore: (Node<S, Sc>, S) -> Sc,
                                  fires: (Sc, Node<S, Sc>, S) -> bool,
                                  nodes: seq<Node<S, Sc>>, depth: seq<nat>, open: set<nat>,
                                  openIndex: map<S, nat>, closed: map<S, nat>, cur: nat, seen: seq<S>,
                                  nodes': seq<Node<S, Sc>>, open': set<nat>, openIndex': map<S, nat>)
    requires Bookkeeping(nodes, depth, open, openIndex, closed) && FollowsEdges(succ, nodes)
    requires Grown(reach, rescore, fires, nodes, open, openIndex, closed, cur, seen, nodes', open', openIndex')
    requires forall t | t in seen :: t in succ(nodes[cur].state)
    ensures FollowsEdges(succ, nodes')
  {
    assert nodes'[cur] == nodes[cur];
    forall i | 0 <= i < |nodes'| && nodes'[i].parent.Some? && nodes'[i].parent.value < |nodes'|
      ensures nodes'[i].state in succ(nodes'[nodes'[i].parent.value].state)
    {
      if i < |nodes| && nodes'[i] == nodes[i] {
        var p := nodes[i].parent.value;
        assert p !in open;
        assert nodes'[p] == nodes[p];
      }
    }
  }

  /** Any expansion keeps every node scored, for the same reason. */
  lemma ExpandedKeepsScores<S, Sc>(reach: (Node<S, Sc>, S) -> Sc, rescore: (Node<S, Sc>, S) -> Sc, fires: (Sc, Node<S, Sc>, S) -> bool,
                                   root: S -> Sc, nodes: seq<Node<S, Sc>>, depth: seq<nat>, open: set<nat>,
                                   openIndex: map<S, nat>, closed: map<S, nat>, cur: nat, seen: seq<S>,
                                   nodes': seq<Node<S, Sc>>, open': set<nat>, openIndex': map<S, nat>)
    requires Bookkeeping(nodes, depth, open, openIndex, closed) && Scored(reach, rescore, root, nodes)
    requires Grown(reach, rescore, fires, nodes, open, openIndex, closed, cur, seen, nodes', open', openIndex')
    ensures Scored(reach, rescore, root, nodes')
  {
    assert nodes'[cur] == nodes[cur];
    forall i | 0 <= i < |nodes'|
      ensures match nodes'[i].parent
              case None => nodes'[i].score == root(nodes'[i].state)
              case Some(p) =>
                p < |nodes'| && (nodes'[i].score == reach(nodes'[p], nodes'[i].state) ||
                                 nodes'[i].score == rescore(nodes'[p], nodes'[i].state))
    {
      if i < |nodes| && nodes'[i] == nodes[i] && nodes[i].parent.Some? {
        var p := nodes[i].parent.value;
        assert p !in open;
        assert nodes'[p] == nodes[p];
      }
    }
  }

  /** The frontier is empty exactly when the open index is: the size check
      the drivers' cleanup asserts. */
  lemma OpenSizesAgree<S, Sc>(nodes: seq<Node<S, Sc>>, open: set<nat>, openIndex: map<S, nat>)
    requires OpenIndexed(nodes, open, openIndex)
    ensures |openIndex| == |open|
    ensures open == {} <==> openIndex == map[]
  {
  }

  /** What a search from `start` keeps between two pops: the bookkeeping,
      every node scored and on an edge from its parent, the start node first,
      and every state inside `universe`. */
  ghost predicate Searching<S, Sc>(succ: S -> seq<S>, reach: (Node<S, Sc>, S) -> Sc, rescore: (Node<S, Sc>, S) -> Sc, root: S -> Sc,
                                   start: S, universe: set<S>,
                                   nodes: seq<Node<S, Sc>>, depth: seq<nat>, open: set<nat>,
                                   openIndex: map<S, nat>, closed: map<S, nat>)
  {
    && Bookkeeping(nodes, depth, open, openIndex, closed)
    && Scored(reach, rescore, root, nodes) && FollowsEdges(succ, nodes)
    && 0 < |nodes| && nodes[0] == Node(None, root(start), start)
    && (forall i | 0 <= i < |nodes| :: nodes[i].state in universe)
  }

  /** What a search keeps while no goal state has been popped: every
      successor of a closed state is closed or open, the start state is one of
      them, and no closed state is a goal. */
  ghost predicate Unfinished<S>(succ: S -> seq<S>, goal: S -> bool, start: S,
                                openIndex: map<S, nat>, closed: map<S, nat>)
  {
    && Bordered(succ, closed.Keys, openIndex.Keys)
    && (start in closed || start in openIndex)
    && (forall s | s in closed :: !goal(s))
  }

  /** The measure of a search loop: states of `universe` not yet closed, then
      the open nodes. */
  ghost predicate Progress<S>(universe: set<S>, closed: map<S, nat>, open: set<nat>,
                              closed': map<S, nat>, open': set<nat>)
  {
    || |universe - closed'.Keys| < |universe - closed.Keys|
    || (|universe - closed'.Keys| == |universe - closed.Keys| && |open'| < |open|)
  }

  /** Right after seeding, the search is under way. */
  lemma SeededSearching<S, Sc>(succ: S -> seq<S>, reach: (Node<S, Sc>, S) -> Sc, rescore: (Node<S, Sc>, S) -> Sc, root: S -> Sc,
                               goal: S -> bool, start: S, universe: set<S>)
    requires start in universe
    ensures Searching(succ, reach, rescore, root, start, universe, [Node(None, root(start), start)], [0], {0},
                      map[start := 0], map[])
    ensures Unfinished(succ, goal, start, map[start := 0], map[])
  {
    SeededBookkeeping(start, root(start));
  }

  /** An open node has a position and its state is in the open index. */
  lemma OpenNodeIndexed<S, Sc>(nodes: seq<Node<S, Sc>>, open: set<nat>, openIndex: map<S, nat>, cur: nat)
    requires OpenIndexed(nodes, open, openIndex) && cur in open
    ensures cur < |nodes| && nodes[cur].state in openIndex
  {
  }

  /** Popping the open node `cur` and closing it at once, as the drivers do
      when it holds a goal state, keeps the search invariant and makes
      progress. */
  lemma PopCloseKeeps<S, Sc>(succ: S -> seq<S>, reach: (Node<S, Sc>, S) -> Sc, rescore: (Node<S, Sc>, S) -> Sc, root: S -> Sc,
                             start: S, universe: set<S>,
                             nodes: seq<Node<S, Sc>>, depth: seq<nat>, open: set<nat>,
                             openIndex: map<S, nat>, closed: map<S, nat>, cur: nat)
    requires Searching(succ, reach, rescore, root, start, universe, nodes, depth, open, openIndex, closed)
    requires cur in open
    ensures cur < |nodes|
    ensures Searching(succ, reach, rescore, root, start, universe, nodes, depth, open - {cur},
                      openIndex - {nodes[cur].state}, closed[nodes[cur].state := cur])
    ensures Progress(universe, closed, open, closed[nodes[cur].state := cur], open - {cur})
  {
    PopKeeps(nodes, depth, open, openIndex, closed, cur);
    CloseKeeps(nodes, depth, open - {cur}, openIndex - {nodes[cur].state}, closed, cur);
    CloseProgress(universe, closed, open, nodes[cur].state, cur, open - {cur});
  }

  /** Closing a state `u` of `universe` makes progress, provided the open
      nodes become fewer whenever `u` was closed already. */
  lemma CloseProgress<S>(universe: set<S>, closed: map<S, nat>, open: set<nat>, u: S, cur: nat, open': set<nat>)
    requires u in universe && (u in closed ==> |open'| < |open|)
    ensures Progress(universe, closed, open, closed[u := cur], open')
  {
    if u !in closed {
      assert universe - closed[u := cur].Keys == (universe - closed.Keys) - {u};
    } else {
      assert closed[u := cur].Keys == closed.Keys;
    }
  }

  /** Popping the open node `cur`, whose state `u` is not a goal, treating
      the successors of `u` in order and closing `u` keeps the search
      invariant, keeps the search unfinished, and makes progress. */
  lemma ExpansionKeeps<S, Sc>(succ: S -> seq<S>, reach: (Node<S, Sc>, S) -> Sc, rescore: (Node<S, Sc>, S) -> Sc,
                              fires: (Sc, Node<S, Sc>, S) -> bool, root: S -> Sc, goal: S -> bool,
                              start: S, universe: set<S>,
                              nodes: seq<Node<S, Sc>>, depth: seq<nat>, open: set<nat>,
                              openIndex: map<S, nat>, closed: map<S, nat>, cur: nat)
    requires Searching(succ, reach, rescore, root, start, universe, nodes, depth, open, openIndex, closed)
    requires Unfinished(succ, goal, start, openIndex, closed) && ClosedUnder(succ, universe)
    requires cur in open && cur < |nodes| && !goal(nodes[cur].state)
    ensures Addressed(SearchTree(nodes, depth, open - {cur}, openIndex - {nodes[cur].state}))
    ensures var u := nodes[cur].state;
            var r := RelaxAll(reach, rescore, fires, SearchTree(nodes, depth, open - {cur}, openIndex - {u}),
                              closed, cur, succ(u));
            && Searching(succ, reach, rescore, root, start, universe, r.nodes, r.depth, r.open, r.openIndex,
                         closed[u := cur])
            && Unfinished(succ, goal, start, r.openIndex, closed[u := cur])
            && Progress(universe, closed, open, closed[u := cur], r.open)
  {
    var u := nodes[cur].state;
    var p := SearchTree(nodes, depth, open - {cur}, openIndex - {u});
    PopKeeps(nodes, depth, open, openIndex, closed, cur);
    RelaxAllExpands(reach, rescore, fires, p, closed, cur, succ(u));
    var r := RelaxAll(reach, rescore, fires, p, closed, cur, succ(u));
    ExpandedKeepsEdges(succ, reach, rescore, fires, p.nodes, p.depth, p.open, p.openIndex, closed, cur, succ(u),
                       r.nodes, r.open, r.openIndex);
    ExpandedKeepsScores(reach, rescore, fires, root, p.nodes, p.depth, p.open, p.openIndex, closed, cur, succ(u),
                        r.nodes, r.open, r.openIndex);
    GrownKeepsFrontier(succ, reach, rescore, fires, goal, start, universe, p.nodes, p.open, openIndex, closed,
                       cur, r.nodes, r.open, r.openIndex);
    CloseKeeps(r.nodes, r.depth, r.open, r.openIndex, closed, cur);
  }

  /** An expansion of the popped node `cur` that treats only a prefix `run`
      of a buffer `buf` keeps the bookkeeping, whether the node is then closed or
      not; keeps the scores; and keeps every parent link an edge when `buf`
      holds only successors of the expanded state. */
  lemma PartialExpansionKeeps<S, Sc>(succ: S -> seq<S>, reach: (Node<S, Sc>, S) -> Sc, rescore: (Node<S, Sc>, S) -> Sc,
                                     fires: (Sc, Node<S, Sc>, S) -> bool, root: S -> Sc,
                                     nodes: seq<Node<S, Sc>>, depth: seq<nat>, open: set<nat>,
                                     openIndex: map<S, nat>, closed: map<S, nat>, cur: nat, buf: seq<S>, run: seq<S>)
    requires Bookkeeping(nodes, depth, open, openIndex, closed) && cur in open
    requires |run| <= |buf| && run == buf[..|run|]
    ensures cur < |nodes| && Addressed(SearchTree(nodes, depth, open - {cur}, openIndex - {nodes[cur].state}))
    ensures var u := nodes[cur].state;
            var r := RelaxAll(reach, rescore, fires, SearchTree(nodes, depth, open - {cur}, openIndex - {u}),
                              closed, cur, run);
            && Bookkeeping(r.nodes, r.depth, r.open, r.openIndex, closed)
            && Bookkeeping(r.nodes, r.depth, r.open, r.openIndex, closed[u := cur])
            && (Scored(reach, rescore, root, nodes) ==> Scored(reach, rescore, root, r.nodes))
            && (FollowsEdges(succ, nodes) && (forall t | t in buf :: t in succ(u)) ==> FollowsEdges(succ, r.nodes))
  {
    var u := nodes[cur].state;
    PopKeeps(nodes, depth, open, openIndex, closed, cur);
    var p := SearchTree(nodes, depth, open - {cur}, openIndex - {u});
    RelaxAllExpands(reach, rescore, fires, p, closed, cur, run);
    var r := RelaxAll(reach, rescore, fires, p, closed, cur, run);
    assert r.nodes[cur] == nodes[cur];
    CloseKeeps(r.nodes, r.depth, r.open, r.openIndex, closed, cur);
    if Scored(reach, rescore, root, nodes) {
      ExpandedKeepsScores(reach, rescore, fires, root, p.nodes, p.depth, p.open, p.openIndex, closed, cur, run,
                          r.nodes, r.open, r.openIndex);
    }
    if FollowsEdges(succ, nodes) && (forall t | t in buf :: t in succ(u)) {
      assert forall t | t in run :: t in buf by {
        assert run == buf[..|run|];
      }
      ExpandedKeepsEdges(succ, reach, rescore, fires, p.nodes, p.depth, p.open, p.openIndex, closed, cur, run,
                         r.nodes, r.open, r.openIndex);
    }
  }

  /** What one round of an `*_iterative_find` step that returns early at a
      closed handle does once it has popped node `cur`: the new nodes and
      open collections, the closed map, whether the goal was found, and what
      the successor buffer then holds. */
  datatype Round<S, Sc> = Round(tree: SearchTree<S, Sc>, closed: map<S, nat>, found: bool, buffer: seq<S>)

  /** One such round, with `buf` what the buffer held before it: a goal state
      is closed and found; any other state is expanded over `buf` followed by
      its successors, up to the first closed handle. A round that reaches such
      a handle closes nothing and leaves the buffer as it is; one that does
      not closes the popped node and clears the buffer. */
  ghost function IterativeRound<S, Sc>(succ: S -> seq<S>, reach: (Node<S, Sc>, S) -> Sc, rescore: (Node<S, Sc>, S) -> Sc,
                                       fires: (Sc, Node<S, Sc>, S) -> bool, goal: S -> bool,
                                       g: SearchTree<S, Sc>, closed: map<S, nat>, buf: seq<S>, cur: nat)
    : Round<S, Sc>
    requires Bookkeeping(g.nodes, g.depth, g.open, g.openIndex, closed) && cur in g.open
  {
    var u := g.nodes[cur].state;
    var popped := SearchTree(g.nodes, g.depth, g.open - {cur}, g.openIndex - {u});
    if goal(u) then Round(popped, closed[u := cur], true, buf)
    else
      var all := buf + succ(u);
      var run := OpenRun(all, closed);
      var tree := RelaxAll(reach, rescore, fires, popped, closed, cur, run);
      if |run| < |all| then Round(tree, closed, false, all)
      else Round(tree, closed[u := cur], false, [])
  }

  /** A round keeps the bookkeeping and the scores, and it keeps every parent
      link an edge when it starts from an empty buffer. */
  lemma IterativeRoundKeeps<S, Sc>(succ: S -> seq<S>, reach: (Node<S, Sc>, S) -> Sc, rescore: (Node<S, Sc>, S) -> Sc,
                                   fires: (Sc, Node<S, Sc>, S) -> bool, root: S -> Sc, goal: S -> bool,
                                   g: SearchTree<S, Sc>, closed: map<S, nat>, buf: seq<S>, cur: nat)
    requires Bookkeeping(g.nodes, g.depth, g.open, g.openIndex, closed) && cur in g.open
    ensures var r := IterativeRound(succ, reach, rescore, fires, goal, g, closed, buf, cur);
            && Bookkeeping(r.tree.nodes, r.tree.depth, r.tree.open, r.tree.openIndex, r.closed)
            && (Scored(reach, rescore, root, g.nodes) ==> Scored(reach, rescore, root, r.tree.nodes))
            && (FollowsEdges(succ, g.nodes) && buf == [] ==> FollowsEdges(succ, r.tree.nodes))
  {
    PopKeeps(g.nodes, g.depth, g.open, g.openIndex, closed, cur);
    var u := g.nodes[cur].state;
    if goal(u) {
      RoundFindsGoal(succ, reach, rescore, fires, goal, g, closed, buf, cur);
      CloseKeeps(g.nodes, g.depth, g.open - {cur}, g.openIndex - {u}, closed, cur);
    } else {
      RoundExpands(succ, reach, rescore, fires, goal, g, closed, buf, cur);
      PartialExpansionKeeps(succ, reach, rescore, fires, root, g.nodes, g.depth, g.open, g.openIndex, closed, cur, buf + succ(u),
                            OpenRun(buf + succ(u), closed));
      if buf == [] {
        assert buf + succ(u) == succ(u);
      }
    }
  }

  /** The round of a goal state. */
  lemma RoundFindsGoal<S, Sc>(succ: S -> seq<S>, reach: (Node<S, Sc>, S) -> Sc, rescore: (Node<S, Sc>, S) -> Sc,
                              fires: (Sc, Node<S, Sc>, S) -> bool, goal: S -> bool,
                              g: SearchTree<S, Sc>, closed: map<S, nat>, buf: seq<S>, cur: nat)
    requires Bookkeeping(g.nodes, g.depth, g.open, g.openIndex, closed) && cur in g.open
    requires cur < |g.nodes| && goal(g.nodes[cur].state)
    ensures var u := g.nodes[cur].state;
            IterativeRound(succ, reach, rescore, fires, goal, g, closed, buf, cur) ==
            Round(SearchTree(g.nodes, g.depth, g.open - {cur}, g.openIndex - {u}), closed[u := cur], true, buf)
  {
  }

  /** The round of any other state. */
  lemma RoundExpands<S, Sc>(succ: S -> seq<S>, reach: (Node<S, Sc>, S) -> Sc, rescore: (Node<S, Sc>, S) -> Sc,
                            fires: (Sc, Node<S, Sc>, S) -> bool, goal: S -> bool,
                            g: SearchTree<S, Sc>, closed: map<S, nat>, buf: seq<S>, cur: nat)
    requires Bookkeeping(g.nodes, g.depth, g.open, g.openIndex, closed) && cur in g.open
    requires cur < |g.nodes| && !goal(g.nodes[cur].state)
    ensures Addressed(SearchTree(g.nodes, g.depth, g.open - {cur}, g.openIndex - {g.nodes[cur].state}))
    ensures var u := g.nodes[cur].state;
            var all := buf + succ(u);
            var run := OpenRun(all, closed);
            var r := IterativeRound(succ, reach, rescore, fires, goal, g, closed, buf, cur);
            && r.tree == RelaxAll(reach, rescore, fires, SearchTree(g.nodes, g.depth, g.open - {cur}, g.openIndex - {u}),
                                  closed, cur, run)
            && !r.found
            && r.closed == (if |run| < |all| then closed else closed[u := cur])
            && r.buffer == (if |run| < |all| then all else [])
  {
  }

  /** The frontier facts of `ExpansionKeeps`: with `u` popped from the open
      index `openIndex` and all its successors treated, closing `u` keeps
      every successor of a closed state closed or open; the new nodes lie
      inside `universe`; and the loop measure goes down. */
  lemma GrownKeepsFrontier<S, Sc>(succ: S -> seq<S>, reach: (Node<S, Sc>, S) -> Sc, rescore: (Node<S, Sc>, S) -> Sc,
                                  fires: (Sc, Node<S, Sc>, S) -> bool, goal: S -> bool,
                                  start: S, universe: set<S>,
                                  nodes: seq<Node<S, Sc>>, open: set<nat>, openIndex: map<S, nat>,
                                  closed: map<S, nat>, cur: nat,
                                  nodes': seq<Node<S, Sc>>, open': set<nat>, openIndex': map<S, nat>)
    requires cur < |nodes| && nodes[cur].state in openIndex
    requires Unfinished(succ, goal, start, openIndex, closed) && ClosedUnder(succ, universe)
    requires !goal(nodes[cur].state)
    requires forall i | 0 <= i < |nodes| :: nodes[i].state in universe
    requires cur in open + {cur} && |open + {cur}| == |open| + 1
    requires Grown(reach, rescore, fires, nodes, open, openIndex - {nodes[cur].state}, closed, cur,
                   succ(nodes[cur].state), nodes', open', openIndex')
    ensures var u := nodes[cur].state;
            && Unfinished(succ, goal, start, openIndex', closed[u := cur])
            && (forall i | 0 <= i < |nodes'| :: nodes'[i].state in universe)
            && Progress(universe, closed, open + {cur}, closed[u := cur], open')
  {
    var u := nodes[cur].state;
    GrownStaysInside(succ, reach, rescore, fires, universe, nodes, open, openIndex - {u}, closed, cur, nodes', open', openIndex');
    GrownKeepsBordered(succ, reach, rescore, fires, goal, start, nodes, open, openIndex, closed, cur, nodes', open', openIndex');
    ClosedRegrowsNothing(succ, reach, rescore, fires, nodes, open, openIndex, closed, cur, nodes', open', openIndex');
    CloseProgress(universe, closed, open + {cur}, u, cur, open');
  }

  /** The states of the nodes an expansion adds are successors, so they stay
      inside a universe closed under successors. */
  lemma GrownStaysInside<S, Sc>(succ: S -> seq<S>, reach: (Node<S, Sc>, S) -> Sc, rescore: (Node<S, Sc>, S) -> Sc,
                                fires: (Sc, Node<S, Sc>, S) -> bool, universe: set<S>,
                                nodes: seq<Node<S, Sc>>, open: set<nat>, openIndex: map<S, nat>,
                                closed: map<S, nat>, cur: nat,
                                nodes': seq<Node<S, Sc>>, open': set<nat>, openIndex': map<S, nat>)
    requires ClosedUnder(succ, universe) && forall i | 0 <= i < |nodes| :: nodes[i].state in universe
    requires cur < |nodes|
    requires Grown(reach, rescore, fires, nodes, open, openIndex, closed, cur, succ(nodes[cur].state), nodes', open', openIndex')
    ensures forall i | 0 <= i < |nodes'| :: nodes'[i].state in universe
  {
    forall i | 0 <= i < |nodes'| ensures nodes'[i].state in universe {
      if i >= |nodes| {
        assert nodes'[i].state in succ(nodes[cur].state);
      } else {
        assert nodes'[i].state == nodes[i].state;
      }
    }
  }

  /** Closing the expanded state `u` after its successors were treated keeps
      every successor of a closed state closed or open. */
  lemma GrownKeepsBordered<S, Sc>(succ: S -> seq<S>, reach: (Node<S, Sc>, S) -> Sc, rescore: (Node<S, Sc>, S) -> Sc,
                                  fires: (Sc, Node<S, Sc>, S) -> bool, goal: S -> bool, start: S,
                                  nodes: seq<Node<S, Sc>>, open: set<nat>, openIndex: map<S, nat>,
                                  closed: map<S, nat>, cur: nat,
                                  nodes': seq<Node<S, Sc>>, open': set<nat>, openIndex': map<S, nat>)
    requires cur < |nodes| && !goal(nodes[cur].state)
    requires Unfinished(succ, goal, start, openIndex, closed)
    requires Grown(reach, rescore, fires, nodes, open, openIndex - {nodes[cur].state}, closed, cur,
                   succ(nodes[cur].state), nodes', open', openIndex')
    ensures Unfinished(succ, goal, start, openIndex', closed[nodes[cur].state := cur])
  {
  }

  /** Expanding a state that is closed already adds no node: each of its
      successors is closed, or open under another node. */
  lemma ClosedRegrowsNothing<S, Sc>(succ: S -> seq<S>, reach: (Node<S, Sc>, S) -> Sc, rescore: (Node<S, Sc>, S) -> Sc,
                                    fires: (Sc, Node<S, Sc>, S) -> bool,
                                    nodes: seq<Node<S, Sc>>, open: set<nat>, openIndex: map<S, nat>,
                                    closed: map<S, nat>, cur: nat,
                                    nodes': seq<Node<S, Sc>>, open': set<nat>, openIndex': map<S, nat>)
    requires cur < |nodes| && Bordered(succ, closed.Keys, openIndex.Keys)
    requires Grown(reach, rescore, fires, nodes, open, openIndex - {nodes[cur].state}, closed, cur,
                   succ(nodes[cur].state), nodes', open', openIndex')
    ensures nodes[cur].state in closed ==> open' == open
  {
    assert |nodes| < |nodes'| ==> nodes'[|nodes|].state in succ(nodes[cur].state);
    if nodes[cur].state in closed {
      assert Positions(|nodes|, |nodes'|) == {};
    }
  }

  /** What a search loop has established when it ends: with a goal node
      found, the path read back from it is a walk from `start`; with the
      frontier exhausted, the open index is empty and no walk from `start`
      reaches a goal state. */
  lemma SearchEnds<S, Sc>(succ: S -> seq<S>, reach: (Node<S, Sc>, S) -> Sc, rescore: (Node<S, Sc>, S) -> Sc, root: S -> Sc, goal: S -> bool,
                          start: S, universe: set<S>,
                          nodes: seq<Node<S, Sc>>, depth: seq<nat>, open: set<nat>,
                          openIndex: map<S, nat>, closed: map<S, nat>, found: Option<nat>)
    requires Searching(succ, reach, rescore, root, start, universe, nodes, depth, open, openIndex, closed)
    requires found.Some? ==> found.value < |nodes|
    requires found.None? ==> open == {} && Unfinished(succ, goal, start, openIndex, closed)
    ensures found.Some? ==> var path := PathFrom(nodes, depth, found.value);
                            path[|path| - 1] == start && IsBackWalk(succ, path)
    ensures found.None? ==> openIndex == map[]
    ensures found.None? ==> forall w | IsWalk(succ, w) && |w| > 0 && w[0] == start :: !goal(w[|w| - 1])
  {
    if found.Some? {
      PathEndsAtStart(nodes, depth, found.value);
      PathFollowsEdges(succ, nodes, depth, found.value);
    } else {
      OpenSizesAgree(nodes, open, openIndex);
      forall w | IsWalk(succ, w) && |w| > 0 && w[0] == start
        ensures !goal(w[|w| - 1])
      {
        ExhaustedSearch(succ, closed.Keys, start, w);
      }
    }
  }

  /** One round of the search loop of a `*_find`, once it has popped node
      `cur`: a goal state is found; any other state is expanded over all its
      successors, closed handles skipped. Either way the popped node is
      closed, and the successor buffer ends empty. */
  ghost function FindRound<S, Sc>(succ: S -> seq<S>, reach: (Node<S, Sc>, S) -> Sc, rescore: (Node<S, Sc>, S) -> Sc,
                                  fires: (Sc, Node<S, Sc>, S) -> bool, goal: S -> bool,
                                  g: SearchTree<S, Sc>, closed: map<S, nat>, cur: nat)
    : Round<S, Sc>
    requires Bookkeeping(g.nodes, g.depth, g.open, g.openIndex, closed) && cur in g.open
  {
    var u := g.nodes[cur].state;
    var popped := SearchTree(g.nodes, g.depth, g.open - {cur}, g.openIndex - {u});
    if goal(u) then Round(popped, closed[u := cur], true, [])
    else Round(RelaxAll(reach, rescore, fires, popped, closed, cur, succ(u)), closed[u := cur], false, [])
  }

  /** A round of the search loop closes the popped node, takes it out of the
      open frontier, reports a goal exactly when its state is one, and keeps
      the bookkeeping. */
  lemma FindRoundCloses<S, Sc>(succ: S -> seq<S>, reach: (Node<S, Sc>, S) -> Sc, rescore: (Node<S, Sc>, S) -> Sc,
                               fires: (Sc, Node<S, Sc>, S) -> bool, goal: S -> bool,
                               g: SearchTree<S, Sc>, closed: map<S, nat>, cur: nat)
    requires Bookkeeping(g.nodes, g.depth, g.open, g.openIndex, closed) && cur in g.open
    ensures cur < |g.nodes|
    ensures var r := FindRound(succ, reach, rescore, fires, goal, g, closed, cur);
            && r.closed == closed[g.nodes[cur].state := cur]
            && r.found == goal(g.nodes[cur].state)
            && cur !in r.tree.open && r.buffer == []
            && Bookkeeping(r.tree.nodes, r.tree.depth, r.tree.open, r.tree.openIndex, r.closed)
  {
    PopKeeps(g.nodes, g.depth, g.open, g.openIndex, closed, cur);
    var u := g.nodes[cur].state;
    var popped := SearchTree(g.nodes, g.depth, g.open - {cur}, g.openIndex - {u});
    if goal(u) {
      CloseKeeps(g.nodes, g.depth, g.open - {cur}, g.openIndex - {u}, closed, cur);
    } else {
      RelaxAllExpands(reach, rescore, fires, popped, closed, cur, succ(u));
      var r := RelaxAll(reach, rescore, fires, popped, closed, cur, succ(u));
      CloseKeeps(r.nodes, r.depth, r.open, r.openIndex, closed, cur);
    }
  }

  /** From an empty buffer, and when no successor of the popped state is
      closed, a round of an `*_iterative_find` is a round of the search loop
      of `*_find`. */
  lemma IterativeRoundIsFindRound<S, Sc>(succ: S -> seq<S>, reach: (Node<S, Sc>, S) -> Sc, rescore: (Node<S, Sc>, S) -> Sc,
                                         fires: (Sc, Node<S, Sc>, S) -> bool, goal: S -> bool,
                                         g: SearchTree<S, Sc>, closed: map<S, nat>, cur: nat)
    requires Bookkeeping(g.nodes, g.depth, g.open, g.openIndex, closed) && cur in g.open
    requires cur < |g.nodes| && forall t | t in succ(g.nodes[cur].state) :: t !in closed
    ensures IterativeRound(succ, reach, rescore, fires, goal, g, closed, [], cur) ==
            FindRound(succ, reach, rescore, fires, goal, g, closed, cur)
  {
    var u := g.nodes[cur].state;
    if !goal(u) {
      var all := [] + succ(u);
      assert all == succ(u);
      var run := OpenRun(all, closed);
      assert forall j | 0 <= j < |all| :: all[j] in succ(u);
      assert run == all;
    }
  }

  /** The states `r.openIndex` holds after the handles `seen` are treated:
      those held before, and the handles of `seen` that are not closed. */
  lemma {:induction false} RelaxAllKeys<S, Sc>(reach: (Node<S, Sc>, S) -> Sc, rescore: (Node<S, Sc>, S) -> Sc,
                                               fires: (Sc, Node<S, Sc>, S) -> bool,
                                               g: SearchTree<S, Sc>, closed: map<S, nat>, cur: nat, seen: seq<S>)
    requires Addressed(g) && cur < |g.nodes|
    ensures forall s | s in RelaxAll(reach, rescore, fires, g, closed, cur, seen).openIndex ::
              s in g.openIndex || (s in seen && s !in closed)
    decreases |seen|
  {
    if seen != [] {
      var front := seen[..|seen| - 1];
      RelaxAllKeys(reach, rescore, fires, g, closed, cur, front);
      forall s | s in front
        ensures s in seen
      {
        var k :| 0 <= k < |front| && front[k] == s;
        assert seen[k] == s;
      }
    }
  }

  /** No state is both open and closed. */
  ghost predicate Exclusive<S>(openIndex: map<S, nat>, closed: map<S, nat>)
  {
    openIndex.Keys !! closed.Keys
  }

  /** No state is one of its own successors. */
  ghost predicate NoSelfLoops<S(!new)>(succ: S -> seq<S>)
  {
    forall s :: s !in succ(s)
  }

  /** Without self-loops, a round of the search loop keeps open and closed
      states apart. */
  lemma FindRoundExclusive<S(!new), Sc>(succ: S -> seq<S>, reach: (Node<S, Sc>, S) -> Sc, rescore: (Node<S, Sc>, S) -> Sc,
                                  fires: (Sc, Node<S, Sc>, S) -> bool, goal: S -> bool,
                                  g: SearchTree<S, Sc>, closed: map<S, nat>, cur: nat)
    requires Bookkeeping(g.nodes, g.depth, g.open, g.openIndex, closed) && cur in g.open
    requires NoSelfLoops(succ) && Exclusive(g.openIndex, closed)
    ensures var r := FindRound(succ, reach, rescore, fires, goal, g, closed, cur);
            Exclusive(r.tree.openIndex, r.closed)
  {
    var u := g.nodes[cur].state;
    var popped := SearchTree(g.nodes, g.depth, g.open - {cur}, g.openIndex - {u});
    if !goal(u) {
      RelaxAllKeys(reach, rescore, fires, popped, closed, cur, succ(u));
      assert u !in succ(u);
    }
  }

  /** The successor buffer of an iterative search is empty or holds a
      closed handle: an early return leaves the closed handle it met in it. */
  ghost predicate StaleBuffer<S>(buf: seq<S>, closed: map<S, nat>)
  {
    buf == [] || exists k | 0 <= k < |buf| :: buf[k] in closed
  }

  /** Once the buffer holds a closed handle, every round that does not pop a
      goal returns early at it: it closes nothing, and the buffer keeps the
      handle and grows by the popped state's successors. */
  lemma StaleBufferSticks<S, Sc>(succ: S -> seq<S>, reach: (Node<S, Sc>, S) -> Sc, rescore: (Node<S, Sc>, S) -> Sc,
                                 fires: (Sc, Node<S, Sc>, S) -> bool, goal: S -> bool,
                                 g: SearchTree<S, Sc>, closed: map<S, nat>, buf: seq<S>, cur: nat)
    requires Bookkeeping(g.nodes, g.depth, g.open, g.openIndex, closed) && cur in g.open
    requires cur < |g.nodes| && !goal(g.nodes[cur].state)
    requires buf != [] && StaleBuffer(buf, closed)
    ensures var r := IterativeRound(succ, reach, rescore, fires, goal, g, closed, buf, cur);
            && r.closed == closed && !r.found
            && r.buffer == buf + succ(g.nodes[cur].state) && StaleBuffer(r.buffer, r.closed)
  {
    var u := g.nodes[cur].state;
    var all := buf + succ(u);
    var run := OpenRun(all, closed);
    var k :| 0 <= k < |buf| && buf[k] in closed;
    assert all[k] == buf[k];
    assert forall j | 0 <= j < |run| :: run[j] == all[j];
    RoundExpands(succ, reach, rescore, fires, goal, g, closed, buf, cur);
  }

  /** Every round keeps the buffer empty or holding a closed handle. */
  lemma StaleBufferKept<S, Sc>(succ: S -> seq<S>, reach: (Node<S, Sc>, S) -> Sc, rescore: (Node<S, Sc>, S) -> Sc,
                               fires: (Sc, Node<S, Sc>, S) -> bool, goal: S -> bool,
                               g: SearchTree<S, Sc>, closed: map<S, nat>, buf: seq<S>, cur: nat)
    requires Bookkeeping(g.nodes, g.depth, g.open, g.openIndex, closed) && cur in g.open
    requires StaleBuffer(buf, closed)
    ensures var r := IterativeRound(succ, reach, rescore, fires, goal, g, closed, buf, cur);
            StaleBuffer(r.buffer, r.closed)
  {
  }

  /** Without self-loops, and with the buffer empty or holding a closed
      handle, a round of an `*_iterative_find` keeps open and closed states
      apart. */
  lemma IterativeRoundExclusive<S(!new), Sc>(succ: S -> seq<S>, reach: (Node<S, Sc>, S) -> Sc, rescore: (Node<S, Sc>, S) -> Sc,
                                       fires: (Sc, Node<S, Sc>, S) -> bool, goal: S -> bool,
                                       g: SearchTree<S, Sc>, closed: map<S, nat>, buf: seq<S>, cur: nat)
    requires Bookkeeping(g.nodes, g.depth, g.open, g.openIndex, closed) && cur in g.open
    requires NoSelfLoops(succ) && Exclusive(g.openIndex, closed) && StaleBuffer(buf, closed)
    ensures var r := IterativeRound(succ, reach, rescore, fires, goal, g, closed, buf, cur);
            Exclusive(r.tree.openIndex, r.closed)
  {
    var u := g.nodes[cur].state;
    var popped := SearchTree(g.nodes, g.depth, g.open - {cur}, g.openIndex - {u});
    if !goal(u) {
      RoundExpands(succ, reach, rescore, fires, goal, g, closed, buf, cur);
      var all := buf + succ(u);
      var run := OpenRun(all, closed);
      RelaxAllKeys(reach, rescore, fires, popped, closed, cur, run);
      if buf != [] {
        StaleBufferSticks(succ, reach, rescore, fires, goal, g, closed, buf, cur);
      } else {
        assert all == succ(u);
        assert u !in succ(u);
        assert forall s | s in run :: s in all;
      }
    }
  }

  /** A state that is its own successor ends up both open and closed: the
      popped node's state leaves the open index before the successors are
      treated and is closed only after them, so the self-loop makes it a new
      open node first. */
  lemma SelfLoopBreaksExclusive()
    ensures var g := SearchTree([Node(None, 0, 7)], [0], {0}, map[7 := 0]);
            var r := FindRound((s: int) => [s], (n: Node<int, int>, t: int) => 0, (n: Node<int, int>, t: int) => 0,
                               (c: int, n: Node<int, int>, t: int) => false, (s: int) => false, g, map[], 0);
            && Exclusive(g.openIndex, map[])
            && 7 in r.closed && 7 in r.tree.openIndex && r.tree.openIndex[7] in r.tree.open
            && !Exclusive(r.tree.openIndex, r.closed)
  {
    var g := SearchTree([Node(None, 0, 7)], [0], {0}, map[7 := 0]);
    var reach := (n: Node<int, int>, t: int) => 0;
    var fires := (c: int, n: Node<int, int>, t: int) => false;
    var popped := SearchTree(g.nodes, g.depth, g.open - {0}, g.openIndex - {7});
    assert popped.openIndex == map[];
    assert RelaxAll(reach, reach, fires, popped, map[], 0, [7]) ==
           Relax(reach, reach, fires, RelaxAll(reach, reach, fires, popped, map[], 0, []), map[], 0, 7);
  }

  /** The search of `EarlyReturnLosesGoal`: the closed start node and one
      open child of it. */
  lemma LossSearchKept()
    ensures Bookkeeping([Node(None, 0, 1), Node(Some(0), 0, 2)], [0, 1], {1}, map[2 := 1], map[1 := 0])
  {
  }

  /** The early return at a closed handle can lose a reachable goal. The start
      state 1 is closed and node 1, of state 2, is the only open node; the
      successors of 2 are 1, then 4, which passes the goal test. Whatever the
      scoring, the iterative round stops at 1 before it reaches 4: it leaves
      the popped node neither open nor closed, the frontier empty and the
      buffer stale, so the search ends without a path. The round of
      `FindRound` on the same search opens a node for 4. */
  lemma EarlyReturnLosesGoal(succ: int -> seq<int>, reach: (Node<int, int>, int) -> int,
                             rescore: (Node<int, int>, int) -> int, fires: (int, Node<int, int>, int) -> bool,
                             goal: int -> bool)
    requires succ(2) == [1, 4] && !goal(2) && goal(4)
    ensures var g := SearchTree([Node(None, 0, 1), Node(Some(0), 0, 2)], [0, 1], {1}, map[2 := 1]);
            var closed := map[1 := 0];
            && Bookkeeping(g.nodes, g.depth, g.open, g.openIndex, closed)
            && (var r := IterativeRound(succ, reach, rescore, fires, goal, g, closed, [], 1);
                var f := FindRound(succ, reach, rescore, fires, goal, g, closed, 1);
                && !r.found && r.closed == closed
                && r.tree.open == {} && r.tree.openIndex == map[]
                && r.buffer == [1, 4] && StaleBuffer(r.buffer, r.closed)
                && 4 in f.tree.openIndex && f.tree.openIndex[4] in f.tree.open)
  {
    LossSearchKept();
    LossIterativeRound(succ, reach, rescore, fires, goal);
    LossFindRound(succ, reach, rescore, fires, goal);
  }

  /** The iterative round of `EarlyReturnLosesGoal`. */
  lemma LossIterativeRound(succ: int -> seq<int>, reach: (Node<int, int>, int) -> int,
                           rescore: (Node<int, int>, int) -> int, fires: (int, Node<int, int>, int) -> bool,
                           goal: int -> bool)
    requires succ(2) == [1, 4] && !goal(2)
    requires Bookkeeping([Node(None, 0, 1), Node(Some(0), 0, 2)], [0, 1], {1}, map[2 := 1], map[1 := 0])
    ensures var g := SearchTree([Node(None, 0, 1), Node(Some(0), 0, 2)], [0, 1], {1}, map[2 := 1]);
            IterativeRound(succ, reach, rescore, fires, goal, g, map[1 := 0], [], 1) ==
            Round(SearchTree(g.nodes, g.depth, {}, map[]), map[1 := 0], false, [1, 4])
  {
  }

  /** The one-shot round of `EarlyReturnLosesGoal`. */
  lemma LossFindRound(succ: int -> seq<int>, reach: (Node<int, int>, int) -> int,
                      rescore: (Node<int, int>, int) -> int, fires: (int, Node<int, int>, int) -> bool,
                      goal: int -> bool)
    requires succ(2) == [1, 4] && !goal(2)
    requires Bookkeeping([Node(None, 0, 1), Node(Some(0), 0, 2)], [0, 1], {1}, map[2 := 1], map[1 := 0])
    ensures var g := SearchTree([Node(None, 0, 1), Node(Some(0), 0, 2)], [0, 1], {1}, map[2 := 1]);
            var f := FindRound(succ, reach, rescore, fires, goal, g, map[1 := 0], 1);
            4 in f.tree.openIndex && f.tree.openIndex[4] in f.tree.open
  {
    var g := SearchTree([Node(None, 0, 1), Node(Some(0), 0, 2)], [0, 1], {1}, map[2 := 1]);
    var closed := map[1 := 0];
    var popped := SearchTree(g.nodes, g.depth, g.open - {1}, g.openIndex - {2});
    assert popped.open == {} && popped.openIndex == map[];
    var once := RelaxAll(reach, rescore, fires, popped, closed, 1, [1]);
    assert once == Relax(reach, rescore, fires, RelaxAll(reach, rescore, fires, popped, closed, 1, []), closed, 1, 1);
    assert RelaxAll(reach, rescore, fires, popped, closed, 1, [1, 4]) == Relax(reach, rescore, fires, once, closed, 1, 4);
  }
}
