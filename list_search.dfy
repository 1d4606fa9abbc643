/**
 * What the two list drivers, breadth-first search (`breadthfs_t`) and
 * depth-first search (`depthfs_t`), share. Their nodes carry no score, so a
 * node is a `Node<S, ()>`; a successor handle that is already open is skipped,
 * so an open node is never re-parented; the goal test compares state handles
 * with `==`; and an iterative step returns at the first successor handle
 * that is closed or open.
 *
 * The open list (`list_t`) enters a driver as the sequence of node positions
 * it holds, front first.
 */
module ListSearch {
  import opened SearchCore

  /** The score of every node: none. */
  function Unscored<S>(): (Node<S, ()>, S) -> ()
  {
    (from: Node<S, ()>, t: S) => ()
  }

  function Unrooted<S>(): S -> ()
  {
    (s: S) => ()
  }

  /** The update test of an open successor handle: it never holds. */
  function Never<S>(): ((), Node<S, ()>, S) -> bool
  {
    (stored: (), from: Node<S, ()>, t: S) => false
  }

  /** The goal test of both list drivers: `state == end`, pointer identity of
      the handles. */
  function IsEnd<S(==)>(end: S): S -> bool
  {
    (s: S) => s == end
  }

  /** `depth` is the level of each node: 0 for the start node and one more
      than its parent's for any other. */
  ghost predicate Leveled<S>(nodes: seq<Node<S, ()>>, depth: seq<nat>)
  {
    && ParentsBelow(nodes, depth)
    && (|nodes| > 0 ==> depth[0] == 0)
    && (forall i | 0 <= i < |nodes| && nodes[i].parent.Some? ::
          depth[i] == depth[nodes[i].parent.value] + 1)
  }

  /** Nodes added as children of node `cur`, one level below it, keep the
      nodes leveled and leave the older ones as they were. */
  lemma LeveledGrows<S>(nodes: seq<Node<S, ()>>, depth: seq<nat>, cur: nat,
                        nodes': seq<Node<S, ()>>, depth': seq<nat>)
    requires Leveled(nodes, depth) && cur < |nodes|
    requires ParentsBelow(nodes', depth') && |nodes| <= |nodes'|
    requires nodes'[..|nodes|] == nodes && depth'[..|nodes|] == depth
    requires forall k | |nodes| <= k < |nodes'| ::
               nodes'[k].parent == Some(cur) && depth'[k] == depth[cur] + 1
    ensures Leveled(nodes', depth')
    ensures forall k | 0 <= k < |nodes| :: nodes'[k] == nodes[k] && depth'[k] == depth[k]
  {
    var n := |nodes|;
    forall k | 0 <= k < n
      ensures nodes'[k] == nodes[k] && depth'[k] == depth[k]
    {
      assert nodes'[..n][k] == nodes'[k] && depth'[..n][k] == depth'[k];
    }
  }

  /** The level of a node is the number of edges of the path read back from
      it. */
  lemma {:induction false} LevelIsPathLength<S>(nodes: seq<Node<S, ()>>, depth: seq<nat>, i: nat)
    requires Leveled(nodes, depth) && i < |nodes|
    ensures |PathFrom(nodes, depth, i)| == depth[i] + 1
    decreases depth[i]
  {
    match nodes[i].parent
    case None =>
      assert i == 0;
    case Some(p) =>
      LevelIsPathLength(nodes, depth, p);
  }

  /** The positions `lo`, `lo + 1`, ..., `hi - 1`, in the order a successor
      loop that inserts at the back of a list leaves them. */
  function Span(lo: nat, hi: nat): (r: seq<nat>)
    requires lo <= hi
    ensures |r| == hi - lo && forall k | 0 <= k < |r| :: r[k] == lo + k
    decreases hi - lo
  {
    if lo == hi then [] else [lo] + Span(lo + 1, hi)
  }

  /** The positions `hi - 1`, ..., `lo`, in the order a successor loop that
      inserts at the front of a list leaves them. */
  function Countdown(lo: nat, hi: nat): (r: seq<nat>)
    requires lo <= hi
    ensures |r| == hi - lo && forall k | 0 <= k < |r| :: r[k] == hi - 1 - k
    decreases hi - lo
  {
    if lo == hi then [] else [hi - 1] + Countdown(lo, hi - 1)
  }

  lemma SpanSplit(a: nat, b: nat, c: nat)
    requires a <= b <= c
    ensures Span(a, b) + Span(b, c) == Span(a, c)
    ensures Elems(Span(a, c)) == Positions(a, c)
  {
    var s := Span(a, b) + Span(b, c);
    assert forall k | 0 <= k < |s| :: s[k] == a + k by {
      forall k | 0 <= k < |s| ensures s[k] == a + k {
        if k >= b - a {
          assert s[k] == Span(b, c)[k - (b - a)];
        }
      }
    }
    forall x | x in Positions(a, c) ensures x in Span(a, c) {
      assert Span(a, c)[x - a] == x;
    }
  }

  /** Appending the positions of no added node leaves a list as it is. */
  lemma AppendNoSpan(list: seq<nat>, n: nat)
    ensures list + Span(n, n) == list
  {
    assert Span(n, n) == [];
  }

  /** Appending two consecutive spans appends their union. */
  lemma AppendSpans(list: seq<nat>, a: nat, b: nat, c: nat)
    requires a <= b <= c
    ensures (list + Span(a, b)) + Span(b, c) == list + Span(a, c)
  {
    SpanSplit(a, b, c);
    assert (list + Span(a, b)) + Span(b, c) == list + (Span(a, b) + Span(b, c));
  }

  lemma CountdownSplit(a: nat, b: nat, c: nat)
    requires a <= b <= c
    ensures Countdown(b, c) + Countdown(a, b) == Countdown(a, c)
    ensures Elems(Countdown(a, c)) == Positions(a, c)
  {
    var s := Countdown(b, c) + Countdown(a, b);
    assert forall k | 0 <= k < |s| :: s[k] == c - 1 - k by {
      forall k | 0 <= k < |s| ensures s[k] == c - 1 - k {
        if k >= c - b {
          assert s[k] == Countdown(a, b)[k - (c - b)];
        }
      }
    }
    forall x | x in Positions(a, c) ensures x in Countdown(a, c) {
      assert Countdown(a, c)[c - 1 - x] == x;
    }
  }

  /** Prepending the positions of no added node leaves a list as it is. */
  lemma PrependNoCountdown(list: seq<nat>, n: nat)
    ensures Countdown(n, n) + list == list
  {
    assert Countdown(n, n) == [];
  }

  /** Prepending two consecutive countdowns, the later one in front,
      prepends their union. */
  lemma PrependCountdowns(list: seq<nat>, a: nat, b: nat, c: nat)
    requires a <= b <= c
    ensures Countdown(b, c) + (Countdown(a, b) + list) == Countdown(a, c) + list
  {
    CountdownSplit(a, b, c);
    assert Countdown(b, c) + (Countdown(a, b) + list) == (Countdown(b, c) + Countdown(a, b)) + list;
  }

  /** Handle `buf[k]` is treated as a new node by the successor loop that
      starts with the handles `taken` closed or open: it is not one of them
      and no earlier handle of the loop has made it open. */
  ghost predicate Fresh<S>(buf: seq<S>, taken: set<S>, k: nat)
    requires k < |buf|
  {
    buf[k] !in taken && buf[k] !in buf[..k]
  }

  /** How many handles of `buf` the successor loop of an iterative step
      treats before it returns: it stops at the first handle that is closed
      or open. */
  ghost function FreshLength<S>(buf: seq<S>, taken: set<S>): (n: nat)
    ensures n <= |buf|
  {
    if buf == [] || buf[0] in taken then 0 else 1 + FreshLength(buf[1..], taken + {buf[0]})
  }

  /** `FreshLength` is the position of the first handle that is not fresh,
      or the whole buffer when every handle is. */
  lemma {:induction false} FreshLengthIs<S>(buf: seq<S>, taken: set<S>, i: nat)
    requires i <= |buf| && forall k | 0 <= k < i :: Fresh(buf, taken, k)
    requires i < |buf| ==> !Fresh(buf, taken, i)
    ensures FreshLength(buf, taken) == i
    decreases i
  {
    if i == 0 {
      if buf != [] {
        assert buf[..0] == [];
      }
    } else {
      var rest, taken' := buf[1..], taken + {buf[0]};
      assert Fresh(buf, taken, 0);
      forall k | 0 <= k < i - 1
        ensures Fresh(rest, taken', k)
      {
        assert Fresh(buf, taken, k + 1);
        assert buf[..k + 1] == [buf[0]] + rest[..k];
      }
      if i - 1 < |rest| {
        assert buf[..i] == [buf[0]] + rest[..i - 1];
      }
      FreshLengthIs(rest, taken', i - 1);
    }
  }

  /** `r` is `g` with nodes only added, none changed: the nodes and ranks
      of `g` stay as they are; each added node has the expanded node `cur` as
      parent and the rank after it; the added positions join the open
      frontier; and the open index gains exactly the handles of `seen` that
      are not closed. */
  ghost predicate OnlyAdded<S>(g: SearchTree<S, ()>, r: SearchTree<S, ()>, closed: map<S, nat>, cur: nat, seen: seq<S>)
    requires |g.depth| == |g.nodes| && cur < |g.nodes|
  {
    && |g.nodes| <= |r.nodes| && |r.depth| == |r.nodes|
    && r.nodes[..|g.nodes|] == g.nodes && r.depth[..|g.nodes|] == g.depth
    && (forall k | |g.nodes| <= k < |r.nodes| :: r.nodes[k].parent == Some(cur) && r.depth[k] == g.depth[cur] + 1)
    && r.open == g.open + Positions(|g.nodes|, |r.nodes|)
    && r.openIndex.Keys == g.openIndex.Keys + (set t | t in seen && t !in closed)
  }

  lemma OnlyAddedTrans<S>(g: SearchTree<S, ()>, mid: SearchTree<S, ()>, r: SearchTree<S, ()>,
                          closed: map<S, nat>, cur: nat, front: seq<S>, t: S)
    requires |g.depth| == |g.nodes| && cur < |g.nodes|
    requires OnlyAdded(g, mid, closed, cur, front) && OnlyAdded(mid, r, closed, cur, [t])
    ensures OnlyAdded(g, r, closed, cur, front + [t])
  {
    var seen := front + [t];
    assert (set x | x in seen && x !in closed) == (set x | x in front && x !in closed) + (set x | x in [t] && x !in closed);
    assert r.nodes[..|g.nodes|] == r.nodes[..|mid.nodes|][..|g.nodes|];
    assert r.depth[..|g.nodes|] == r.depth[..|mid.nodes|][..|g.nodes|];
    assert mid.depth[cur] == g.depth[cur];
    forall k | |g.nodes| <= k < |r.nodes|
      ensures r.nodes[k].parent == Some(cur) && r.depth[k] == g.depth[cur] + 1
    {
      if k < |mid.nodes| {
        assert r.nodes[k] == mid.nodes[k] && r.depth[k] == mid.depth[k];
      }
    }
  }

  /** One handle of such a loop adds at most one node, for `cur`. */
  lemma RelaxOnlyPushes<S>(g: SearchTree<S, ()>, closed: map<S, nat>, cur: nat, t: S)
    requires Addressed(g) && cur < |g.nodes|
    ensures OnlyAdded(g, Relax(Unscored(), Unscored(), Never(), g, closed, cur, t), closed, cur, [t])
  {
    var reach, fires := Unscored<S>(), Never<S>();
    assert (set x | x in [t] && x !in closed) == {t} - closed.Keys;
    if t in closed || t in g.openIndex {
      RelaxSkips(reach, reach, fires, g, closed, cur, t);
    } else {
      RelaxPushes(reach, reach, fires, g, closed, cur, t);
      var r := Relax(reach, reach, fires, g, closed, cur, t);
      assert r.nodes[..|g.nodes|] == g.nodes;
      assert r.depth[..|g.nodes|] == g.depth;
      assert r.openIndex.Keys == g.openIndex.Keys + {t};
    }
  }

  /** A successor loop that never re-parents only adds nodes. */
  lemma {:induction false} OnlyPushes<S>(g: SearchTree<S, ()>, closed: map<S, nat>, cur: nat, seen: seq<S>)
    requires Addressed(g) && cur < |g.nodes|
    ensures OnlyAdded(g, RelaxAll(Unscored(), Unscored(), Never(), g, closed, cur, seen), closed, cur, seen)
    decreases |seen|
  {
    var reach, fires := Unscored<S>(), Never<S>();
    if seen == [] {
      assert (set t | t in seen && t !in closed) == {};
      assert g.nodes[..|g.nodes|] == g.nodes && g.depth[..|g.nodes|] == g.depth;
    } else {
      var front, t := seen[..|seen| - 1], seen[|seen| - 1];
      OnlyPushes(g, closed, cur, front);
      var mid := RelaxAll(reach, reach, fires, g, closed, cur, front);
      RelaxOnlyPushes(mid, closed, cur, t);
      OnlyAddedTrans(g, mid, Relax(reach, reach, fires, mid, closed, cur, t), closed, cur, front, t);
      assert front + [t] == seen;
    }
  }

  /** The loop test of the successor loop of an iterative step, in terms of
      the loop's start: after the handles `buf[..i]`, handle `buf[i]` is
      closed or open exactly when it is not fresh. */
  lemma ScanTest<S>(g: SearchTree<S, ()>, closed: map<S, nat>, cur: nat, buf: seq<S>, i: nat)
    requires Addressed(g) && cur < |g.nodes| && i < |buf|
    ensures var mid := RelaxAll(Unscored(), Unscored(), Never(), g, closed, cur, buf[..i]);
            buf[i] in closed || buf[i] in mid.openIndex <==> !Fresh(buf, closed.Keys + g.openIndex.Keys, i)
  {
    OnlyPushes(g, closed, cur, buf[..i]);
  }

  /** The successor loop of an iterative step has treated the handles
      `buf[..i]`: all but the last of them were fresh, and `stopped` says
      whether the last was not. */
  ghost predicate FreshScanned<S>(buf: seq<S>, taken: set<S>, i: nat, stopped: bool)
  {
    && i <= |buf| && (forall k | 0 <= k < i - 1 :: Fresh(buf, taken, k))
    && (if i == 0 then !stopped else (stopped <==> !Fresh(buf, taken, i - 1)))
  }

  lemma FreshScannedStep<S>(buf: seq<S>, taken: set<S>, i: nat, stopped: bool)
    requires FreshScanned(buf, taken, i, false) && i < |buf| && (stopped <==> !Fresh(buf, taken, i))
    ensures FreshScanned(buf, taken, i + 1, stopped)
  {
  }

  /** One turn of the successor loop of an iterative step: the next handle
      `buf[i]` is treated by `Relax`, and the loop stops there exactly when
      it is closed or open at that point, that is, when it is not fresh. */
  lemma ScanStep<S>(g: SearchTree<S, ()>, closed: map<S, nat>, cur: nat, buf: seq<S>, i: nat)
    requires Addressed(g) && cur < |g.nodes| && i < |buf|
    requires FreshScanned(buf, closed.Keys + g.openIndex.Keys, i, false)
    ensures var mid := RelaxAll(Unscored(), Unscored(), Never(), g, closed, cur, buf[..i]);
            && RelaxAll(Unscored(), Unscored(), Never(), g, closed, cur, buf[..i + 1]) ==
               Relax(Unscored(), Unscored(), Never(), mid, closed, cur, buf[i])
            && FreshScanned(buf, closed.Keys + g.openIndex.Keys, i + 1, buf[i] in closed || buf[i] in mid.openIndex)
  {
    ScanTest(g, closed, cur, buf, i);
    FreshScannedStep(buf, closed.Keys + g.openIndex.Keys, i, buf[i] in closed || buf[i] in RelaxAll(Unscored(), Unscored(), Never(), g, closed, cur, buf[..i]).openIndex);
    assert buf[..i + 1][..i] == buf[..i];
  }

  /** When the successor loop ends, it has treated the fresh run of the
      buffer, followed by the handle it stopped at, which changes nothing. */
  lemma FreshScannedRun<S>(g: SearchTree<S, ()>, closed: map<S, nat>, cur: nat, buf: seq<S>, i: nat, stopped: bool)
    requires Addressed(g) && cur < |g.nodes|
    requires FreshScanned(buf, closed.Keys + g.openIndex.Keys, i, stopped) && (stopped || i == |buf|)
    ensures var n := FreshLength(buf, closed.Keys + g.openIndex.Keys);
            && RelaxAll(Unscored(), Unscored(), Never(), g, closed, cur, buf[..i]) ==
               RelaxAll(Unscored(), Unscored(), Never(), g, closed, cur, buf[..n])
            && (stopped <==> n < |buf|)
  {
    var taken := closed.Keys + g.openIndex.Keys;
    if stopped {
      FreshLengthIs(buf, taken, i - 1);
      ScanTest(g, closed, cur, buf, i - 1);
      var mid := RelaxAll(Unscored(), Unscored(), Never(), g, closed, cur, buf[..i - 1]);
      RelaxSkips(Unscored(), Unscored(), Never(), mid, closed, cur, buf[i - 1]);
      assert buf[..i][..i - 1] == buf[..i - 1];
    } else {
      FreshLengthIs(buf, taken, i);
    }
  }

  /** One round of `breadthfs_iterative_find` or `depthfs_iterative_find`
      once it has popped node `cur`, with `buf` what the successor buffer held
      before it: a state equal to `end` is closed and found; any other state
      is expanded over `buf` followed by its successors, up to the first
      handle that is closed or open. A round that reaches such a handle
      returns at once: it closes nothing, so the popped node is neither open
      nor closed afterwards, and it leaves the buffer as it is. A round that
      does not closes the popped node and clears the buffer. */
  ghost function ListRound<S>(succ: S -> seq<S>, end: S, g: SearchTree<S, ()>, closed: map<S, nat>,
                              buf: seq<S>, cur: nat): Round<S, ()>
    requires Bookkeeping(g.nodes, g.depth, g.open, g.openIndex, closed) && cur in g.open
  {
    var u := g.nodes[cur].state;
    var popped := SearchTree(g.nodes, g.depth, g.open - {cur}, g.openIndex - {u});
    if u == end then Round(popped, closed[u := cur], true, buf)
    else
      var all := buf + succ(u);
      var n := FreshLength(all, closed.Keys + popped.openIndex.Keys);
      var tree := RelaxAll(Unscored(), Unscored(), Never(), popped, closed, cur, all[..n]);
      if n < |all| then Round(tree, closed, false, all)
      else Round(tree, closed[u := cur], false, [])
  }

  /** The round of a goal state. */
  lemma ListRoundFindsGoal<S>(succ: S -> seq<S>, end: S, g: SearchTree<S, ()>, closed: map<S, nat>,
                              buf: seq<S>, cur: nat)
    requires Bookkeeping(g.nodes, g.depth, g.open, g.openIndex, closed) && cur in g.open
    requires cur < |g.nodes| && g.nodes[cur].state == end
    ensures ListRound(succ, end, g, closed, buf, cur) ==
            Round(SearchTree(g.nodes, g.depth, g.open - {cur}, g.openIndex - {end}), closed[end := cur], true, buf)
  {
  }

  /** The round of any other state. */
  lemma ListRoundExpands<S>(succ: S -> seq<S>, end: S, g: SearchTree<S, ()>, closed: map<S, nat>,
                            buf: seq<S>, cur: nat)
    requires Bookkeeping(g.nodes, g.depth, g.open, g.openIndex, closed) && cur in g.open
    requires cur < |g.nodes| && g.nodes[cur].state != end
    ensures Addressed(SearchTree(g.nodes, g.depth, g.open - {cur}, g.openIndex - {g.nodes[cur].state}))
    ensures var u := g.nodes[cur].state;
            var popped := SearchTree(g.nodes, g.depth, g.open - {cur}, g.openIndex - {u});
            var all := buf + succ(u);
            var n := FreshLength(all, closed.Keys + popped.openIndex.Keys);
            var r := ListRound(succ, end, g, closed, buf, cur);
            && r.tree == RelaxAll(Unscored(), Unscored(), Never(), popped, closed, cur, all[..n])
            && !r.found
            && r.closed == (if n < |all| then closed else closed[u := cur])
            && r.buffer == (if n < |all| then all else [])
  {
  }

  /** A round keeps the bookkeeping, and it keeps every parent link an edge
      when it starts from an empty buffer. The popped node is no longer open;
      a round that returns early does not close it either. */
  lemma ListRoundKeeps<S>(succ: S -> seq<S>, end: S, g: SearchTree<S, ()>, closed: map<S, nat>,
                          buf: seq<S>, cur: nat)
    requires Bookkeeping(g.nodes, g.depth, g.open, g.openIndex, closed) && cur in g.open
    ensures var r := ListRound(succ, end, g, closed, buf, cur);
            && Bookkeeping(r.tree.nodes, r.tree.depth, r.tree.open, r.tree.openIndex, r.closed)
            && (FollowsEdges(succ, g.nodes) && buf == [] ==> FollowsEdges(succ, r.tree.nodes))
            && cur !in r.tree.open
  {
    PopKeeps(g.nodes, g.depth, g.open, g.openIndex, closed, cur);
    var u := g.nodes[cur].state;
    if u == end {
      ListRoundFindsGoal(succ, end, g, closed, buf, cur);
      CloseKeeps(g.nodes, g.depth, g.open - {cur}, g.openIndex - {u}, closed, cur);
    } else {
      ListExpansionKeeps(succ, end, g, closed, buf, cur);
    }
  }

  lemma ListExpansionKeeps<S>(succ: S -> seq<S>, end: S, g: SearchTree<S, ()>, closed: map<S, nat>,
                              buf: seq<S>, cur: nat)
    requires Bookkeeping(g.nodes, g.depth, g.open, g.openIndex, closed) && cur in g.open
    requires cur < |g.nodes| && g.nodes[cur].state != end
    ensures var r := ListRound(succ, end, g, closed, buf, cur);
            && Bookkeeping(r.tree.nodes, r.tree.depth, r.tree.open, r.tree.openIndex, r.closed)
            && (FollowsEdges(succ, g.nodes) && buf == [] ==> FollowsEdges(succ, r.tree.nodes))
            && cur !in r.tree.open
  {
    var u := g.nodes[cur].state;
    ListRoundExpands(succ, end, g, closed, buf, cur);
    var all := buf + succ(u);
    var popped := SearchTree(g.nodes, g.depth, g.open - {cur}, g.openIndex - {u});
    var n := FreshLength(all, closed.Keys + popped.openIndex.Keys);
    PartialExpansionKeeps(succ, Unscored(), Unscored(), Never(), Unrooted(), g.nodes, g.depth, g.open, g.openIndex,
                          closed, cur, all, all[..n]);
    if buf == [] {
      assert all == succ(u);
    }
    OnlyPushes(popped, closed, cur, all[..n]);
    var t := RelaxAll(Unscored(), Unscored(), Never(), popped, closed, cur, all[..n]);
    assert t.open == (g.open - {cur}) + Positions(|g.nodes|, |t.nodes|);
  }

  /** Without self-loops, and when the buffer does not hold the popped
      state, a round of `breadthfs_iterative_find` or
      `depthfs_iterative_find` keeps open and closed states apart. */
  lemma ListRoundExclusive<S(!new)>(succ: S -> seq<S>, end: S, g: SearchTree<S, ()>, closed: map<S, nat>,
                                    buf: seq<S>, cur: nat)
    requires Bookkeeping(g.nodes, g.depth, g.open, g.openIndex, closed) && cur in g.open
    requires NoSelfLoops(succ) && Exclusive(g.openIndex, closed)
    requires cur < |g.nodes| && g.nodes[cur].state !in buf
    ensures var r := ListRound(succ, end, g, closed, buf, cur);
            Exclusive(r.tree.openIndex, r.closed)
  {
    var u := g.nodes[cur].state;
    if u != end {
      ListRoundExpands(succ, end, g, closed, buf, cur);
      var popped := SearchTree(g.nodes, g.depth, g.open - {cur}, g.openIndex - {u});
      var all := buf + succ(u);
      var n := FreshLength(all, closed.Keys + popped.openIndex.Keys);
      RelaxAllKeys(Unscored(), Unscored(), Never(), popped, closed, cur, all[..n]);
      assert u !in succ(u);
      assert forall t | t in all[..n] :: t in all;
    }
  }

  /** A handle left in the buffer by an early return at an open handle can
      be popped later; a round that then runs to the end makes it a new open
      node and closes it as well, with no self-loop involved. */
  lemma StaleBufferBreaksExclusive()
    ensures var g := SearchTree([Node(None, (), 1), Node(Some(0), (), 2)], [0, 1], {1}, map[2 := 1]);
            var closed := map[1 := 0];
            var r := ListRound((s: int) => [], 9, g, closed, [2], 1);
            && NoSelfLoops((s: int) => []) && Exclusive(g.openIndex, closed)
            && 2 in r.closed && 2 in r.tree.openIndex && !Exclusive(r.tree.openIndex, r.closed)
  {
  }
}
