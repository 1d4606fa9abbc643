/**
 * The 8-puzzle callbacks handed to the searches: a board is nine cells in
 * row-major order, the blank is 0, a move slides the blank onto a cell next
 * to it, every move costs 1, and the heuristic sums the Manhattan distances
 * between the cells of two boards that hold the same value.
 */
module EightPuzzle {
  import opened Heuristics
  import opened Successors
  import SearchCore

  /** A board: `BOARD_WIDTH` = 3 columns times `BOARD_HEIGHT` = 3 rows of
      cells, in row-major order. */
  type Board = seq<int>

  /** The callbacks read exactly 3 * 3 cells. */
  predicate IsBoard(b: Board)
  {
    |b| == 9
  }

  /** `GOAL_STATE`. */
  const GoalState: Board := [1, 2, 3, 4, 5, 6, 7, 8, 0]

  /** No value appears on two cells. */
  ghost predicate AllDifferent(b: Board)
  {
    forall k, l | 0 <= k < |b| && 0 <= l < |b| && k != l :: b[k] != b[l]
  }

  /** The board has exactly one blank. */
  ghost predicate OneBlank(b: Board)
  {
    && 0 in b
    && forall k, l | 0 <= k < |b| && 0 <= l < |b| && b[k] == 0 && b[l] == 0 :: k == l
  }

  /** The column and row of cell `i`. */
  function Cell(i: nat): Coordinate
  {
    Coordinate(i % 3, i / 3)
  }

  /** Cell `3 * y + x` is at column `x` of row `y`. */
  lemma CellOf(x: int, y: int)
    requires 0 <= x < 3 && 0 <= y
    ensures Cell(3 * y + x) == Coordinate(x, y)
  {
  }

  /** The Manhattan distance between cells `i1` and `i2`. */
  function Distance(i1: nat, i2: nat): nat
  {
    ManhattanDistance(Cell(i1), Cell(i2))
  }

  /** The distance between the cells at columns `x1`, `x2` and rows `y1`,
      `y2`, as `heuristic` computes it. */
  lemma DistanceOf(x1: int, y1: int, x2: int, y2: int)
    requires 0 <= x1 < 3 && 0 <= y1 && 0 <= x2 < 3 && 0 <= y2
    ensures Distance(3 * y1 + x1, 3 * y2 + x2) == Abs(x2 - x1) + Abs(y2 - y1)
  {
    CellOf(x1, y1);
    CellOf(x2, y2);
  }

  predicate OnBoard(x: int, y: int)
  {
    0 <= x < 3 && 0 <= y < 3
  }

  /** `potential_moves`: the blank slides left, right, up, down. */
  const PotentialMoves: seq<(int, int)> := [(-1, 0), (1, 0), (0, -1), (0, 1)]

  /** The cell that potential move `m` takes the blank at cell `i` to, if it
      is on the board. */
  function Target(i: nat, m: nat): (ts: seq<nat>)
    requires m < |PotentialMoves|
    ensures |ts| <= 1 && forall k | 0 <= k < |ts| :: ts[k] < 9
  {
    var c := Cell(i);
    var x, y := c.x + PotentialMoves[m].0, c.y + PotentialMoves[m].1;
    if OnBoard(x, y) then [3 * y + x] else []
  }

  /** The cells the first `m` potential moves take the blank at cell `i`
      to, in move order. */
  function Targets(i: nat, m: nat): (ts: seq<nat>)
    requires m <= |PotentialMoves|
    ensures forall k | 0 <= k < |ts| :: ts[k] < 9
  {
    if m == 0 then [] else Targets(i, m - 1) + Target(i, m - 1)
  }

  lemma TargetsUnrolled(i: nat)
    ensures Targets(i, 4) == Target(i, 0) + Target(i, 1) + Target(i, 2) + Target(i, 3)
  {
    assert Targets(i, 1) == [] + Target(i, 0) == Target(i, 0);
    assert Targets(i, 2) == Targets(i, 1) + Target(i, 1);
    assert Targets(i, 3) == Targets(i, 2) + Target(i, 2);
  }

  lemma TargetIsNeighbour(i: nat, m: nat, t: nat)
    requires m < |PotentialMoves| && t in Target(i, m)
    ensures t < 9 && Distance(i, t) == 1
  {
    var c := Cell(i);
    CellOf(c.x + PotentialMoves[m].0, c.y + PotentialMoves[m].1);
  }

  /** The potential move that takes the blank from `c` to the cell `d`
      next to it. */
  lemma NeighbourStep(c: Coordinate, d: Coordinate) returns (m: nat)
    requires ManhattanDistance(c, d) == 1
    ensures m < |PotentialMoves| && d == Coordinate(c.x + PotentialMoves[m].0, c.y + PotentialMoves[m].1)
  {
    if d.x < c.x {
      m := 0;
    } else if d.x > c.x {
      m := 1;
    } else if d.y < c.y {
      m := 2;
    } else {
      m := 3;
    }
  }

  /** Cell `t` of a board is on the board and indexed `3 * y + x`. */
  lemma CellBounds(t: nat)
    requires t < 9
    ensures OnBoard(Cell(t).x, Cell(t).y) && t == 3 * Cell(t).y + Cell(t).x
  {
  }

  /** The potential move that takes the blank at `i` to the cell `t` next
      to it. */
  lemma NeighbourMove(i: nat, t: nat) returns (m: nat)
    requires t < 9 && Distance(i, t) == 1
    ensures m < |PotentialMoves| && Target(i, m) == [t]
  {
    m := NeighbourStep(Cell(i), Cell(t));
    CellBounds(t);
  }

  lemma TargetInTargets(i: nat, t: nat)
    requires t in Targets(i, 4)
    ensures t < 9 && Distance(i, t) == 1
  {
    TargetsUnrolled(i);
    var m :| 0 <= m < 4 && t in Target(i, m);
    TargetIsNeighbour(i, m, t);
  }

  lemma NeighbourInTargets(i: nat, t: nat)
    requires t < 9 && Distance(i, t) == 1
    ensures t in Targets(i, 4)
  {
    var m := NeighbourMove(i, t);
    TargetsUnrolled(i);
    assert t in Target(i, m);
  }

  /** The moves of the blank at `i` reach exactly the cells at distance 1. */
  lemma TargetsAreNeighbours(i: nat)
    ensures forall t: nat :: t in Targets(i, 4) <==> t < 9 && Distance(i, t) == 1
  {
    forall t: nat
      ensures t in Targets(i, 4) <==> t < 9 && Distance(i, t) == 1
    {
      if t in Targets(i, 4) {
        TargetInTargets(i, t);
      }
      if t < 9 && Distance(i, t) == 1 {
        NeighbourInTargets(i, t);
      }
    }
  }


  /** Two moves from a corner, three from an edge, four from the centre. */
  lemma TargetCount(i: nat)
    requires i < 9
    ensures |Targets(i, 4)| == (if Cell(i).x == 1 then 2 else 1) + (if Cell(i).y == 1 then 2 else 1)
  {
    TargetsUnrolled(i);
    var c := Cell(i);
    assert |Target(i, 0)| == (if c.x > 0 then 1 else 0);
    assert |Target(i, 1)| == (if c.x < 2 then 1 else 0);
    assert |Target(i, 2)| == (if c.y > 0 then 1 else 0);
    assert |Target(i, 3)| == (if c.y < 2 then 1 else 0);
  }

  /** The board after swapping cells `i` and `j`: what `create_state`
      builds. */
  function Swapped(b: Board, i: nat, j: nat): (r: Board)
    requires i < |b| && j < |b|
    ensures |r| == |b| && r[i] == b[j] && r[j] == b[i]
    ensures forall k | 0 <= k < |b| && k != i && k != j :: r[k] == b[k]
  {
    b[i := b[j]][j := b[i]]
  }

  lemma SwappedSame(b: Board, i: nat)
    requires i < |b|
    ensures Swapped(b, i, i) == b
  {
  }

  /** A swap moves tiles around and keeps every one of them. */
  lemma SwappedPermutes(b: Board, i: nat, j: nat)
    requires i < |b| && j < |b|
    ensures multiset(Swapped(b, i, j)) == multiset(b)
  {
  }

  /** The first blank at or after cell `from`, or `|b|` when there is none. */
  function BlankFrom(b: Board, from: nat): (i: nat)
    requires from <= |b|
    ensures from <= i <= |b|
    ensures i < |b| ==> b[i] == 0
    ensures forall k | from <= k < i :: b[k] != 0
    decreases |b| - from
  {
    if from == |b| || b[from] == 0 then from else BlankFrom(b, from + 1)
  }

  /** The first blank in row-major order, or `|b|` when there is none. */
  function FirstBlank(b: Board): (i: nat)
    ensures i <= |b| && (i < |b| ==> b[i] == 0)
    ensures forall k | 0 <= k < i :: b[k] != 0
  {
    BlankFrom(b, 0)
  }

  /** The boards made by sliding the blank at `i` to each of `ts`. */
  function Slides(b: Board, i: nat, ts: seq<nat>): (r: seq<Board>)
    requires i < |b| && forall k | 0 <= k < |ts| :: ts[k] < |b|
  {
    seq(|ts|, k requires 0 <= k < |ts| => Swapped(b, i, ts[k]))
  }

  lemma SlidesConcat(b: Board, i: nat, ts: seq<nat>, us: seq<nat>)
    requires i < |b| && forall k | 0 <= k < |ts| :: ts[k] < |b|
    requires forall k | 0 <= k < |us| :: us[k] < |b|
    ensures Slides(b, i, ts + us) == Slides(b, i, ts) + Slides(b, i, us)
  {
  }

  /** A potential move that stays on the board adds one slide. */
  lemma StepOn(b: Board, i: nat, m: nat, t: nat)
    requires IsBoard(b) && i < 9 && m < |PotentialMoves| && Target(i, m) == [t]
    ensures Slides(b, i, Targets(i, m + 1)) == Slides(b, i, Targets(i, m)) + [Swapped(b, i, t)]
  {
    SlidesConcat(b, i, Targets(i, m), Target(i, m));
  }

  /** A potential move that leaves the board adds none. */
  lemma StepOff(b: Board, i: nat, m: nat)
    requires IsBoard(b) && i < 9 && m < |PotentialMoves| && Target(i, m) == []
    ensures Slides(b, i, Targets(i, m + 1)) == Slides(b, i, Targets(i, m))
  {
    assert Targets(i, m + 1) == Targets(i, m);
  }

  /** The boards `get_possible_moves` pushes for `b`, in push order: one per
      potential move of its first blank that stays on the board. */
  function PossibleMoves(b: Board): seq<Board>
    requires IsBoard(b)
  {
    var i := FirstBlank(b);
    if i == |b| then [] else Slides(b, i, Targets(i, 4))
  }

  /** A board has no successor when it has no blank, and otherwise two,
      three or four as its first blank sits in a corner, on an edge or in
      the centre. */
  lemma PossibleMovesCount(b: Board)
    requires IsBoard(b)
    ensures FirstBlank(b) == |b| ==> PossibleMoves(b) == []
    ensures FirstBlank(b) < |b| ==>
              |PossibleMoves(b)| ==
              (if Cell(FirstBlank(b)).x == 1 then 2 else 1) + (if Cell(FirstBlank(b)).y == 1 then 2 else 1)
  {
    if FirstBlank(b) < |b| {
      TargetCount(FirstBlank(b));
    }
  }

  /** Every successor of a board is the board with its first blank swapped
      with a cell next to it. */
  lemma MovesAreSlides(b: Board)
    requires IsBoard(b)
    ensures forall s | s in PossibleMoves(b) ::
              exists t: nat | t < |b| && Distance(FirstBlank(b), t) == 1 :: s == Swapped(b, FirstBlank(b), t)
  {
    var i := FirstBlank(b);
    if i < |b| {
      TargetsAreNeighbours(i);
      var ts := Targets(i, 4);
      forall s | s in PossibleMoves(b)
        ensures exists t: nat | t < |b| && Distance(i, t) == 1 :: s == Swapped(b, i, t)
      {
        var k :| 0 <= k < |ts| && s == Swapped(b, i, ts[k]);
        assert ts[k] in ts;
      }
    }
  }

  /** Conversely, swapping the first blank with any cell next to it gives a
      successor. */
  lemma SlidesAreMoves(b: Board)
    requires IsBoard(b)
    ensures FirstBlank(b) < |b| ==>
              forall t: nat | t < |b| && Distance(FirstBlank(b), t) == 1 ::
                Swapped(b, FirstBlank(b), t) in PossibleMoves(b)
  {
    var i := FirstBlank(b);
    if i < |b| {
      TargetsAreNeighbours(i);
      var ts := Targets(i, 4);
      forall t: nat | t < |b| && Distance(i, t) == 1
        ensures Swapped(b, i, t) in PossibleMoves(b)
      {
        assert t in ts;
        var k :| 0 <= k < |ts| && ts[k] == t;
        assert PossibleMoves(b)[k] == Swapped(b, i, t);
      }
    }
  }

  lemma SwappedBack(b: Board, i: nat, j: nat)
    requires i < |b| && j < |b|
    ensures Swapped(Swapped(b, i, j), j, i) == b
  {
    var s := Swapped(Swapped(b, i, j), j, i);
    assert forall k | 0 <= k < |b| :: s[k] == b[k];
  }

  /** Sliding the only blank from `i` to `t` leaves `t` the only blank. */
  lemma SlidBlank(b: Board, i: nat, t: nat)
    requires IsBoard(b) && OneBlank(b) && i < |b| && t < |b| && i != t && b[i] == 0
    ensures OneBlank(Swapped(b, i, t)) && FirstBlank(Swapped(b, i, t)) == t
  {
    var s := Swapped(b, i, t);
    assert b[t] != 0;
    assert s[t] == 0;
    assert forall k | 0 <= k < |s| && s[k] == 0 :: k == t;
    var j := FirstBlank(s);
    assert j <= t;
  }

  /** With a single blank, every successor can slide back: it has a single
      blank too, and the board it came from is among its successors. */
  lemma MoveReversible(b: Board, t: nat)
    requires IsBoard(b) && OneBlank(b) && t < |b| && Distance(FirstBlank(b), t) == 1
    ensures IsBoard(Swapped(b, FirstBlank(b), t)) && OneBlank(Swapped(b, FirstBlank(b), t))
    ensures b in PossibleMoves(Swapped(b, FirstBlank(b), t))
  {
    var i := FirstBlank(b);
    var s := Swapped(b, i, t);
    assert i < |b| by {
      var k :| 0 <= k < |b| && b[k] == 0;
    }
    SlidBlank(b, i, t);
    ManhattanSymmetric(Cell(i), Cell(t));
    SlidesAreMoves(s);
    SwappedBack(b, i, t);
  }

  lemma MovesReversible(b: Board)
    requires IsBoard(b) && OneBlank(b)
    ensures forall s | s in PossibleMoves(b) :: IsBoard(s) && OneBlank(s) && b in PossibleMoves(s)
  {
    MovesAreSlides(b);
    forall s | s in PossibleMoves(b)
      ensures IsBoard(s) && OneBlank(s) && b in PossibleMoves(s)
    {
      var t: nat :| t < |b| && Distance(FirstBlank(b), t) == 1 && s == Swapped(b, FirstBlank(b), t);
      MoveReversible(b, t);
    }
  }

  /** The goal board has distinct tiles and one blank, in the bottom right
      corner, from where it can slide left or up. */
  lemma GoalMoves()
    ensures IsBoard(GoalState) && AllDifferent(GoalState) && OneBlank(GoalState)
    ensures FirstBlank(GoalState) == 8
    ensures PossibleMoves(GoalState) == [[1, 2, 3, 4, 5, 6, 7, 0, 8], [1, 2, 3, 4, 5, 0, 7, 8, 6]]
  {
    assert GoalState[8] == 0;
    TargetsUnrolled(8);
    CellOf(1, 2);
    CellOf(2, 1);
    assert Targets(8, 4) == [7, 5];
    assert Swapped(GoalState, 8, 7) == [1, 2, 3, 4, 5, 6, 7, 0, 8];
    assert Swapped(GoalState, 8, 5) == [1, 2, 3, 4, 5, 0, 7, 8, 6];
    assert Slides(GoalState, 8, [7, 5]) == [Swapped(GoalState, 8, 7), Swapped(GoalState, 8, 5)];
  }

  /** `cost`: every move costs 1. */
  function Cost(b1: Board, b2: Board): (c: int)
    ensures c == 1
  {
    1
  }

  /** With every move costing 1, the cost of the path read back from a
      search node is its number of moves. */
  lemma {:induction false} UnitCostPaths<Sc>(nodes: seq<SearchCore.Node<Board, Sc>>, depth: seq<nat>, i: nat)
    requires SearchCore.ParentsBelow(nodes, depth) && i < |nodes|
    ensures SearchCore.PathCost(Cost, nodes, depth, i) == |SearchCore.PathFrom(nodes, depth, i)| - 1
    decreases depth[i]
  {
    match nodes[i].parent
    case None =>
    case Some(p) =>
      UnitCostPaths(nodes, depth, p);
  }

  /** `board_compare`: the sign of the first cell, in row-major order, on
      which the boards differ, or 0 when they agree on every cell. */
  function BoardCompare(b1: Board, b2: Board): (r: int)
    requires IsBoard(b1) && IsBoard(b2)
    ensures -1 <= r <= 1
    ensures r == 0 <==> b1 == b2
  {
    CompareFrom(b1, b2, 0)
  }

  function CompareFrom(b1: Board, b2: Board, k: nat): (r: int)
    requires |b1| == |b2| && k <= |b1|
    ensures -1 <= r <= 1
    ensures r == 0 <==> forall j | k <= j < |b1| :: b1[j] == b2[j]
    decreases |b1| - k
  {
    if k == |b1| then 0
    else if b1[k] < b2[k] then -1
    else if b1[k] > b2[k] then 1
    else CompareFrom(b1, b2, k + 1)
  }

  lemma {:induction false} CompareFromAntisymmetric(b1: Board, b2: Board, k: nat)
    requires |b1| == |b2| && k <= |b1|
    ensures CompareFrom(b1, b2, k) == -CompareFrom(b2, b1, k)
    decreases |b1| - k
  {
    if k < |b1| && b1[k] == b2[k] {
      CompareFromAntisymmetric(b1, b2, k + 1);
    }
  }

  /** Swapping the arguments of `board_compare` flips its sign. */
  lemma CompareAntisymmetric(b1: Board, b2: Board)
    requires IsBoard(b1) && IsBoard(b2)
    ensures BoardCompare(b1, b2) == -BoardCompare(b2, b1)
  {
    CompareFromAntisymmetric(b1, b2, 0);
  }

  /** What the pair of cells `i1` of `b1` and `i2` of `b2` adds to the
      heuristic: their distance when they hold the same value. */
  function Term(b1: Board, b2: Board, i1: nat, i2: nat): nat
    requires i1 < |b1| && i2 < |b2|
  {
    if b1[i1] == b2[i2] then Distance(i1, i2) else 0
  }

  /** The terms of cell `i1` of `b1` with the first `m` cells of `b2`. */
  function RowSum(b1: Board, b2: Board, i1: nat, m: nat): nat
    requires i1 < |b1| && m <= |b2|
  {
    if m == 0 then 0 else RowSum(b1, b2, i1, m - 1) + Term(b1, b2, i1, m - 1)
  }

  /** The terms of the first `n` cells of `b1` with the first `m` of `b2`,
      row by row. */
  function Rows(b1: Board, b2: Board, n: nat, m: nat): nat
    requires n <= |b1| && m <= |b2|
  {
    if n == 0 then 0 else Rows(b1, b2, n - 1, m) + RowSum(b1, b2, n - 1, m)
  }

  /** The terms of the first `n` cells of `b1` with cell `i2` of `b2`. */
  function ColumnSum(b1: Board, b2: Board, i2: nat, n: nat): nat
    requires n <= |b1| && i2 < |b2|
  {
    if n == 0 then 0 else ColumnSum(b1, b2, i2, n - 1) + Term(b1, b2, n - 1, i2)
  }

  /** The same terms as `Rows`, column by column. */
  function Columns(b1: Board, b2: Board, n: nat, m: nat): nat
    requires n <= |b1| && m <= |b2|
  {
    if m == 0 then 0 else Columns(b1, b2, n, m - 1) + ColumnSum(b1, b2, m - 1, n)
  }

  /** The sum of the Manhattan distances over every pair of cells, one on
      each board, that hold the same value. */
  function PairwiseManhattan(b1: Board, b2: Board): nat
  {
    Rows(b1, b2, |b1|, |b2|)
  }

  lemma {:induction false} RowsSplit(b1: Board, b2: Board, n: nat, m: nat)
    requires n <= |b1| && m < |b2|
    ensures Rows(b1, b2, n, m + 1) == Rows(b1, b2, n, m) + ColumnSum(b1, b2, m, n)
  {
    if n > 0 {
      RowsSplit(b1, b2, n - 1, m);
    }
  }

  lemma {:induction false} RowsAreColumns(b1: Board, b2: Board, n: nat, m: nat)
    requires n <= |b1| && m <= |b2|
    ensures Rows(b1, b2, n, m) == Columns(b1, b2, n, m)
  {
    if m > 0 {
      RowsAreColumns(b1, b2, n, m - 1);
      RowsSplit(b1, b2, n, m - 1);
    } else {
      RowsOfNothing(b1, b2, n);
    }
  }

  lemma {:induction false} RowsOfNothing(b1: Board, b2: Board, n: nat)
    requires n <= |b1|
    ensures Rows(b1, b2, n, 0) == 0
  {
    if n > 0 {
      RowsOfNothing(b1, b2, n - 1);
    }
  }

  lemma {:induction false} ColumnIsRow(b1: Board, b2: Board, i2: nat, n: nat)
    requires n <= |b1| && i2 < |b2|
    ensures ColumnSum(b1, b2, i2, n) == RowSum(b2, b1, i2, n)
  {
    if n > 0 {
      ColumnIsRow(b1, b2, i2, n - 1);
      ManhattanSymmetric(Cell(n - 1), Cell(i2));
    }
  }

  lemma {:induction false} ColumnsAreRows(b1: Board, b2: Board, n: nat, m: nat)
    requires n <= |b1| && m <= |b2|
    ensures Columns(b1, b2, n, m) == Rows(b2, b1, m, n)
  {
    if m > 0 {
      ColumnsAreRows(b1, b2, n, m - 1);
      ColumnIsRow(b1, b2, m - 1, n);
    }
  }

  /** The heuristic does not depend on the order of its arguments. */
  lemma HeuristicSymmetric(b1: Board, b2: Board)
    ensures PairwiseManhattan(b1, b2) == PairwiseManhattan(b2, b1)
  {
    RowsAreColumns(b1, b2, |b1|, |b2|);
    ColumnsAreRows(b1, b2, |b1|, |b2|);
  }

  /** A row with no cell holding the value of `b1[i1]` adds nothing. */
  lemma {:induction false} RowOfNoMatch(b1: Board, b2: Board, i1: nat, m: nat)
    requires i1 < |b1| && m <= |b2|
    requires forall k | 0 <= k < m :: b2[k] != b1[i1]
    ensures RowSum(b1, b2, i1, m) == 0
  {
    if m > 0 {
      RowOfNoMatch(b1, b2, i1, m - 1);
    }
  }

  /** A row in which only cell `j` holds the value of `b1[i1]` adds the
      distance from `i1` to `j`. */
  lemma {:induction false} RowOfMatch(b1: Board, b2: Board, i1: nat, m: nat, j: nat)
    requires i1 < |b1| && j < m <= |b2| && b2[j] == b1[i1]
    requires forall k | 0 <= k < m && k != j :: b2[k] != b1[i1]
    ensures RowSum(b1, b2, i1, m) == Distance(i1, j)
  {
    if j < m - 1 {
      RowOfMatch(b1, b2, i1, m - 1, j);
    } else {
      RowOfNoMatch(b1, b2, i1, m - 1);
    }
  }

  /** Where the swap of cells `p` and `q` sends cell `k`. */
  function Swap(p: nat, q: nat, k: nat): nat
  {
    if k == p then q else if k == q then p else k
  }

  lemma {:induction false} RowsOfSwap(b: Board, p: nat, q: nat, n: nat)
    requires p < |b| && q < |b| && n <= |b| && AllDifferent(b)
    ensures Rows(b, Swapped(b, p, q), n, |b|) ==
            (if p < n then Distance(p, q) else 0) + (if q < n && q != p then Distance(q, p) else 0)
  {
    var s := Swapped(b, p, q);
    if n > 0 {
      RowsOfSwap(b, p, q, n - 1);
      var i := n - 1;
      var j := Swap(p, q, i);
      forall k | 0 <= k < |s| && k != j
        ensures s[k] != b[i]
      {
        if k == p {
          assert s[k] == b[q];
        } else if k == q {
          assert s[k] == b[p];
        } else {
          assert s[k] == b[k];
        }
      }
      RowOfMatch(b, s, i, |s|, j);
    }
  }

  /** Swapping two cells of a board with no repeated value puts the
      heuristic between the board and the result at twice their distance. */
  lemma HeuristicOfSwap(b: Board, p: nat, q: nat)
    requires p < |b| && q < |b| && AllDifferent(b)
    ensures PairwiseManhattan(b, Swapped(b, p, q)) == 2 * Distance(p, q)
  {
    RowsOfSwap(b, p, q, |b|);
    ManhattanSymmetric(Cell(p), Cell(q));
  }

  lemma {:induction false} RowsOfSelf(b: Board, n: nat)
    requires n <= |b| && AllDifferent(b)
    ensures Rows(b, b, n, |b|) == 0
  {
    if n > 0 {
      RowsOfSelf(b, n - 1);
      var i := n - 1;
      RowOfMatch(b, b, i, |b|, i);
      assert Cell(i) == Cell(i);
    }
  }

  /** The heuristic of a board with no repeated value against itself is 0. */
  lemma HeuristicSelf(b: Board)
    requires AllDifferent(b)
    ensures PairwiseManhattan(b, b) == 0
  {
    RowsOfSelf(b, |b|);
  }

  /** Between a board with no repeated value and any of its successors the
      heuristic is 2: the tile that moved and the blank each count 1. */
  lemma HeuristicOfMove(b: Board, s: Board)
    requires IsBoard(b) && AllDifferent(b) && s in PossibleMoves(b)
    ensures PairwiseManhattan(b, s) == 2
  {
    MovesAreSlides(b);
    var t: nat :| t < |b| && Distance(FirstBlank(b), t) == 1 && s == Swapped(b, FirstBlank(b), t);
    HeuristicOfSwap(b, FirstBlank(b), t);
  }

  /** The boards created by `create_state` and `get_possible_moves`. */
  class Puzzle {
    /** `states`: every board created, oldest first. */
    var states: seq<Board>

    constructor ()
      ensures states == []
    {
      states := [];
    }

    /** `create_state`: copies the first `size` cells of `board` into a new
        board, swaps cells `index` and `moveIndex` of the copy, and records
        the copy in `states`. */
    method CreateState(board: Board, size: nat, index: nat, moveIndex: nat) returns (newBoard: Board)
      requires size <= |board| && index < size && moveIndex < size
      modifies this
      ensures newBoard == Swapped(board[..size], index, moveIndex)
      ensures states == old(states) + [newBoard]
    {
      var a := new int[size](k requires 0 <= k < size => board[k]);
      var tmp := a[index];
      a[index] := a[moveIndex];
      a[moveIndex] := tmp;
      newBoard := a[..];
      states := states + [newBoard];
    }

    /** The first loop of `get_possible_moves`: scans the rows, and each row
        from left to right, until it finds a blank. */
    method FindBlank(board: Board) returns (foundEmpty: bool, index: nat, emptyX: int, emptyY: int)
      requires IsBoard(board)
      ensures foundEmpty <==> FirstBlank(board) < |board|
      ensures foundEmpty ==> index == FirstBlank(board) && Cell(index) == Coordinate(emptyX, emptyY)
    {
      emptyX, emptyY, index := 0, 0, 0;
      foundEmpty := false;
      var y := 0;
      while !foundEmpty && y < 3
        invariant 0 <= y <= 3
        invariant foundEmpty ==> index == FirstBlank(board) < |board| && Cell(index) == Coordinate(emptyX, emptyY)
        invariant !foundEmpty ==> forall k | 0 <= k < 3 * y :: board[k] != 0
      {
        var x := 0;
        while !foundEmpty && x < 3
          invariant 0 <= x <= 3
          invariant foundEmpty ==> index == FirstBlank(board) < |board| && Cell(index) == Coordinate(emptyX, emptyY)
          invariant !foundEmpty ==> forall k | 0 <= k < 3 * y + x :: board[k] != 0
        {
          index := 3 * y + x;
          if board[index] == 0 {
            foundEmpty := true;
            emptyX := x;
            emptyY := y;
            CellOf(x, y);
          }
          x := x + 1;
        }
        y := y + 1;
      }
    }

    /** One turn of `get_possible_moves`' move loop: when potential move
        `m` keeps the blank at `index` on the board, creates the slid board
        and pushes it onto `successors`, so that the boards pushed so far,
        and those recorded in `states`, are the slides to the targets of the
        first `m + 1` moves. */
    method TryMove(board: Board, index: nat, emptyX: int, emptyY: int, m: nat, successors: Buffer<Board>,
                   ghost start: seq<Board>, ghost startStates: seq<Board>)
      requires IsBoard(board) && index < 9 && Cell(index) == Coordinate(emptyX, emptyY)
      requires m < |PotentialMoves| && successors.Valid()
      requires successors.Contents() == start + Slides(board, index, Targets(index, m))
      requires states == startStates + Slides(board, index, Targets(index, m))
      modifies this, successors, successors.data
      ensures successors.Valid() && (successors.data == old(successors.data) || fresh(successors.data))
      ensures successors.Contents() == start + Slides(board, index, Targets(index, m + 1))
      ensures states == startStates + Slides(board, index, Targets(index, m + 1))
    {
      var moveX := emptyX + PotentialMoves[m].0;
      var moveY := emptyY + PotentialMoves[m].1;
      if moveX >= 0 && moveX < 3 && moveY >= 0 && moveY < 3 {
        var moveIndex := 3 * moveY + moveX;
        assert Target(index, m) == [moveIndex];
        StepOn(board, index, m, moveIndex);
        var newState := CreateState(board, 9, index, moveIndex);
        assert board[..9] == board;
        var _ := successors.Push(newState);
      } else {
        assert Target(index, m) == [];
        StepOff(board, index, m);
      }
    }

    /** `get_possible_moves`: finds the first blank in row-major order, then
        pushes onto `successors`, and records in `states`, one new board per
        potential move of the blank that stays on the board. */
    method GetPossibleMoves(board: Board, successors: Buffer<Board>)
      requires IsBoard(board) && successors.Valid()
      modifies this, successors, successors.data
      ensures successors.Valid()
      ensures successors.Contents() == old(successors.Contents()) + PossibleMoves(board)
      ensures states == old(states) + PossibleMoves(board)
    {
      var foundEmpty, index, emptyX, emptyY := FindBlank(board);
      ghost var start, startStates := successors.Contents(), states;
      if foundEmpty {
        var m := 0;
        while m < |PotentialMoves|
          invariant 0 <= m <= |PotentialMoves|
          invariant successors.Valid() && (successors.data == old(successors.data) || fresh(successors.data))
          invariant successors.Contents() == start + Slides(board, index, Targets(index, m))
          invariant states == startStates + Slides(board, index, Targets(index, m))
        {
          TryMove(board, index, emptyX, emptyY, m, successors, start, startStates);
          m := m + 1;
        }
      }
    }

    /** `heuristic`: for every cell of `board1` and every cell of `board2`
        holding the same value, adds their Manhattan distance. */
    method Heuristic(board1: Board, board2: Board) returns (sum: int)
      requires IsBoard(board1) && IsBoard(board2)
      ensures sum == PairwiseManhattan(board1, board2)
    {
      sum := 0;
      var y1 := 0;
      while y1 < 3
        invariant 0 <= y1 <= 3
        invariant sum == Rows(board1, board2, 3 * y1, |board2|)
      {
        var x1 := 0;
        while x1 < 3
          invariant 0 <= x1 <= 3
          invariant sum == Rows(board1, board2, 3 * y1 + x1, |board2|)
        {
          var index1 := 3 * y1 + x1;
          var y2 := 0;
          while y2 < 3
            invariant 0 <= y2 <= 3
            invariant sum == Rows(board1, board2, index1, |board2|) + RowSum(board1, board2, index1, 3 * y2)
          {
            var x2 := 0;
            while x2 < 3
              invariant 0 <= x2 <= 3
              invariant sum == Rows(board1, board2, index1, |board2|) +
                               RowSum(board1, board2, index1, 3 * y2 + x2)
            {
              var index2 := 3 * y2 + x2;
              DistanceOf(x1, y1, x2, y2);
              assert RowSum(board1, board2, index1, index2 + 1) ==
                     RowSum(board1, board2, index1, index2) + Term(board1, board2, index1, index2);
              if board1[index1] == board2[index2] {
                assert Term(board1, board2, index1, index2) == Abs(x2 - x1) + Abs(y2 - y1);
                sum := sum + Abs(x2 - x1) + Abs(y2 - y1);
              }
              x2 := x2 + 1;
            }
            assert 3 * (y2 + 1) == 3 * y2 + 3;
            y2 := y2 + 1;
          }
          x1 := x1 + 1;
        }
        assert 3 * (y1 + 1) == 3 * y1 + 3;
        y1 := y1 + 1;
      }
    }
  }
}
