/**
 * The A* heuristics of utils.py, on a node's state: manhattan, linear
 * (misplaced positions) and max_heuristic (the larger of the two).
 *
 * manhattan is modelled as coded: it sums the distances of the values
 * 0..7, so the blank is counted and tile 8 is not.
 */
module Heuristics {
  import opened Puzzle

  /** A (row, column) position on the 3 x 3 grid. */
  datatype Cell = Cell(row: int, col: int)

  /** index: the cell of each position of a row-major state. */
  const INDEX: seq<Cell> :=
    [Cell(0, 0), Cell(0, 1), Cell(0, 2), Cell(1, 0), Cell(1, 1), Cell(1, 2), Cell(2, 0), Cell(2, 1), Cell(2, 2)]

  /** index_goal: the cell each value occupies in the goal. */
  const INDEX_GOAL: map<int, Cell> :=
    map[0 := Cell(2, 2), 1 := Cell(0, 0), 2 := Cell(0, 1), 3 := Cell(0, 2), 4 := Cell(1, 0),
        5 := Cell(1, 1), 6 := Cell(1, 2), 7 := Cell(2, 0), 8 := Cell(2, 1)]

  function Abs(x: int): nat
  {
    if x < 0 then -x else x
  }

  /** Coordinate j of a cell: 0 is the row, 1 the column. */
  function Coord(c: Cell, j: nat): int
    requires j < 2
  {
    if j == 0 then c.row else c.col
  }

  predicate InGrid(c: Cell)
  {
    0 <= c.row <= 2 && 0 <= c.col <= 2
  }

  /** The index table is the row-major layout: position p is row p / 3, column p % 3. */
  lemma IndexIsRowMajor(p: int)
    requires 0 <= p < 9
    ensures INDEX[p] == Cell(p / 3, p % 3) && InGrid(INDEX[p])
  {
    assert p == 0 || p == 1 || p == 2 || p == 3 || p == 4 || p == 5 || p == 6 || p == 7 || p == 8;
  }

  /** Where value v sits in GOAL. */
  function GoalPosition(v: int): (p: int)
    requires 0 <= v <= 8
    ensures 0 <= p < 9 && GOAL[p] == v
  {
    if v == 0 then 8 else v - 1
  }

  /** The goal table agrees with GOAL laid out row-major. */
  lemma GoalTableMatchesGoal(v: int)
    requires 0 <= v <= 8
    ensures v in INDEX_GOAL && INDEX_GOAL[v] == INDEX[GoalPosition(v)]
  {
    assert v == 0 || v == 1 || v == 2 || v == 3 || v == 4 || v == 5 || v == 6 || v == 7 || v == 8;
  }

  /**
   * index_state after the first loop of manhattan: each value of s mapped to
   * the cell of its position; a value that occurs twice keeps its last cell.
   */
  function CellMap(s: seq<int>): (m: map<int, Cell>)
    requires |s| <= 9
    ensures forall v :: v in m <==> v in s
    ensures forall v | v in m :: InGrid(m[v])
  {
    if s == [] then map[]
    else
      var prefix := s[..|s| - 1];
      assert s == prefix + [s[|s| - 1]];
      IndexIsRowMajor(|s| - 1);
      CellMap(prefix)[s[|s| - 1] := INDEX[|s| - 1]]
  }

  /** index_state grows by one position per step of the first loop. */
  lemma CellMapStep(s: seq<int>, i: nat)
    requires i < |s| <= 9
    ensures CellMap(s[..i + 1]) == CellMap(s[..i])[s[i] := INDEX[i]]
  {
    assert s[..i + 1][..i] == s[..i];
  }

  /** The cell of a value that does not occur again later is that of its position. */
  lemma {:induction false} CellMapAt(s: seq<int>, i: nat)
    requires |s| <= 9 && i < |s|
    requires forall j :: i < j < |s| ==> s[j] != s[i]
    ensures s[i] in CellMap(s) && CellMap(s)[s[i]] == INDEX[i]
  {
    if i < |s| - 1 {
      CellMapAt(s[..|s| - 1], i);
    }
  }

  /** |row difference| + |column difference|. */
  function TileDistance(goal: Cell, at: Cell): (d: nat)
    ensures d == 0 <==> goal == at
  {
    Abs(goal.row - at.row) + Abs(goal.col - at.col)
  }

  /** The distances of the values 0..n-1 from their goal cells, summed: the
      double loop of manhattan. It is 0 exactly when each of those values is
      in its goal cell. */
  function SumDistances(m: map<int, Cell>, n: nat): (r: nat)
    requires n <= 9
    requires forall v :: 0 <= v < n ==> v in m
    ensures r == 0 <==> forall v :: 0 <= v < n ==> m[v] == INDEX_GOAL[v]
  {
    if n == 0 then 0
    else
      var last := TileDistance(INDEX_GOAL[n - 1], m[n - 1]);
      assert last == 0 <==> m[n - 1] == INDEX_GOAL[n - 1];
      SumDistances(m, n - 1) + last
  }

  /** Each value on the grid is at most 4 moves from its goal cell. */
  lemma {:induction false} SumDistancesBound(m: map<int, Cell>, n: nat)
    requires n <= 9
    requires forall v :: 0 <= v < n ==> v in m && InGrid(m[v])
    ensures SumDistances(m, n) <= 4 * n
  {
    if n > 0 {
      SumDistancesBound(m, n - 1);
      GoalTableMatchesGoal(n - 1);
      IndexIsRowMajor(GoalPosition(n - 1));
    }
  }

  /** The value manhattan computes: the distances of the values 0..7 from
      their goal cells, summed. Each is at most 4, so the sum is at most 32. */
  function ManhattanDistance(state: seq<int>): (d: nat)
    requires |state| <= 9
    requires forall v :: 0 <= v < 8 ==> v in state
    ensures d <= 32
  {
    SumDistancesBound(CellMap(state), 8);
    SumDistances(CellMap(state), 8)
  }

  /** The first loop of manhattan: index_state[state[i]] = index[i] for
      each position in turn. */
  method IndexState(state: seq<int>) returns (indexState: map<int, Cell>)
    requires |state| <= 9
    ensures indexState == CellMap(state)
  {
    indexState := map[];
    var i := 0;
    while i < |state|
      invariant 0 <= i <= |state|
      invariant indexState == CellMap(state[..i])
    {
      CellMapStep(state, i);
      indexState := indexState[state[i] := INDEX[i]];
      i := i + 1;
    }
    assert state[..i] == state;
  }

  /** manhattan(node), on node.state. A value 0..7 missing from the state
      would raise KeyError; more than nine positions would raise IndexError. */
  method Manhattan(state: seq<int>) returns (mhd: int)
    requires |state| <= 9
    requires forall v :: 0 <= v < 8 ==> v in state
    ensures mhd == ManhattanDistance(state)
    ensures 0 <= mhd <= 32
  {
    var indexState := IndexState(state);
    assert forall v :: 0 <= v < 8 ==> v in indexState;
    mhd := 0;
    var v := 0;
    while v < 8
      invariant 0 <= v <= 8
      invariant forall w :: 0 <= w < 8 ==> w in indexState
      invariant mhd == SumDistances(indexState, v)
    {
      GoalTableMatchesGoal(v);
      ghost var goal, at, before := INDEX_GOAL[v], indexState[v], mhd;
      var j := 0;
      while j < 2
        invariant 0 <= j <= 2
        invariant mhd == before
          + (if j >= 1 then Abs(goal.row - at.row) else 0)
          + (if j == 2 then Abs(goal.col - at.col) else 0)
      {
        mhd := Abs(Coord(INDEX_GOAL[v], j) - Coord(indexState[v], j)) + mhd;
        j := j + 1;
      }
      assert mhd == before + TileDistance(goal, at);
      v := v + 1;
    }
  }

  /** On a well-formed state, manhattan is 0 exactly at the goal. */
  lemma ManhattanZeroIffGoal(s: seq<int>)
    requires IsState(s)
    ensures ManhattanDistance(s) == 0 <==> s == GOAL
  {
    if s == GOAL {
      GoalCellsPlaced(s);
    }
    if ManhattanDistance(s) == 0 {
      PlacedCellsAtGoal(s);
      PlacedBelowEightIsGoal(s);
    }
  }

  /** In the goal every value 0..7 is in its goal cell. */
  lemma GoalCellsPlaced(s: seq<int>)
    requires IsState(s) && s == GOAL
    ensures forall v :: 0 <= v < 8 ==> CellMap(s)[v] == INDEX_GOAL[v]
  {
    forall v | 0 <= v < 8 ensures CellMap(s)[v] == INDEX_GOAL[v] {
      PlacedAtGoalCell(s, v);
    }
  }

  /** A value standing at its goal position is in its goal cell. */
  lemma PlacedAtGoalCell(s: seq<int>, v: int)
    requires IsState(s) && 0 <= v <= 8 && s[GoalPosition(v)] == v
    ensures v in CellMap(s) && CellMap(s)[v] == INDEX_GOAL[v]
  {
    CellMapAt(s, GoalPosition(v));
    GoalTableMatchesGoal(v);
  }

  /** A value in its goal cell stands at its goal position. */
  lemma PlacedCellsAtGoal(s: seq<int>)
    requires IsState(s)
    requires forall v :: 0 <= v < 8 ==> CellMap(s)[v] == INDEX_GOAL[v]
    ensures forall v :: 0 <= v < 8 ==> s[GoalPosition(v)] == v
  {
    forall v | 0 <= v < 8 ensures s[GoalPosition(v)] == v {
      assert v in s;
      var q :| 0 <= q < 9 && s[q] == v;
      CellMapAt(s, q);
      GoalTableMatchesGoal(v);
      IndexIsRowMajor(q);
      IndexIsRowMajor(GoalPosition(v));
    }
  }

  /** A well-formed state with every value 0..7 at its goal position is the goal. */
  lemma PlacedBelowEightIsGoal(s: seq<int>)
    requires IsState(s)
    requires forall v :: 0 <= v < 8 ==> s[GoalPosition(v)] == v
    ensures s == GOAL
  {
    forall p | 0 <= p < 9 && p != 7 ensures s[p] == GOAL[p] {
      var v := GOAL[p];
      assert GoalPosition(v) == p;
    }
    assert 8 in s;
    var q :| 0 <= q < 9 && s[q] == 8;
    assert q == 7;
  }

  /** The misplaced positions among the first n: state[i] != goal[i]. */
  function Misplaced(state: seq<int>, n: nat): (r: nat)
    requires n <= 8 && n <= |state|
    ensures r <= n
    ensures r == 0 <==> forall i :: 0 <= i < n ==> state[i] == GOAL[i]
  {
    if n == 0 then 0
    else Misplaced(state, n - 1) + (if state[n - 1] != GOAL[n - 1] then 1 else 0)
  }

  /** linear(node): the positions 0..7 whose value differs from the goal's;
      position 8 is never examined. */
  function Linear(state: seq<int>): (r: nat)
    requires |state| >= 8
    ensures r <= 8
    ensures r == 0 <==> state[..8] == GOAL[..8]
  {
    var r := Misplaced(state, 8);
    assert r == 0 <==> forall i :: 0 <= i < 8 ==> state[i] == GOAL[i];
    r
  }

  /** On a well-formed state, linear is 0 exactly at the goal. */
  lemma LinearZeroIffGoal(s: seq<int>)
    requires IsState(s)
    ensures Linear(s) == 0 <==> s == GOAL
  {
    if Linear(s) == 0 {
      assert forall i :: 0 <= i < 8 ==> s[..8][i] == s[i];
      assert 0 in s;
      var q :| 0 <= q < 9 && s[q] == 0;
      assert q == 8;
      assert s == s[..8] + [s[8]];
    }
  }

  /** max_heuristic(node): the larger of linear and manhattan. */
  function MaxHeuristic(state: seq<int>): (r: nat)
    requires 8 <= |state| <= 9
    requires forall v :: 0 <= v < 8 ==> v in state
    ensures r >= Linear(state) && r >= ManhattanDistance(state)
    ensures r == Linear(state) || r == ManhattanDistance(state)
  {
    var lin := Linear(state);
    var man := ManhattanDistance(state);
    if lin >= man then lin else man
  }

  /** max_heuristic stays within [0, 32] and, on a well-formed state, is 0
      exactly at the goal. */
  lemma MaxHeuristicRange(s: seq<int>)
    requires 8 <= |s| <= 9
    requires forall v :: 0 <= v < 8 ==> v in s
    ensures MaxHeuristic(s) <= 32
    ensures IsState(s) ==> (MaxHeuristic(s) == 0 <==> s == GOAL)
  {
    if IsState(s) {
      ManhattanZeroIffGoal(s);
      LinearZeroIffGoal(s);
    }
  }

  /** The goal with the blank moved up: one move from the goal. */
  const BLANK_UP: seq<int> := [1, 2, 3, 4, 5, 0, 7, 8, 6]

  /** The goal with tiles 7 and 8 exchanged. */
  const SWAPPED: seq<int> := [1, 2, 3, 4, 5, 6, 8, 7, 0]

  /** BLANK_UP gets 2, one for the blank and one for tile 6, though a single
      move solves it: the blank is counted. */
  lemma ManhattanCountsBlank()
    ensures IsState(BLANK_UP) && ManhattanDistance(BLANK_UP) == 2
  {
    BlankUpIsState();
    forall v | v in {1, 2, 3, 4, 5, 7} ensures CellMap(BLANK_UP)[v] == INDEX_GOAL[v] {
      PlacedAtGoalCell(BLANK_UP, v);
    }
    BlankUpMoved();
    BlankUpTotal(CellMap(BLANK_UP));
  }

  lemma BlankUpIsState()
    ensures IsState(BLANK_UP)
  {
    var s := BLANK_UP;
    forall v | 0 <= v <= 8 ensures v in s {
      assert s[if v == 0 then 5 else if v == 6 then 8 else v - 1] == v;
    }
  }

  /** The blank and tile 6 are each one move from their goal cells. */
  lemma BlankUpMoved()
    requires IsState(BLANK_UP)
    ensures TileDistance(INDEX_GOAL[0], CellMap(BLANK_UP)[0]) == 1
    ensures TileDistance(INDEX_GOAL[6], CellMap(BLANK_UP)[6]) == 1
  {
    CellMapAt(BLANK_UP, 5);
    CellMapAt(BLANK_UP, 8);
    GoalTableMatchesGoal(0);
    GoalTableMatchesGoal(6);
    IndexIsRowMajor(5);
    IndexIsRowMajor(8);
  }

  lemma BlankUpTotal(m: map<int, Cell>)
    requires forall v :: 0 <= v < 8 ==> v in m
    requires m[1] == INDEX_GOAL[1] && m[2] == INDEX_GOAL[2] && m[3] == INDEX_GOAL[3]
    requires m[4] == INDEX_GOAL[4] && m[5] == INDEX_GOAL[5] && m[7] == INDEX_GOAL[7]
    requires TileDistance(INDEX_GOAL[0], m[0]) == 1 && TileDistance(INDEX_GOAL[6], m[6]) == 1
    ensures SumDistances(m, 8) == 2
  {
    assert SumDistances(m, 1) == 1;
    assert SumDistances(m, 2) == 1;
    assert SumDistances(m, 3) == 1;
    assert SumDistances(m, 4) == 1;
    assert SumDistances(m, 5) == 1;
    assert SumDistances(m, 6) == 1;
    assert SumDistances(m, 7) == 2;
  }

  /** SWAPPED has linear 2 but manhattan 1, as manhattan does not look at
      tile 8, so max_heuristic takes linear's value. */
  lemma MaxHeuristicCanExceedManhattan()
    ensures IsState(SWAPPED)
    ensures Linear(SWAPPED) == 2 && ManhattanDistance(SWAPPED) == 1 && MaxHeuristic(SWAPPED) == 2
  {
    SwappedIsState();
    forall v | 0 <= v < 7 ensures CellMap(SWAPPED)[v] == INDEX_GOAL[v] {
      PlacedAtGoalCell(SWAPPED, v);
    }
    SwappedMoved();
    SwappedTotal(CellMap(SWAPPED));
    SwappedLinear();
  }

  lemma SwappedLinear()
    ensures Linear(SWAPPED) == 2
  {
    var s := SWAPPED;
    assert Misplaced(s, 6) == 0;
    assert Misplaced(s, 7) == 1;
  }

  lemma SwappedIsState()
    ensures IsState(SWAPPED)
  {
    var s := SWAPPED;
    forall v | 0 <= v <= 8 ensures v in s {
      assert s[if v == 0 then 8 else if v == 7 then 7 else if v == 8 then 6 else v - 1] == v;
    }
  }

  /** Tile 7 is one move from its goal cell. */
  lemma SwappedMoved()
    requires IsState(SWAPPED)
    ensures TileDistance(INDEX_GOAL[7], CellMap(SWAPPED)[7]) == 1
  {
    CellMapAt(SWAPPED, 7);
    GoalTableMatchesGoal(7);
    IndexIsRowMajor(6);
    IndexIsRowMajor(7);
  }

  lemma SwappedTotal(m: map<int, Cell>)
    requires forall v :: 0 <= v < 8 ==> v in m
    requires forall v :: 0 <= v < 7 ==> m[v] == INDEX_GOAL[v]
    requires TileDistance(INDEX_GOAL[7], m[7]) == 1
    ensures SumDistances(m, 8) == 1
  {
  }
}
