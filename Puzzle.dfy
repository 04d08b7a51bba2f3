/** The value-level facts about a sliding-tile board.

    A board of side n is kept as a flat row-major sequence of n*n cells:
    cell k is row k / n, column k % n, and the value 0 is the blank. The
    functions here are the specifications that the Board methods are proved
    against; the lemmas are the properties the puzzle relies on (the
    heuristics vanish exactly on the goal, a move is a swap of the blank with
    an adjacent cell, the parity rule accepts the goal, and so on). */
module Puzzle {

  // ---------------------------------------------------------------------
  // Row-major index arithmetic
  // ---------------------------------------------------------------------

  lemma MulMonotone(a: int, b: int, n: int)
    requires n >= 0
    ensures a <= b ==> a * n <= b * n
  {
    if a <= b { assert b * n - a * n == (b - a) * n; }
  }

  /** Cell (i, j) of a row-major board of side n sits at index i * n + j. */
  lemma CellIndex(i: int, j: int, n: int)
    requires 0 <= i && 0 <= j < n
    ensures (i * n + j) / n == i && (i * n + j) % n == j
  {
    var q, r := (i * n + j) / n, (i * n + j) % n;
    assert q * n + r == i * n + j;
    MulMonotone(i + 1, q, n);
    MulMonotone(q + 1, i, n);
    assert (i + 1) * n == i * n + n;
    assert (q + 1) * n == q * n + n;
  }

  lemma IndexBound(i: int, j: int, n: int)
    requires 0 <= i < n && 0 <= j < n
    ensures 0 <= i * n + j < n * n
  {
    MulMonotone(i, n - 1, n);
    MulMonotone(0, i, n);
    assert (n - 1) * n == n * n - n;
  }

  /** The index of cell (row, col): inside the board, and row and column
      are recovered from it by / and %. */
  function Cell(row: int, col: int, n: int): (k: int)
    requires 0 <= row < n && 0 <= col < n
    ensures 0 <= k < n * n && k / n == row && k % n == col
  {
    IndexBound(row, col, n);
    CellIndex(row, col, n);
    row * n + col
  }

  lemma RowCol(k: int, n: int)
    requires n >= 1 && 0 <= k < n * n
    ensures 0 <= k / n < n && 0 <= k % n < n
    ensures k == (k / n) * n + k % n
  {
  }

  /** The four guards of a blank move: a blank that is not on the top row,
      bottom row, left column or right column has a neighbour inside the
      board in that direction. */
  lemma MoveBounds(k: int, n: int)
    requires n >= 1 && 0 <= k < n * n
    ensures k / n != 0 ==> 0 <= k - n
    ensures k / n != n - 1 ==> k + n < n * n
    ensures k % n != 0 ==> 0 <= k - 1
    ensures k % n != n - 1 ==> k + 1 < n * n
  {
    RowCol(k, n);
    var q, r := k / n, k % n;
    MulMonotone(1, q, n);
    MulMonotone(q, n - 2, n);
    MulMonotone(q, n - 1, n);
    assert (n - 2) * n == n * n - 2 * n;
    assert (n - 1) * n == n * n - n;
  }

  // ---------------------------------------------------------------------
  // Boards as tile sequences
  // ---------------------------------------------------------------------

  /** Every value 0 .. |s|-1 occurs in s exactly once. */
  predicate IsPermutation(s: seq<int>)
  {
    && (forall i :: 0 <= i < |s| ==> 0 <= s[i] < |s|)
    && (forall i, j :: 0 <= i < j < |s| ==> s[i] != s[j])
    && (forall v :: 0 <= v < |s| ==> v in s)
  }

  /** The solved board of N cells: 1, 2, ..., N-1 and then the blank. */
  function GoalTiles(N: nat): (g: seq<int>)
    ensures |g| == N
  {
    seq(N, i => if i < N - 1 then i + 1 else 0)
  }

  /** The goal test of the board: every cell but the last holds its own
      index plus one. The last cell is not looked at. */
  predicate IsGoalBoard(s: seq<int>)
  {
    forall i :: 0 <= i < |s| - 1 ==> s[i] == i + 1
  }

  /** On a permutation, passing the goal test means being the solved board:
      the uninspected last cell can only hold the blank. */
  lemma GoalIsSolvedBoard(s: seq<int>)
    requires IsPermutation(s) && |s| >= 1
    ensures IsGoalBoard(s) <==> s == GoalTiles(|s|)
  {
    var N := |s|;
    var v := s[N - 1];
    if 1 <= v && s[v - 1] == v && IsGoalBoard(s) {
      // A tile v in the last cell would, by the goal test, also sit at
      // cell v - 1: a permutation holds it only once.
      assert false;
    }
    if IsGoalBoard(s) {
      assert forall i :: 0 <= i < N ==> s[i] == GoalTiles(N)[i];
    }
  }

  // ---------------------------------------------------------------------
  // Hamming distance
  // ---------------------------------------------------------------------

  /** Cell i holds a tile (not the blank) that is not the one it should. */
  predicate Misplaced(s: seq<int>, i: int)
    requires 0 <= i < |s|
  {
    s[i] != i + 1 && s[i] != 0
  }

  /** Number of misplaced tiles among the first m cells. */
  function HammingUpTo(s: seq<int>, m: int): nat
    requires 0 <= m <= |s|
  {
    if m == 0 then 0
    else HammingUpTo(s, m - 1) + (if Misplaced(s, m - 1) then 1 else 0)
  }

  function HammingOf(s: seq<int>): nat
  {
    HammingUpTo(s, |s|)
  }

  function MisplacedCells(s: seq<int>, m: int): set<int>
    requires 0 <= m <= |s|
  {
    set i | 0 <= i < m && Misplaced(s, i)
  }

  lemma {:induction false} HammingUpToCounts(s: seq<int>, m: int)
    requires 0 <= m <= |s|
    ensures HammingUpTo(s, m) == |MisplacedCells(s, m)|
  {
    if m == 0 {
      assert MisplacedCells(s, 0) == {};
    } else {
      HammingUpToCounts(s, m - 1);
      var before := MisplacedCells(s, m - 1);
      assert m - 1 !in before;
      if Misplaced(s, m - 1) {
        assert MisplacedCells(s, m) == before + {m - 1};
      } else {
        assert MisplacedCells(s, m) == before;
      }
    }
  }

  /** The Hamming distance is the number of cells holding a misplaced tile. */
  lemma HammingCountsMisplaced(s: seq<int>)
    ensures HammingOf(s) == |set i | 0 <= i < |s| && Misplaced(s, i)|
  {
    HammingUpToCounts(s, |s|);
  }

  lemma {:induction false} HammingUpToBound(s: seq<int>, m: int, z: int)
    requires 0 <= m <= |s| && 0 <= z < |s| && s[z] == 0
    ensures HammingUpTo(s, m) <= if z < m then m - 1 else m
  {
    if m > 0 {
      HammingUpToBound(s, m - 1, z);
    }
  }

  /** The blank is never counted, so at most N-1 tiles are misplaced. */
  lemma HammingBounds(s: seq<int>)
    requires IsPermutation(s) && |s| >= 1
    ensures 0 <= HammingOf(s) <= |s| - 1
  {
    assert 0 in s;
    var z :| 0 <= z < |s| && s[z] == 0;
    HammingUpToBound(s, |s|, z);
  }

  lemma {:induction false} HammingZeroIff(s: seq<int>, m: int)
    requires 0 <= m <= |s|
    ensures HammingUpTo(s, m) == 0 <==> forall i :: 0 <= i < m ==> !Misplaced(s, i)
  {
    if m > 0 {
      HammingZeroIff(s, m - 1);
    }
  }

  // ---------------------------------------------------------------------
  // Manhattan distance
  // ---------------------------------------------------------------------

  function Abs(x: int): nat
  {
    if x < 0 then -x else x
  }

  /** Rows plus columns between cell i and the goal cell v - 1 of tile v.
      For v >= 1 and i >= 0 both divisions agree with Java's. */
  function TileDistance(v: int, i: int, n: int): nat
    requires n >= 1
  {
    Abs((v - 1) / n - i / n) + Abs((v - 1) % n - i % n)
  }

  /** Sum of the distances of the misplaced tiles among the first m cells. */
  function ManhattanUpTo(s: seq<int>, m: int, n: int): nat
    requires 0 <= m <= |s| && n >= 1
  {
    if m == 0 then 0
    else ManhattanUpTo(s, m - 1, n)
         + (if Misplaced(s, m - 1) then TileDistance(s[m - 1], m - 1, n) else 0)
  }

  function ManhattanOf(s: seq<int>, n: int): nat
    requires n >= 1
  {
    ManhattanUpTo(s, |s|, n)
  }

  /** Two different non-negative indices differ in their row or column. */
  lemma DistinctCells(a: int, b: int, n: int)
    requires n >= 1 && 0 <= a && 0 <= b && a != b
    ensures a / n != b / n || a % n != b % n
  {
    assert a == (a / n) * n + a % n;
    assert b == (b / n) * n + b % n;
  }

  /** A misplaced tile is at least one move away from its goal cell. */
  lemma MisplacedCostsAMove(s: seq<int>, i: int, n: int)
    requires n >= 1 && 0 <= i < |s| && s[i] >= 0 && Misplaced(s, i)
    ensures TileDistance(s[i], i, n) >= 1
  {
    DistinctCells(s[i] - 1, i, n);
  }

  lemma {:induction false} ManhattanUpToDominates(s: seq<int>, m: int, n: int)
    requires 0 <= m <= |s| && n >= 1
    requires forall i :: 0 <= i < |s| ==> s[i] >= 0
    ensures ManhattanUpTo(s, m, n) >= HammingUpTo(s, m)
    ensures ManhattanUpTo(s, m, n) == 0 <==> forall i :: 0 <= i < m ==> !Misplaced(s, i)
  {
    if m > 0 {
      ManhattanUpToDominates(s, m - 1, n);
      if Misplaced(s, m - 1) {
        MisplacedCostsAMove(s, m - 1, n);
      }
    }
  }

  /** Each tile the Hamming distance counts adds at least one to the
      Manhattan distance. */
  lemma ManhattanAtLeastHamming(s: seq<int>, n: int)
    requires n >= 1 && forall i :: 0 <= i < |s| ==> s[i] >= 0
    ensures ManhattanOf(s, n) >= HammingOf(s) >= 0
  {
    ManhattanUpToDominates(s, |s|, n);
  }

  /** On a permutation, no tile is misplaced exactly when the goal test holds. */
  lemma NoneMisplacedIffGoal(s: seq<int>)
    requires IsPermutation(s) && |s| >= 1
    ensures (forall i :: 0 <= i < |s| ==> !Misplaced(s, i)) <==> IsGoalBoard(s)
  {
    var N := |s|;
    assert Misplaced(s, N - 1) <==> s[N - 1] != 0;
    if forall i :: 0 <= i < N ==> !Misplaced(s, i) {
      forall i | 0 <= i < N - 1
        ensures s[i] == i + 1
      {
        assert !Misplaced(s, i);
      }
    }
    if IsGoalBoard(s) {
      GoalIsSolvedBoard(s);
    }
  }

  /** Both heuristics are zero exactly on the goal board. */
  lemma GoalIffHeuristicsZero(s: seq<int>, n: int)
    requires n >= 1 && IsPermutation(s) && |s| >= 1
    ensures IsGoalBoard(s) <==> HammingOf(s) == 0
    ensures IsGoalBoard(s) <==> ManhattanOf(s, n) == 0
  {
    HammingZeroIff(s, |s|);
    ManhattanUpToDominates(s, |s|, n);
    NoneMisplacedIffGoal(s);
  }

  // ---------------------------------------------------------------------
  // The blank and the moves
  // ---------------------------------------------------------------------

  /** Index of the first blank at or after cell i, or |s| if there is none. */
  function BlankFrom(s: seq<int>, i: int): (k: int)
    requires 0 <= i <= |s|
    ensures i <= k <= |s|
    decreases |s| - i
  {
    if i == |s| then |s|
    else if s[i] == 0 then i
    else BlankFrom(s, i + 1)
  }

  function Blank(s: seq<int>): int
  {
    BlankFrom(s, 0)
  }

  lemma {:induction false} BlankFromIsFirstZero(s: seq<int>, i: int)
    requires 0 <= i <= |s|
    ensures BlankFrom(s, i) < |s| ==> s[BlankFrom(s, i)] == 0
    ensures forall j :: i <= j < BlankFrom(s, i) ==> s[j] != 0
    decreases |s| - i
  {
    if i < |s| && s[i] != 0 {
      BlankFromIsFirstZero(s, i + 1);
    }
  }

  /** Blank(s) is the first cell holding 0, and it exists iff 0 occurs. */
  lemma BlankIsFirstZero(s: seq<int>)
    ensures Blank(s) < |s| <==> 0 in s
    ensures Blank(s) < |s| ==> s[Blank(s)] == 0
    ensures forall j :: 0 <= j < Blank(s) ==> s[j] != 0
  {
    BlankFromIsFirstZero(s, 0);
  }

  /** On a permutation the blank is unique, so any cell holding 0 is Blank(s). */
  lemma BlankIsUnique(s: seq<int>, k: int)
    requires IsPermutation(s) && 0 <= k < |s| && s[k] == 0
    ensures Blank(s) == k
  {
    BlankIsFirstZero(s);
  }

  function Swap(s: seq<int>, a: int, b: int): (t: seq<int>)
    requires 0 <= a < |s| && 0 <= b < |s|
  {
    s[a := s[b]][b := s[a]]
  }

  /** Swapping two cells keeps a permutation a permutation. */
  lemma SwapIsPermutation(s: seq<int>, a: int, b: int)
    requires IsPermutation(s) && 0 <= a < |s| && 0 <= b < |s|
    ensures IsPermutation(Swap(s, a, b))
  {
    var t := Swap(s, a, b);
    forall v | 0 <= v < |t|
      ensures v in t
    {
      assert v in s;
      var p :| 0 <= p < |s| && s[p] == v;
      if p == a {
        assert t[b] == v;
      } else if p == b {
        assert t[a] == v;
      } else {
        assert t[p] == v;
      }
    }
  }

  /** Cells a and b are orthogonal neighbours on a board of side n. */
  predicate Adjacent(a: int, b: int, n: int)
    requires n >= 1
  {
    Abs(a / n - b / n) + Abs(a % n - b % n) == 1
  }

  /** The four directions the blank can move in. */
  datatype Direction = Up | Down | Left | Right

  /** The cell the blank at k swaps with when it moves in direction d, or
      nothing when that move would leave the board. */
  function Toward(k: int, n: int, d: Direction): (t: seq<int>)
    requires n >= 1 && 0 <= k < n * n
    ensures |t| <= 1 && forall i :: 0 <= i < |t| ==> 0 <= t[i] < n * n
  {
    MoveBounds(k, n);
    match d
    case Up => if k / n != 0 then [k - n] else []
    case Down => if k / n != n - 1 then [k + n] else []
    case Left => if k % n != 0 then [k - 1] else []
    case Right => if k % n != n - 1 then [k + 1] else []
  }

  /** The cells the blank at k may swap with, in the order up, down, left,
      right, leaving out the directions that would leave the board. */
  function MoveTargets(k: int, n: int): (ts: seq<int>)
    requires n >= 1 && 0 <= k < n * n
    ensures forall i :: 0 <= i < |ts| ==> 0 <= ts[i] < n * n
  {
    Toward(k, n, Up) + Toward(k, n, Down) + Toward(k, n, Left) + Toward(k, n, Right)
  }


  /** The boards one blank move away from s, in the order of MoveTargets. */
  function NeighborTiles(s: seq<int>, n: int): (ns: seq<seq<int>>)
    requires n >= 1 && |s| == n * n && 0 in s
    ensures forall i :: 0 <= i < |ns| ==> |ns[i]| == |s|
  {
    BlankIsFirstZero(s);
    var k := Blank(s);
    var ts := MoveTargets(k, n);
    seq(|ts|, i requires 0 <= i < |ts| => Swap(s, k, ts[i]))
  }

  /** t is one blank move away from the n-by-n board s. */
  predicate IsNeighbor(t: seq<int>, s: seq<int>, n: int)
  {
    n >= 1 && |s| == n * n && 0 in s && t in NeighborTiles(s, n)
  }

  /** Moving one row up or down, or one column left or right, from cell
      (q, r) reaches an adjacent cell. */
  lemma StepIsAdjacent(q: int, r: int, dq: int, dr: int, n: int)
    requires n >= 1 && 0 <= q + dq && 0 <= r < n && 0 <= r + dr < n && 0 <= q
    requires Abs(dq) + Abs(dr) == 1
    ensures Adjacent(q * n + r, (q + dq) * n + (r + dr), n)
  {
    CellIndex(q, r, n);
    CellIndex(q + dq, r + dr, n);
  }

  lemma TargetCases(k: int, n: int, j: int)
    requires n >= 1 && 0 <= k < n * n && j in MoveTargets(k, n)
    ensures || (j == k - n && k / n != 0)
            || (j == k + n && k / n != n - 1)
            || (j == k - 1 && k % n != 0)
            || (j == k + 1 && k % n != n - 1)
  {
  }

  lemma VerticalStep(k: int, n: int, j: int)
    requires n >= 1 && 0 <= k < n * n
    requires (j == k - n && k / n != 0) || (j == k + n && k / n != n - 1)
    ensures Adjacent(k, j, n)
  {
    RowCol(k, n);
    var q, r := k / n, k % n;
    if j == k - n {
      assert (q - 1) * n + r == k - n;
      StepIsAdjacent(q, r, -1, 0, n);
    } else {
      assert (q + 1) * n + r == k + n;
      StepIsAdjacent(q, r, 1, 0, n);
    }
  }

  lemma HorizontalStep(k: int, n: int, j: int)
    requires n >= 1 && 0 <= k < n * n
    requires (j == k - 1 && k % n != 0) || (j == k + 1 && k % n != n - 1)
    ensures Adjacent(k, j, n)
  {
    RowCol(k, n);
    var q, r := k / n, k % n;
    if j == k - 1 {
      StepIsAdjacent(q, r, 0, -1, n);
    } else {
      StepIsAdjacent(q, r, 0, 1, n);
    }
  }

  lemma TargetIsAdjacent(k: int, n: int, j: int)
    requires n >= 1 && 0 <= k < n * n && j in MoveTargets(k, n)
    ensures 0 <= j < n * n && Adjacent(k, j, n)
  {
    TargetCases(k, n, j);
    if (j == k - n && k / n != 0) || (j == k + n && k / n != n - 1) {
      VerticalStep(k, n, j);
    } else {
      HorizontalStep(k, n, j);
    }
  }

  lemma AdjacentIsTarget(k: int, n: int, j: int)
    requires n >= 1 && 0 <= k < n * n && 0 <= j < n * n && Adjacent(k, j, n)
    ensures j in MoveTargets(k, n)
  {
    RowCol(k, n);
    RowCol(j, n);
    MoveBounds(k, n);
    var q, r := k / n, k % n;
    var qj, rj := j / n, j % n;
    if qj == q - 1 {
      assert (q - 1) * n == q * n - n;
      assert j == k - n;
    } else if qj == q + 1 {
      assert (q + 1) * n == q * n + n;
      assert j == k + n;
    } else if rj == r - 1 {
      assert j == k - 1;
    } else {
      assert j == k + 1;
    }
  }

  /** MoveTargets holds exactly the in-board cells adjacent to the blank. */
  lemma MoveTargetsAreAdjacent(k: int, n: int, j: int)
    requires n >= 1 && 0 <= k < n * n
    ensures j in MoveTargets(k, n) <==> 0 <= j < n * n && Adjacent(k, j, n)
  {
    if j in MoveTargets(k, n) {
      TargetIsAdjacent(k, n, j);
    }
    if 0 <= j < n * n && Adjacent(k, j, n) {
      AdjacentIsTarget(k, n, j);
    }
  }

  /** t is s with a blank cell swapped with an orthogonally adjacent cell. */
  ghost predicate IsMove(s: seq<int>, t: seq<int>, n: int)
    requires n >= 1 && |s| == n * n
  {
    exists k, j :: 0 <= k < |s| && 0 <= j < |s| && s[k] == 0 && Adjacent(k, j, n)
                   && t == Swap(s, k, j)
  }

  /** The neighbours of a board are exactly the boards one blank move away. */
  lemma NeighborsAreMoves(s: seq<int>, n: int, t: seq<int>)
    requires n >= 1 && |s| == n * n && IsPermutation(s) && 0 in s
    ensures t in NeighborTiles(s, n) <==> IsMove(s, t, n)
  {
    BlankIsFirstZero(s);
    var k := Blank(s);
    var ts := MoveTargets(k, n);
    var ns := NeighborTiles(s, n);
    if t in ns {
      var i :| 0 <= i < |ns| && ns[i] == t;
      assert ts[i] in ts;
      MoveTargetsAreAdjacent(k, n, ts[i]);
      assert t == Swap(s, k, ts[i]);
    }
    if IsMove(s, t, n) {
      var k', j :| 0 <= k' < |s| && 0 <= j < |s| && s[k'] == 0 && Adjacent(k', j, n)
                   && t == Swap(s, k', j);
      BlankIsUnique(s, k');
      MoveTargetsAreAdjacent(k, n, j);
      var i :| 0 <= i < |ts| && ts[i] == j;
      assert ns[i] == t;
    }
  }

  /** On a board of side n >= 2 the blank has 2 moves in a corner, 3 on an
      edge and 4 inside. */
  lemma NeighborCount(s: seq<int>, n: int)
    requires n >= 2 && |s| == n * n && 0 in s
    ensures var k := Blank(s);
            var rowEdge := k / n == 0 || k / n == n - 1;
            var colEdge := k % n == 0 || k % n == n - 1;
            |NeighborTiles(s, n)| == if rowEdge && colEdge then 2 else if rowEdge || colEdge then 3 else 4
    ensures 2 <= |NeighborTiles(s, n)| <= 4
  {
    BlankIsFirstZero(s);
  }

  /** Every neighbour of a permutation is a permutation. */
  lemma NeighborsArePermutations(s: seq<int>, n: int)
    requires n >= 1 && |s| == n * n && IsPermutation(s) && 0 in s
    ensures forall t :: t in NeighborTiles(s, n) ==> IsPermutation(t) && |t| == |s|
  {
    BlankIsFirstZero(s);
    var k := Blank(s);
    var ts := MoveTargets(k, n);
    forall t | t in NeighborTiles(s, n)
      ensures IsPermutation(t) && |t| == |s|
    {
      var i :| 0 <= i < |ts| && NeighborTiles(s, n)[i] == t;
      SwapIsPermutation(s, k, ts[i]);
    }
  }

  /** The neighbours of a permutation are pairwise different boards. */
  lemma NeighborsAreDistinct(s: seq<int>, n: int)
    requires n >= 2 && |s| == n * n && IsPermutation(s)
    ensures 0 in s
    ensures var ns := NeighborTiles(s, n);
            forall i, j :: 0 <= i < j < |ns| ==> ns[i] != ns[j]
  {
    assert 0 in s;
    BlankIsFirstZero(s);
    var k := Blank(s);
    var ts := MoveTargets(k, n);
    var ns := NeighborTiles(s, n);
    TargetsAreDistinct(k, n);
    forall i, j | 0 <= i < j < |ns|
      ensures ns[i] != ns[j]
    {
      var a, b := ts[i], ts[j];
      assert a != k && b != k;
      assert ns[i][a] == 0;
      assert ns[j][a] == s[a] != 0;
    }
  }

  /** The cells the blank may swap with are distinct from each other and
      from the blank's own cell. */
  lemma TargetsAreDistinct(k: int, n: int)
    requires n >= 2 && 0 <= k < n * n
    ensures var ts := MoveTargets(k, n);
            && (forall i :: 0 <= i < |ts| ==> ts[i] != k)
            && (forall i, j :: 0 <= i < j < |ts| ==> ts[i] != ts[j])
  {
  }

  /** Swapping the blank back undoes a move. */
  lemma MoveBack(s: seq<int>, n: int, k: int, j: int)
    requires n >= 1 && |s| == n * n && 0 <= k < |s| && 0 <= j < |s|
    requires s[k] == 0 && Adjacent(k, j, n)
    ensures IsMove(Swap(s, k, j), s, n)
  {
    var t := Swap(s, k, j);
    assert k != j;
    assert t[j] == 0;
    assert Adjacent(j, k, n);
    assert Swap(t, j, k) == s;
  }

  /** Every move can be undone: s is in turn a neighbour of each of its
      neighbours. */
  lemma MoveIsReversible(s: seq<int>, n: int, t: seq<int>)
    requires IsPermutation(s) && IsNeighbor(t, s, n)
    ensures IsPermutation(t) && IsNeighbor(s, t, n)
  {
    NeighborsAreMoves(s, n, t);
    var k, j :| 0 <= k < |s| && 0 <= j < |s| && s[k] == 0 && Adjacent(k, j, n)
                && t == Swap(s, k, j);
    SwapIsPermutation(s, k, j);
    MoveBack(s, n, k, j);
    assert t[j] == 0;
    NeighborsAreMoves(t, n, s);
  }

  // ---------------------------------------------------------------------
  // Inversions and the parity rule
  // ---------------------------------------------------------------------

  /** Number of cells k, i < k < j, holding a tile smaller than the tile at
      cell i (the blank does not count). */
  function SmallerAfter(s: seq<int>, i: int, j: int): nat
    requires 0 <= i < j <= |s|
    decreases j
  {
    if j == i + 1 then 0
    else SmallerAfter(s, i, j - 1) + (if s[i] > s[j - 1] && s[j - 1] != 0 then 1 else 0)
  }

  /** Inversions whose first cell is one of the first m cells. */
  function InversionsUpTo(s: seq<int>, m: int): nat
    requires 0 <= m <= |s|
  {
    if m == 0 then 0
    else InversionsUpTo(s, m - 1) + (if s[m - 1] != 0 then SmallerAfter(s, m - 1, |s|) else 0)
  }

  function Inversions(s: seq<int>): nat
  {
    InversionsUpTo(s, |s|)
  }

  /** Pairs of cells i < j whose non-blank tiles are out of order. */
  function InversionPairs(s: seq<int>): set<(int, int)>
  {
    set i, j | 0 <= i < j < |s| && s[i] != 0 && s[j] != 0 && s[i] > s[j] :: (i, j)
  }

  function PairsFrom(s: seq<int>, i: int, j: int): set<(int, int)>
    requires 0 <= i < j <= |s|
  {
    set k | i < k < j && s[i] > s[k] && s[k] != 0 :: (i, k)
  }

  lemma PairsFromSize(s: seq<int>, i: int, j: int)
    requires 0 <= i < j - 1 && j <= |s|
    ensures |PairsFrom(s, i, j)| ==
            |PairsFrom(s, i, j - 1)| + (if s[i] > s[j - 1] && s[j - 1] != 0 then 1 else 0)
  {
    var before, after := PairsFrom(s, i, j - 1), PairsFrom(s, i, j);
    var added := if s[i] > s[j - 1] && s[j - 1] != 0 then {(i, j - 1)} else {};
    forall p | p in after
      ensures p in before + added
    {
      var (i', k) := p;
      if k < j - 1 {
        assert (i, k) in before;
      }
    }
    forall p | p in before + added
      ensures p in after
    {
      var (i', k) := p;
      assert (i, k) in after;
    }
    assert after == before + added;
    assert (i, j - 1) !in before;
  }

  lemma {:induction false} SmallerAfterCounts(s: seq<int>, i: int, j: int)
    requires 0 <= i < j <= |s|
    ensures SmallerAfter(s, i, j) == |PairsFrom(s, i, j)|
    decreases j
  {
    if j == i + 1 {
      assert PairsFrom(s, i, j) == {};
    } else {
      SmallerAfterCounts(s, i, j - 1);
      PairsFromSize(s, i, j);
    }
  }

  function PairsUpTo(s: seq<int>, m: int): set<(int, int)>
    requires 0 <= m <= |s|
  {
    set i, j | 0 <= i < m && i < j < |s| && s[i] != 0 && s[j] != 0 && s[i] > s[j] :: (i, j)
  }

  lemma PairsUpToStep(s: seq<int>, m: int)
    requires 0 < m <= |s|
    ensures s[m - 1] != 0 ==> PairsUpTo(s, m) == PairsUpTo(s, m - 1) + PairsFrom(s, m - 1, |s|)
    ensures s[m - 1] == 0 ==> PairsUpTo(s, m) == PairsUpTo(s, m - 1)
  {
    var before, all := PairsUpTo(s, m - 1), PairsUpTo(s, m);
    var row := PairsFrom(s, m - 1, |s|);
    forall p | p in all
      ensures p in before || (s[m - 1] != 0 && p in row)
    {
      var (i, j) := p;
      if i < m - 1 {
        assert (i, j) in before;
      } else {
        assert (i, j) in row;
      }
    }
    forall p | p in before
      ensures p in all
    {
      var (i, j) := p;
      assert (i, j) in all;
    }
    if s[m - 1] != 0 {
      forall p | p in row
        ensures p in all
      {
        var (i, j) := p;
        assert (i, j) in all;
      }
    }
  }

  lemma PairsDisjoint(s: seq<int>, m: int)
    requires 0 < m <= |s|
    ensures PairsUpTo(s, m - 1) * PairsFrom(s, m - 1, |s|) == {}
  {
    var before, row := PairsUpTo(s, m - 1), PairsFrom(s, m - 1, |s|);
    forall p | p in before
      ensures p !in row
    {
    }
  }

  lemma DisjointUnionSize<T>(a: set<T>, b: set<T>)
    requires a * b == {}
    ensures |a + b| == |a| + |b|
  {
  }

  lemma PairsUpToSize(s: seq<int>, m: int)
    requires 0 < m <= |s|
    ensures |PairsUpTo(s, m)| ==
            |PairsUpTo(s, m - 1)| + (if s[m - 1] != 0 then SmallerAfter(s, m - 1, |s|) else 0)
  {
    PairsUpToStep(s, m);
    if s[m - 1] != 0 {
      SmallerAfterCounts(s, m - 1, |s|);
      PairsDisjoint(s, m);
      DisjointUnionSize(PairsUpTo(s, m - 1), PairsFrom(s, m - 1, |s|));
    }
  }

  lemma {:induction false} InversionsUpToCounts(s: seq<int>, m: int)
    requires 0 <= m <= |s|
    ensures InversionsUpTo(s, m) == |PairsUpTo(s, m)|
  {
    if m == 0 {
      assert PairsUpTo(s, 0) == {};
    } else {
      InversionsUpToCounts(s, m - 1);
      PairsUpToSize(s, m);
    }
  }

  /** The inversion count is the number of out-of-order pairs of tiles. */
  lemma InversionsCountPairs(s: seq<int>)
    ensures Inversions(s) == |InversionPairs(s)|
  {
    InversionsUpToCounts(s, |s|);
    assert PairsUpTo(s, |s|) == InversionPairs(s);
  }

  /** The parity rule: on an odd board the inversion count must be even; on
      an even board the inversion count plus the blank's row (counted from
      the top, starting at 0) must be odd. */
  predicate Solvable(s: seq<int>, n: int)
    requires n >= 1
  {
    if n % 2 != 0 then Inversions(s) % 2 == 0
    else (Inversions(s) + Blank(s) / n) % 2 == 1
  }

  /** A tile with no smaller tile after it (up to cell j) counts nothing. */
  lemma {:induction false} NoSmallerAfter(s: seq<int>, i: int, j: int)
    requires 0 <= i < j <= |s|
    requires forall k :: i < k < j ==> s[k] == 0 || s[k] >= s[i]
    ensures SmallerAfter(s, i, j) == 0
    decreases j
  {
    if j > i + 1 {
      NoSmallerAfter(s, i, j - 1);
    }
  }

  lemma {:induction false} GoalInversionsUpToZero(N: nat, m: int)
    requires 0 <= m <= N
    ensures InversionsUpTo(GoalTiles(N), m) == 0
  {
    if m > 0 {
      GoalInversionsUpToZero(N, m - 1);
      if GoalTiles(N)[m - 1] != 0 {
        NoSmallerAfter(GoalTiles(N), m - 1, N);
      }
    }
  }

  /** The solved board passes the parity rule for every side n >= 2. */
  lemma GoalIsSolvable(n: int)
    requires n >= 2
    ensures Inversions(GoalTiles(n * n)) == 0
    ensures Blank(GoalTiles(n * n)) == n * n - 1
    ensures Solvable(GoalTiles(n * n), n)
  {
    var N := n * n;
    var g := GoalTiles(N);
    GoalInversionsUpToZero(N, N);
    BlankIsFirstZero(g);
    assert g[N - 1] == 0;
    assert (n - 1) * n + (n - 1) == N - 1;
    CellIndex(n - 1, n - 1, n);
  }

  /** The classic unsolvable 3x3 board: 8 and 7 swapped. */
  lemma SwappedEightSevenUnsolvable()
    ensures Inversions([1, 2, 3, 4, 5, 6, 8, 7, 0]) == 1
    ensures !Solvable([1, 2, 3, 4, 5, 6, 8, 7, 0], 3)
  {
    var s := [1, 2, 3, 4, 5, 6, 8, 7, 0];
    forall i | 0 <= i < 9 && i != 6
      ensures SmallerAfter(s, i, 9) == 0
    {
      NoSmallerAfter(s, i, 9);
    }
    assert SmallerAfter(s, 6, 9) == 1;
    assert InversionsUpTo(s, 6) == 0;
    assert InversionsUpTo(s, 9) == 1;
  }
}
