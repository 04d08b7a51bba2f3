# 8-puzzle board and A* solver

A model of a sliding-tile puzzle (the n-puzzle) and of the A* solver that
works on it. There are two Java classes:

- `Board` keeps an n-by-n grid as a flat row-major `int` array, with 0 for
  the blank. It offers:
  - a range-checked tile lookup;
  - the Hamming and Manhattan heuristics;
  - the goal test and board equality;
  - an in-place swap of two cells;
  - the list of boards one blank move away (up, down, left, right);
  - the inversion-parity solvability test.
- `Solver` does the following:
  - rejects unsolvable boards;
  - wraps boards in search nodes, each with a back-link, a move count and a
    priority (move count plus Manhattan distance);
  - repeatedly takes the least-priority node from a priority queue and queues
    its neighbours, except the board of its parent;
  - once it takes a goal board, walks the back-links into the solution queue.

The project is organised as follows:

- `Wrappers.dfy`: `Option` and `Result`.
- `Puzzle.dfy`: the specification functions on `seq<int>`, and the lemmas
  about them:
  - the goal board;
  - the Hamming and Manhattan sums;
  - the blank's cell, the moves and the neighbour boards;
  - the inversion count and the parity rule.
- `Board.dfy`: class `Board`, with `const n` and `const board: array<int>`.
  - The loops of hamming, manhattan and isGoal, the blank scan of neighbors,
    and the loops of isSolvable are methods, each proved equal to the
    matching function of `Puzzle`.
  - isSolvable's two inversion loops, one per parity branch, are the same
    code, so both are the one method `CountInversions`.
  - The two constructors keep their loops: the grid constructor is proved to
    put `tiles[i][j]` at cell `i*n + j`, and the copy constructor to copy the
    source array cell by cell.
- `SearchNode.dfy`: class `SearchNode` and the search-tree invariant on its
  `prev` links, plus the priority queue as a bag with extract-minimum.
- `Solver.dfy`: class `Solver`. The constructor is split into the steps it
  performs. The search is bounded by fuel, then the path is walked back.

A search node records, as ghost state, the cells its board held when it was
made. A ghost set `frozen` collects the arrays of every board wrapped in a
search node. A neighbour board that the parent filter drops is never wrapped,
so its array is not in `frozen`. The frontier invariant (`SearchNodes.Frontier`)
states four things:

- Every node in the queue, and the current node, is linked back to the root:
  - each step is one blank move;
  - the move count drops by one at each step, down to 1 at the root;
  - the priority is the move count plus the Manhattan distance.
- None of those arrays has changed since its node was made.
- `count` equals the current node's move count.
- When the initial board is already the goal, the current node is still the
  root. `Solvers.Solver.Moves` relies on this to be 0 exactly for such a
  board.

## Model

| member | source | states |
|---|---|---|
| Boards.Board.constructor | src/Board.java:11-20 | cell i*n + j of the new array holds tiles[i][j] for all i, j < n, where n is the length of the first row; the array has exactly n*n cells |
| Boards.Board.CopyOf | src/Board.java:22-28 | the copy is a fresh array with the same cells as the source |
| Boards.Board.TileAt | src/Board.java:42-52 | fails with the range error exactly when row < 0, row > n, col < 0 or col > n; fails on the array access exactly when the check passes but row*n + col >= n*n; otherwise returns cell row*n + col |
| Boards.Board.TileAtChecked | src/Board.java:42-52 | corrected lookup: succeeds exactly when 0 <= row, col < n and then returns cell (row, col); otherwise a range error |
| Boards.TileAtInside | src/Board.java:42-52 | inside the board the lookup as written and the corrected lookup agree |
| Boards.TileAtColumnWraps | src/Board.java:46-51 | column n of a row other than the last passes the check and returns the first tile of the next row, where the corrected lookup fails |
| Boards.TileAtPastEnd | src/Board.java:43-51 | row n, and column n of the last row, pass the check and then fail on the array access |
| Boards.Board.Size | src/Board.java:55-57 | the result squared is the number of cells |
| Boards.Board.Hamming | src/Board.java:60-67 | the loop computes the count of cells holding a tile other than their index plus one, and the count lies in [0, n*n-1] |
| Puzzle.HammingCountsMisplaced | src/Board.java:60-67 | that count is the size of the set of misplaced non-blank cells |
| Puzzle.HammingBounds | src/Board.java:60-67 | on a permutation at most n*n-1 tiles are misplaced |
| Boards.Board.Manhattan | src/Board.java:70-81 | the loop computes the sum of the row and column distances of each misplaced tile to its goal cell, and that sum is at least the Hamming count |
| Puzzle.ManhattanAtLeastHamming | src/Board.java:60-81 | every tile Hamming counts adds at least 1 to the Manhattan sum, so manhattan >= hamming >= 0 |
| Puzzle.GoalIffHeuristicsZero | src/Board.java:60-89 | on a permutation the board is the goal exactly when Hamming is 0, and exactly when Manhattan is 0 |
| Puzzle.NoneMisplacedIffGoal | src/Board.java:60-89 | on a permutation no tile is misplaced exactly when the goal test holds |
| Boards.Board.IsGoal | src/Board.java:84-89 | true exactly when every cell but the last holds its index plus one; the last cell is not inspected |
| Puzzle.GoalIsSolvedBoard | src/Board.java:84-89 | on a permutation the goal test holds exactly when the board is 1, 2, ..., n*n-1, 0 |
| Boards.Board.Equals | src/Board.java:92-99 | true exactly when the two arrays hold the same cells |
| Boards.Board.Exchange | src/Board.java:101-106 | swaps cells a and b of the given board's array, leaves every other cell as it was, and returns that board |
| Puzzle.SwapIsPermutation | src/Board.java:101-106 | swapping two cells of a permutation gives a permutation |
| Boards.Board.Neighbors | src/Board.java:109-151 | None when no cell holds 0; otherwise fresh boards, one per move of the blank in the order up, down, left, right, each equal to the neighbour board of the specification; valid when the receiver is valid; the receiver is not modified |
| Boards.Board.FindBlank | src/Board.java:116-123 | finds a cell holding 0 exactly when one exists, and then returns the first one |
| Boards.Board.SwappedCopies | src/Board.java:125-147 | the copies are the board with the blank swapped with each cell of MoveTargets, in that order |
| Boards.Board.AddMove | src/Board.java:125-147 | one guarded exchange: appends a copy with the blank moved in direction d exactly when that move stays on the board, and keeps the boards already made |
| Boards.Board.SwappedCopy | src/Board.java:126-127 | a fresh copy of the board with cells a and b swapped |
| Puzzle.MoveTargetsAreAdjacent | src/Board.java:125-147 | the four guards admit exactly the cells one row or one column from the blank |
| Puzzle.NeighborsAreMoves | src/Board.java:109-151 | a board is among the neighbours exactly when it is the board with the blank swapped with an adjacent cell |
| Puzzle.NeighborCount | src/Board.java:125-147 | 2 neighbours when the blank is in a corner, 3 on an edge, 4 inside |
| Puzzle.NeighborsArePermutations | src/Board.java:109-151 | every neighbour of a permutation is a permutation of the same size |
| Puzzle.NeighborsAreDistinct | src/Board.java:109-151 | the neighbours of a valid board are pairwise different |
| Puzzle.MoveIsReversible | src/Board.java:109-151 | if t is a neighbour of s then s is a neighbour of t |
| Boards.Board.CountInversions | src/Board.java:159-166 | the nested loop computes the number of pairs i < j of non-blank cells with board[i] > board[j]; the identical loop of the even branch (lines 170-177) is the same method |
| Puzzle.InversionsCountPairs | src/Board.java:159-166 | that number is the size of the set of out-of-order pairs |
| Boards.Board.BlankRow | src/Board.java:178-185 | the result is the blank's row, counted from the top from 0, and so lies in [0, n) |
| Boards.Board.IsSolvable | src/Board.java:154-190 | odd n: true exactly when the inversion count is even; even n: true exactly when the inversion count plus the blank's row is odd |
| Boards.JavaRem | src/Board.java:188 | Java's `%`: the remainder has the sign of the dividend, is smaller than the divisor in magnitude, and adds to the truncated quotient times the divisor to give the dividend |
| Boards.JavaEvenTest | src/Board.java:186-188 | Java's (x - 1) % 2 == 0 holds exactly when x is odd, including x == 0, where x - 1 is negative |
| Boards.OddBoardTest | src/Board.java:158-167 | the odd-board test as written is the parity rule |
| Boards.EvenBoardTest | src/Board.java:169-188 | the even-board test as written is the parity rule |
| Puzzle.GoalIsSolvable | src/Board.java:154-190 | the goal board has no inversions, its blank is in the last cell, and it passes the test |
| Puzzle.SwappedEightSevenUnsolvable | src/Board.java:154-190 | [[1,2,3],[4,5,6],[8,7,0]] has one inversion and fails the test |
| SearchNodes.SearchNode.constructor | src/Solver.java:51-59 | mcount is moves + 1; manhattan is the Manhattan sum of the node's own board; priority is mcount + manhattan |
| SearchNodes.SearchNode.CompareTo | src/Solver.java:62-66 | negative, zero or positive exactly as this node's priority is below, equal to or above the other's |
| SearchNodes.MinPQ.constructor | src/Solver.java:20 | the new queue is empty |
| SearchNodes.MinPQ.Insert | src/Solver.java:22 | the node joins the queue |
| SearchNodes.MinPQ.DelMin | src/Solver.java:23 | removes one node from the queue and returns it; that node compares at most equal to every node that was queued |
| SearchNodes.ChainProps | src/Solver.java:36-39 | the back-link path of a linked node has mcount nodes; the first is the node itself, each node's prev is the next, and the last is the root, with no prev and the initial board; every node on it is linked, so its board is valid and one blank move from the next |
| SearchNodes.KeptMembers | src/Solver.java:27-31 | a neighbour is queued exactly when it is not the board of the parent of the node being expanded |
| SearchNodes.KeptNonEmpty | src/Solver.java:27-31 | of two different neighbours at least one is queued, so an expansion never leaves the queue as it was |
| SearchNodes.NewChild | src/Solver.java:29 | a child made from a neighbour of the current node, with mcount one more, is linked into the search tree |
| Solvers.Solver.Create | src/Solver.java:15-40 | fails with Unsolvable exactly when the board fails the parity test; on success the solver is in the solved state for that board; a board that is already the goal always succeeds |
| Solvers.Solver.constructor | src/Solver.java:20-24 | the root node of the initial board, with no parent, is inserted and taken back out; the queue is then empty; the frontier invariant holds with count 1 |
| Solvers.Solver.Search | src/Solver.java:26-35 | keeps the frontier invariant; reports success exactly when the current node's board is the goal |
| Solvers.Solver.TakeBest | src/Solver.java:33-34 | the new current node was queued and compares at most equal to every queued node; the queue afterwards is the old one less that node, as a multiset; count becomes its mcount; the result is the goal test on its board |
| Solvers.Solver.Expand | src/Solver.java:27-32 | the queue grows, keeps its old nodes in front, and gains children of the current node with mcount one more, in the order of the neighbours, for exactly the neighbours other than the parent's board |
| Solvers.Solver.EnqueueAll | src/Solver.java:27-32 | the for loop: the nodes added are the children of the neighbour boards other than the parent's board, in order |
| Solvers.Solver.Offer | src/Solver.java:28-31 | one neighbour: a child is queued exactly when the node has no parent or the neighbour differs from the parent's board |
| Solvers.Solver.Enqueue | src/Solver.java:29-30 | a child of the current node for the neighbour, with mcount one more, goes to the end of the queue |
| Solvers.Solver.WalkBack | src/Solver.java:36-39 | solution holds the boards of the back-link path from the goal node to the root, in that order |
| Solvers.Solver.Moves | src/Solver.java:71-73 | the solution length minus one, the goal node's mcount minus one; zero exactly when the initial board is the goal |
| Solvers.Solver.Solution | src/Solver.java:76-78 | the path as written: the goal board first, the initial board last, each board one blank move from the next |
| Solvers.SolutionStartsAtGoal | src/Solver.java:36-39 | when at least one move is needed, the first board of solution() is the goal and not the initial board |
| Solvers.Solver.SolutionFromStart | src/Solver.java:76-78 | the corrected order: the initial board first, the goal last, each board one blank move after the one before |
| Solvers.PathReversed | src/Solver.java:36-39 | a path of single moves read backwards is again a path of single moves |

## Left out

- `toString` and both `main` methods: text formatting and console I/O.
- `Math.sqrt` in the private copy constructor. `Boards.Board.CopyOf` takes the side as a parameter.
- The internals of `edu.princeton.cs.algs4.MinPQ`, which is not part of this model:
  - `SearchNodes.MinPQ` is a sequence used as a bag;
  - `DelMin` may return any node of least priority, so tie-breaking is not modelled.
- Equality between objects:
  - the reflection and null tests of `equals` are left out: `Boards.Board.Equals` compares the two arrays;
  - the `initial == null` test in the solver's constructor is left out, because Dafny references here are non-null.
- Termination and optimality of A*:
  - `Solvers.Solver.Search` runs at most `fuel` expansions;
  - the `OutOfFuel` error exists only in the model;
  - whether the path found is shortest is not stated.
- Integers are unbounded throughout; Java's 32-bit `int` wrap-around is not modelled. Each affected member is listed below with the board size where the wrap starts.
- `Boards.Board.Manhattan`: the model's sum is the true one, but Java's `manhat` wraps once the sum passes 2^31-1. The reversed 1291x1291 board has a Manhattan sum of 2,150,017,200, so the results can differ from n = 1291 on. Such a board needs about 6.7 MB of ints, so it fits in memory.
- `SearchNodes.SearchNode.constructor`: `manhattan` and `priority = mcount + manhattan` inherit that wrap from the same size on.
- `SearchNodes.SearchNode.CompareTo`: `p1 - p2` cannot overflow while both priorities are non-negative `int`s. It can overflow only once a priority itself has wrapped.
- `Boards.Board.CountInversions`: the inversion count can pass 2^31-1 from n = 257 on. The largest count there is 2,181,136,128. A 32-bit wrap subtracts a multiple of 2^32, which keeps the parity, so `Boards.Board.IsSolvable` gives Java's answer at every size.
- `Boards.Board.constructor`: requires a first row and at least as many rows as columns. Otherwise the Java loops throw `ArrayIndexOutOfBoundsException`, and that error path is not modelled. Ragged arrays are not modelled: a `array2` is rectangular.
- `Boards.Board.Hamming`, `Boards.Board.Manhattan`, `Boards.Board.IsSolvable` and `Boards.Board.BlankRow`: these require a valid board, meaning a side of at least 2 and cells that are a permutation of 0 .. n*n-1. The results on other arrays are not stated.
- The solver requires a valid initial board. A board with no blank would make `neighbors()` return null and the Java for loop throw; the model does not reach that case.
- The search loop is split into helper methods. `Solvers.Solver.Create` stands for the whole Java constructor, including its exception for an unsolvable board.

## Findings

| source | as written | input that shows it | evidently intended | confidence | as-written member | corrected member |
|---|---|---|---|---|---|---|
| src/Board.java:43-48 | the range check rejects only `row > n` and `col > n` | on a 3x3 board, `tileAt(0, 3)` passes the check and returns the tile at (1, 0); `tileAt(3, 0)` passes and then indexes past the end of the array | reject `row >= n` and `col >= n` | not executed | Boards.TileAtColumnWraps | Boards.Board.TileAtChecked |
| src/Solver.java:36-39, 76-78 | the walk back adds the goal first and the queue is returned as it is | any board one move from the goal, such as [[1,2,3],[4,5,6],[7,0,8]]: `solution()` yields the goal, then the initial board | the initial board first and the goal last, a sequence of moves from the start | not executed | Solvers.SolutionStartsAtGoal | Solvers.Solver.SolutionFromStart |
