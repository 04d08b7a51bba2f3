/** The Board class of src/Board.java: an n-by-n sliding-tile board kept as
    a flat row-major int array, with 0 for the blank. Every method is proved
    against the matching function of module Puzzle. */
module Boards {
  import opened Wrappers
  import opened Puzzle

  /** The two ways tileAt fails: its own range check (an
      IllegalArgumentException) and the array access behind it (an
      ArrayIndexOutOfBoundsException). */
  datatype TileError = BeyondRange | IndexOutOfBounds

  /** Java's / on int: the quotient is truncated toward zero. */
  function JavaQuot(a: int, b: int): int
    requires b > 0
  {
    if a >= 0 then a / b else -((-a) / b)
  }

  /** Java's % on int: the remainder takes the sign of the dividend, is
      smaller than the divisor in magnitude, and completes Java's quotient
      to the dividend. */
  function JavaRem(a: int, b: int): (r: int)
    requires b > 0
    ensures a >= 0 ==> 0 <= r < b
    ensures a < 0 ==> -b < r <= 0
    ensures JavaQuot(a, b) * b + r == a
  {
    if a >= 0 then a % b else -((-a) % b)
  }

  /** The parity test of isSolvable on an even board: Java's
      (x - 1) % 2 == 0 holds exactly when x is odd, also for x == 0 where
      x - 1 is negative. */
  lemma JavaEvenTest(x: int)
    requires x >= 0
    ensures JavaRem(x - 1, 2) == 0 <==> x % 2 == 1
  {
  }

  /** On an odd board the Java test, an even inversion count, is Solvable. */
  lemma OddBoardTest(s: seq<int>, n: int)
    requires n >= 1 && n % 2 != 0
    ensures JavaRem(Inversions(s), 2) == 0 <==> Solvable(s, n)
  {
  }

  /** On an even board the Java test, (inversions + blank row - 1) even,
      is Solvable. */
  lemma EvenBoardTest(s: seq<int>, n: int, zerow: int)
    requires n >= 1 && n % 2 == 0 && zerow == Blank(s) / n && 0 <= zerow
    ensures JavaRem(Inversions(s) + zerow - 1, 2) == 0 <==> Solvable(s, n)
  {
    JavaEvenTest(Inversions(s) + zerow);
  }

  class Board {
    const n: nat
    const board: array<int>

    /** The array holds the n*n cells of the board. */
    predicate Shaped()
    {
      board.Length == n * n
    }

    /** The board invariant the solver relies on: side at least 2 and the
        cells a permutation of 0 .. n*n-1. */
    ghost predicate Valid()
      reads board
    {
      n >= 2 && Shaped() && IsPermutation(board[..])
    }

    /** Flattens the grid: tiles[i, j] goes to cell i*n + j, where n is the
        length of the first row. */
    constructor (tiles: array2<int>)
      requires 1 <= tiles.Length0 && tiles.Length1 <= tiles.Length0
      ensures n == tiles.Length1 && Shaped() && fresh(board)
      ensures forall i, j :: 0 <= i < n && 0 <= j < n ==> board[Cell(i, j, n)] == tiles[i, j]
    {
      var side := tiles.Length1;
      n := side;
      board := new int[side * side];
      new;
      var i := 0;
      while i < side
        invariant 0 <= i <= side
        invariant forall a, b :: 0 <= a < i && 0 <= b < side ==> board[Cell(a, b, side)] == tiles[a, b]
      {
        var j := 0;
        while j < side
          invariant 0 <= j <= side
          invariant forall a, b :: 0 <= a < i && 0 <= b < side ==> board[Cell(a, b, side)] == tiles[a, b]
          invariant forall b :: 0 <= b < j ==> board[Cell(i, b, side)] == tiles[i, b]
        {
          board[Cell(i, j, side)] := tiles[i, j];
          j := j + 1;
        }
        i := i + 1;
      }
    }

    /** The private copy constructor: a fresh array with the same cells. The
        side is passed in rather than recomputed with Math.sqrt. */
    constructor CopyOf(src: array<int>, side: nat)
      ensures n == side && fresh(board) && board[..] == src[..]
    {
      n := side;
      board := new int[src.Length];
      new;
      var i := 0;
      while i < src.Length
        invariant 0 <= i <= src.Length
        invariant board[..i] == src[..i]
      {
        board[i] := src[i];
        i := i + 1;
      }
    }

    /** tileAt as written: the range check lets row == n and col == n
        through, and the array access behind it then either reads another
        cell or fails. */
    function TileAt(row: int, col: int): (r: Result<int, TileError>)
      requires Shaped()
      reads board
      ensures r == Failure(BeyondRange) <==> row < 0 || row > n || col < 0 || col > n
      ensures r == Failure(IndexOutOfBounds) <==> 0 <= row <= n && 0 <= col <= n && row * n + col >= n * n
      ensures r.Success? ==> 0 <= row * n + col < n * n && r.value == board[row * n + col]
    {
      if row < 0 || row > n then Failure(BeyondRange)
      else if col < 0 || col > n then Failure(BeyondRange)
      else if row * n + col >= board.Length then Failure(IndexOutOfBounds)
      else Success(board[row * n + col])
    }

    /** tileAt with the range check it evidently means: row and col in
        [0, n). */
    function TileAtChecked(row: int, col: int): (r: Result<int, TileError>)
      requires Shaped()
      reads board
      ensures r.Success? <==> 0 <= row < n && 0 <= col < n
      ensures r.Failure? ==> r.error == BeyondRange
      ensures r.Success? ==> r.value == board[Cell(row, col, n)]
    {
      if row < 0 || row >= n || col < 0 || col >= n then Failure(BeyondRange)
      else Success(board[Cell(row, col, n)])
    }

    /** The dimension n: the array holds n*n cells. */
    function Size(): (r: nat)
      requires Shaped()
      ensures r * r == board.Length
    {
      n
    }

    /** Number of tiles out of place. */
    method Hamming() returns (c: int)
      requires Valid()
      ensures c == HammingOf(board[..])
      ensures 0 <= c <= n * n - 1
    {
      c := 0;
      var i := 0;
      while i < n * n
        invariant 0 <= i <= n * n
        invariant c == HammingUpTo(board[..], i)
      {
        if board[i] != i + 1 && board[i] != 0 {
          c := c + 1;
        }
        i := i + 1;
      }
      HammingBounds(board[..]);
    }

    /** Sum of the Manhattan distances of the tiles to their goal cells.
        Every tile counted is at least 1 and every index non-negative, so
        Dafny's / and % agree with Java's here. */
    method Manhattan() returns (manhat: int)
      requires Valid()
      ensures manhat == ManhattanOf(board[..], n)
      ensures manhat >= HammingOf(board[..])
    {
      manhat := 0;
      var i := 0;
      while i < n * n
        invariant 0 <= i <= n * n
        invariant manhat == ManhattanUpTo(board[..], i, n)
      {
        if board[i] != i + 1 && board[i] != 0 {
          var r := Abs((board[i] - 1) / n - i / n);
          var c := Abs((board[i] - 1) % n - i % n);
          manhat := manhat + (r + c);
        }
        i := i + 1;
      }
      ManhattanAtLeastHamming(board[..], n);
    }

    /** The goal test: scans the first n*n - 1 cells and stops at the first
        one that does not hold its index plus one. */
    method IsGoal() returns (r: bool)
      requires Shaped()
      ensures r == IsGoalBoard(board[..])
    {
      var i := 0;
      while i < n * n - 1
        invariant 0 <= i && (i <= n * n - 1 || i == 0)
        invariant forall k :: 0 <= k < i ==> board[k] == k + 1
      {
        if board[i] != i + 1 {
          return false;
        }
        i := i + 1;
      }
      return true;
    }

    /** Board equality compares the two arrays cell by cell. */
    function Equals(other: Board): (r: bool)
      reads board, other.board
      ensures r <==> board[..] == other.board[..]
    {
      board.Length == other.board.Length
      && forall i :: 0 <= i < board.Length ==> board[i] == other.board[i]
    }

    /** Swaps two cells of brd's array in place and hands brd back. */
    method Exchange(brd: Board, a: int, b: int) returns (r: Board)
      requires 0 <= a < brd.board.Length && 0 <= b < brd.board.Length
      modifies brd.board
      ensures r == brd
      ensures brd.board[..] == Swap(old(brd.board[..]), a, b)
    {
      var tmp := brd.board[a];
      brd.board[a] := brd.board[b];
      brd.board[b] := tmp;
      return brd;
    }

    /** The boards one blank move away, up, down, left, right, each a fresh
        copy; None (Java's null) when the board has no blank. The receiver
        is not changed: the method has no modifies clause. */
    method Neighbors() returns (r: Option<seq<Board>>)
      requires Shaped()
      ensures r.None? <==> 0 !in board[..]
      ensures r.Some? ==> n >= 1 && 0 in board[..]
      ensures r.Some? ==>
                var ns := NeighborTiles(board[..], n);
                && |r.value| == |ns|
                && forall m :: 0 <= m < |r.value| ==>
                     && fresh(r.value[m]) && fresh(r.value[m].board)
                     && r.value[m].n == n && r.value[m].Shaped()
                     && r.value[m].board[..] == ns[m]
                     && (Valid() ==> r.value[m].Valid())
    {
      ghost var s := board[..];
      var search, index := FindBlank();
      if !search {
        return None;
      }
      var q := SwappedCopies(index);
      ghost var ns := NeighborTiles(s, n);
      assert forall m :: 0 <= m < |q| ==> q[m].board[..] == ns[m];
      if Valid() {
        NeighborsArePermutations(s, n);
        forall m | 0 <= m < |q|
          ensures q[m].Valid()
        {
          assert ns[m] in ns;
        }
      }
      return Some(q);
    }

    /** The search loop of neighbors(): the first cell holding 0, if any. */
    method FindBlank() returns (search: bool, index: int)
      requires Shaped()
      ensures search <==> 0 in board[..]
      ensures search ==> n >= 1 && 0 <= index < n * n && index == Blank(board[..])
    {
      ghost var s := board[..];
      index := 0;
      search := false;
      var i := 0;
      while i < board.Length
        invariant 0 <= i <= board.Length
        invariant forall j :: 0 <= j < i ==> board[j] != 0
      {
        if board[i] == 0 {
          index := i;
          search := true;
          break;
        }
        i := i + 1;
      }
      BlankIsFirstZero(s);
      if search {
        assert index == Blank(s);
      }
    }

    /** The four guarded exchanges of neighbors(), in the order up, down,
        left, right: fresh copies of this board with the blank at index
        swapped into each cell it can move to. */
    method SwappedCopies(index: int) returns (q: seq<Board>)
      requires Shaped() && n >= 1 && 0 <= index < n * n
      ensures Moved(q, MoveTargets(index, n), board[..], index)
      ensures forall b :: b in q ==> fresh(b) && fresh(b.board)
    {
      q := [];
      q := AddMove(q, [], Toward(index, n, Up), index, Up);
      q := AddMove(q, Toward(index, n, Up), Toward(index, n, Up) + Toward(index, n, Down), index, Down);
      q := AddMove(q, Toward(index, n, Up) + Toward(index, n, Down),
                   Toward(index, n, Up) + Toward(index, n, Down) + Toward(index, n, Left), index, Left);
      q := AddMove(q, Toward(index, n, Up) + Toward(index, n, Down) + Toward(index, n, Left),
                   MoveTargets(index, n), index, Right);
    }

    /** One guarded exchange of neighbors(): when the blank at k can move in
        direction d, appends to q a fresh copy of this board with the blank
        moved. */
    method AddMove(q: seq<Board>, ghost ts: seq<int>, ghost ts': seq<int>, k: int, d: Direction)
      returns (q': seq<Board>)
      requires Shaped() && n >= 1 && 0 <= k < n * n
      requires Moved(q, ts, board[..], k)
      requires ts' == ts + Toward(k, n, d)
      ensures |q'| >= |q| && q'[..|q|] == q
      ensures Moved(q', ts', board[..], k)
      ensures forall b :: b in q' ==> b in q || (fresh(b) && fresh(b.board))
    {
      var t := Toward(k, n, d);
      q' := q;
      if t != [] {
        var neighbor := SwappedCopy(k, t[0]);
        q' := q + [neighbor];
        assert q'[..|q|] == q;
      }
    }

    /** new Board(board) followed by exchange(neighbor, a, b): a fresh copy of
        this board with cells a and b swapped. */
    method SwappedCopy(a: int, b: int) returns (neighbor: Board)
      requires 0 <= a < board.Length && 0 <= b < board.Length
      ensures fresh(neighbor) && fresh(neighbor.board) && neighbor.n == n
      ensures neighbor.board[..] == Swap(board[..], a, b)
    {
      neighbor := new Board.CopyOf(board, n);
      neighbor := Exchange(neighbor, a, b);
    }

    /** Boards q[m] are fresh copies of s with the blank at k swapped with
        cell ts[m]. */
    ghost predicate Moved(q: seq<Board>, ts: seq<int>, s: seq<int>, k: int)
      reads set m | 0 <= m < |q| :: q[m].board
    {
      && |q| == |ts| && 0 <= k < |s| && |s| == n * n
      && forall m :: 0 <= m < |q| ==>
           && 0 <= ts[m] < |s|
           && q[m].n == n && q[m].board.Length == |s|
           && q[m].board[..] == Swap(s, k, ts[m])
    }

    /** The inversion count: pairs of cells i < j whose non-blank tiles are
        out of order (the loop shared by both branches of isSolvable). */
    method CountInversions() returns (inv: int)
      requires Shaped()
      ensures inv == Inversions(board[..])
    {
      inv := 0;
      var i := 0;
      while i < n * n
        invariant 0 <= i <= n * n
        invariant inv == InversionsUpTo(board[..], i)
      {
        if board[i] != 0 {
          var j := i + 1;
          while j < n * n
            invariant i + 1 <= j <= n * n
            invariant inv == InversionsUpTo(board[..], i) + SmallerAfter(board[..], i, j)
          {
            if board[i] > board[j] && board[j] != 0 {
              inv := inv + 1;
            }
            j := j + 1;
          }
        }
        i := i + 1;
      }
    }

    /** The row of the blank, counted from the top starting at 0. */
    method BlankRow() returns (zerow: int)
      requires Valid()
      ensures zerow == Blank(board[..]) / n
      ensures 0 <= zerow < n
    {
      ghost var s := board[..];
      BlankIsFirstZero(s);
      ghost var z := Blank(s);
      RowCol(z, n);
      assert z == Cell(z / n, z % n, n);
      zerow := 0;
      var i := 0;
      while i < n
        invariant 0 <= i <= n
        invariant 0 <= zerow < n
        invariant zerow == if z / n < i then z / n else 0
      {
        var j := 0;
        ghost var found := false;
        while j < n
          invariant 0 <= j <= n
          invariant 0 <= zerow < n
          invariant zerow == if z / n < i then z / n else 0
          invariant forall b :: 0 <= b < j ==> board[Cell(i, b, n)] != 0
        {
          if board[Cell(i, j, n)] == 0 {
            BlankIsUnique(s, Cell(i, j, n));
            zerow := i;
            found := true;
            break;
          }
          j := j + 1;
        }
        if !found {
          assert z / n != i;
        }
        i := i + 1;
      }
    }

    /** The inversion-parity solvability test. */
    method IsSolvable() returns (r: bool)
      requires Valid()
      ensures r == Solvable(board[..], n)
    {
      ghost var s := board[..];
      var inv := 0;
      var zerow := 0;
      if n % 2 != 0 {
        inv := CountInversions();
        OddBoardTest(s, n);
      }
      if n % 2 == 0 {
        inv := CountInversions();
        zerow := BlankRow();
        EvenBoardTest(s, n, zerow);
        inv := inv + zerow - 1;
      }
      r := JavaRem(inv, 2) == 0;
    }
  }

  /** Inside the board tileAt reads cell (row, col) like the corrected check. */
  lemma TileAtInside(b: Board, row: int, col: int)
    requires b.Shaped() && 0 <= row < b.n && 0 <= col < b.n
    ensures b.TileAt(row, col) == b.TileAtChecked(row, col)
  {
    assert Cell(row, col, b.n) == row * b.n + col;
  }

  /** The off-by-one: column n of a row other than the last passes the
      check and reads the first tile of the next row. */
  lemma TileAtColumnWraps(b: Board, row: int)
    requires b.Shaped() && 0 <= row < b.n - 1
    ensures b.TileAt(row, b.n).Success?
    ensures b.TileAt(row, b.n) == b.TileAt(row + 1, 0)
    ensures b.TileAtChecked(row, b.n) == Failure(BeyondRange)
  {
    var n := b.n;
    assert row * n + n == (row + 1) * n;
    IndexBound(row + 1, 0, n);
  }

  /** Row n, and column n of the last row, pass the check and then run off
      the end of the array. */
  lemma TileAtPastEnd(b: Board, col: int)
    requires b.Shaped() && b.n >= 1 && 0 <= col <= b.n
    ensures b.TileAt(b.n, col) == Failure(IndexOutOfBounds)
    ensures b.TileAt(b.n - 1, b.n) == Failure(IndexOutOfBounds)
  {
    var n := b.n;
    assert (n - 1) * n + n == n * n;
  }
}
