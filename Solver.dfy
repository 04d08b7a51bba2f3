/** The Solver class of src/Solver.java: A* search over boards with the
    Manhattan priority, then a walk back along the prev links of the goal
    node. */
module Solvers {
  import opened Wrappers
  import opened Puzzle
  import opened Boards
  import opened SearchNodes

  datatype SolverError =
    | Unsolvable  // the exception the Java constructor throws for an unsolvable board
    | OutOfFuel   // the search was cut off before it reached the goal

  /** The reversal of a sequence. */
  function Reversed<T>(xs: seq<T>): (r: seq<T>)
    ensures |r| == |xs|
    ensures forall i :: 0 <= i < |xs| ==> r[i] == xs[|xs| - 1 - i]
  {
    if xs == [] then [] else Reversed(xs[1..]) + [xs[0]]
  }

  class Solver {
    const minPQ: MinPQ
    var node: SearchNode?
    var next: SearchNode?
    var count: int
    var solution: seq<Board>

    /** The initial board's cells and side. */
    ghost const init: seq<int>
    ghost const side: nat
    /** The goal node the path in solution was read from. */
    ghost var goal: SearchNode?
    /** The arrays of every board wrapped in a search node so far; the
        search writes none of them. */
    ghost var frozen: set<array<int>>

    /** The search frontier invariant, on this solver's fields. */
    ghost predicate Searching()
      reads this`node, this`count, this`frozen, minPQ`items, frozen
    {
      Frontier(node, count, minPQ.items, frozen, init, side)
    }

    /** The state the constructor leaves: solution holds the boards on the
        path from the goal node back to the root. */
    ghost predicate Solved()
      reads this
      reads if goal == null then {} else ChainArrays(goal)
    {
      && goal != null
      && Linked(goal, init, side) && Current(goal)
      && IsGoalBoard(goal.tiles)
      && (IsGoalBoard(init) ==> goal.prev == null)
      && |solution| == |Chain(goal)|
      && (forall k :: 0 <= k < |solution| ==> solution[k] == Chain(goal)[k].board)
      && node == null
    }

    /** The whole constructor: rejects an unsolvable board, otherwise
        searches with at most fuel expansions and walks back from the
        goal. */
    static method Create(initial: Board, fuel: nat) returns (r: Result<Solver, SolverError>)
      requires initial.Valid()
      ensures r.Failure? && r.error == Unsolvable <==> !Solvable(initial.board[..], initial.n)
      ensures r.Success? ==>
                && fresh(r.value) && r.value.Solved()
                && r.value.init == initial.board[..] && r.value.side == initial.n
      ensures IsGoalBoard(initial.board[..]) ==> r.Success?
    {
      if IsGoalBoard(initial.board[..]) {
        GoalIsSolvedBoard(initial.board[..]);
        GoalIsSolvable(initial.n);
      }
      var solvable := initial.IsSolvable();
      if !solvable {
        return Failure(Unsolvable);
      }
      var s := new Solver(initial);
      var found := s.Search(fuel);
      if !found {
        return Failure(OutOfFuel);
      }
      s.WalkBack();
      return Success(s);
    }

    /** The root node for the initial board goes into a fresh queue and is
        taken straight back out. */
    constructor (initial: Board)
      requires initial.Valid()
      ensures init == initial.board[..] && side == initial.n
      ensures fresh(minPQ) && minPQ.items == []
      ensures node != null && node.board == initial && node.prev == null
      ensures solution == [] && goal == null
      ensures Searching()
    {
      init := initial.board[..];
      side := initial.n;
      solution := [];
      goal := null;
      frozen := {initial.board};
      minPQ := new MinPQ();
      count := 0;
      next := null;
      node := new SearchNode(initial, null, 0);
      new;
      assert Chain(node) == [node];
      minPQ.Insert(node);
      node := minPQ.DelMin();
      count := count + 1;
    }

    /** Expands the current node and takes the best queued node, until the
        current node is the goal or fuel runs out. */
    method Search(fuel: nat) returns (found: bool)
      requires Searching()
      modifies this`node, this`count, this`next, this`frozen, minPQ`items
      ensures Searching()
      ensures found <==> IsGoalBoard(node.tiles)
    {
      CurrentHere(node);
      var goalReached := node.board.IsGoal();
      var f := fuel;
      while !goalReached && f > 0
        invariant Searching()
        invariant goalReached <==> IsGoalBoard(node.tiles)
        decreases f
      {
        assert !IsGoalBoard(init);
        Expand();
        goalReached := TakeBest();
        f := f - 1;
      }
      found := goalReached;
    }

    /** The end of the search loop's body and the loop test: the best
        queued node becomes the current node, count takes its move count,
        and the result tells whether its board is the goal. */
    method TakeBest() returns (reached: bool)
      requires minPQ.items != [] && !IsGoalBoard(init)
      requires forall x :: x in minPQ.items ==> Linked(x, init, side) && Held(x, frozen)
      modifies this`node, this`count, minPQ`items
      ensures Searching()
      ensures node in old(minPQ.items)
      ensures forall x :: x in old(minPQ.items) ==> node.CompareTo(x) <= 0
      ensures multiset(minPQ.items) + multiset{node} == multiset(old(minPQ.items))
      ensures reached <==> IsGoalBoard(node.tiles)
    {
      ghost var queued := minPQ.items;
      node := minPQ.DelMin();
      count := node.mcount;
      FrontierTake(node, minPQ.items, queued, frozen, init, side);
      reached := node.board.IsGoal();
    }

    /** The body of the search loop: queues, in the order neighbors()
        returns them, a child node for every neighbour of the current board
        except the board of the current node's parent. */
    method Expand()
      requires Searching()
      modifies this`next, this`frozen, minPQ`items
      ensures Searching()
      ensures |minPQ.items| > |old(minPQ.items)|
      ensures minPQ.items[..|old(minPQ.items)|] == old(minPQ.items)
      ensures TilesOf(minPQ.items[|old(minPQ.items)|..]) == Kept(NeighborTiles(node.tiles, side), node)
      ensures forall x :: x in minPQ.items[|old(minPQ.items)|..] ==>
                x.prev == node && x.mcount == node.mcount + 1
    {
      ghost var s := node.tiles;
      ghost var n := side;
      ghost var before := minPQ.items;
      assert 0 in s by { NeighborsAreDistinct(s, n); }
      ghost var nts := NeighborTiles(s, n);
      assert |nts| >= 2 && nts[0] != nts[1] by {
        NeighborCount(s, n);
        NeighborsAreDistinct(s, n);
      }
      CurrentHere(node);
      var neighbors := node.board.Neighbors();
      assert forall j :: 0 <= j < |nts| ==> nts[j] in nts;
      EnqueueAll(neighbors.value, nts);
      KeptNonEmpty(nts, node);
    }

    /** The for loop over neighbors(): a child for each board of ns, in
        order, unless it equals the board of the current node's parent. */
    method EnqueueAll(ns: seq<Board>, ghost nts: seq<seq<int>>)
      requires Searching()
      requires |ns| == |nts|
      requires forall j :: 0 <= j < |ns| ==>
                 ns[j].n == side && ns[j].Valid() && ns[j].board[..] == nts[j]
      requires forall j :: 0 <= j < |ns| ==> IsNeighbor(nts[j], node.tiles, side)
      modifies this`next, this`frozen, minPQ`items
      ensures Searching()
      ensures |minPQ.items| >= |old(minPQ.items)|
      ensures minPQ.items[..|old(minPQ.items)|] == old(minPQ.items)
      ensures TilesOf(minPQ.items[|old(minPQ.items)|..]) == Kept(nts, node)
      ensures forall x :: x in minPQ.items[|old(minPQ.items)|..] ==>
                x.prev == node && x.mcount == node.mcount + 1
    {
      ghost var before := minPQ.items;
      ghost var added: seq<SearchNode> := [];
      var i := 0;
      while i < |ns|
        invariant 0 <= i <= |ns|
        invariant minPQ.items == before + added
        invariant TilesOf(added) == Kept(nts[..i], node)
        invariant forall x :: x in added ==> x.prev == node && x.mcount == node.mcount + 1
        invariant Searching()
      {
        ghost var queued := Offer(ns[i], nts[i]);
        KeptStep(added, queued, nts[..i], nts[i], node);
        PrefixSnoc(nts, i);
        added := added + queued;
        i := i + 1;
      }
      assert nts[..i] == nts;
      assert minPQ.items[|before|..] == added;
    }

    /** The test in the for loop's body: a child for the neighbour board t
        goes into the queue unless t is the board of the current node's
        parent. */
    method Offer(neighbor: Board, ghost t: seq<int>) returns (ghost queued: seq<SearchNode>)
      requires Searching()
      requires neighbor.n == side && neighbor.Valid() && neighbor.board[..] == t
      requires IsNeighbor(t, node.tiles, side)
      modifies this`next, this`frozen, minPQ`items
      ensures Searching()
      ensures minPQ.items == old(minPQ.items) + queued
      ensures TilesOf(queued) == if node.prev == null || t != node.prev.tiles then [t] else []
      ensures forall x :: x in queued ==> x.prev == node && x.mcount == node.mcount + 1
    {
      if node.prev != null {
        CurrentPrev(node, init, side);
        CurrentHere(node.prev);
      }
      if node.prev == null || !neighbor.Equals(node.prev.board) {
        Enqueue(neighbor);
        queued := [next];
      } else {
        queued := [];
      }
    }

    /** One turn of the inner loop: a child of the current node for the
        neighbour board goes into the queue. */
    method Enqueue(neighbor: Board)
      requires Searching()
      requires neighbor.Valid() && neighbor.n == side
      requires IsNeighbor(neighbor.board[..], node.tiles, side)
      modifies this`next, this`frozen, minPQ`items
      ensures Searching()
      ensures next != null && minPQ.items == old(minPQ.items) + [next]
      ensures next.prev == node && next.mcount == node.mcount + 1
      ensures next.board == neighbor && next.tiles == neighbor.board[..]
    {
      ghost var before := frozen;
      next := new SearchNode(neighbor, node, count);
      frozen := frozen + {neighbor.board};
      FrontierGrows(node, count, minPQ.items, before, frozen, init, side);
      NewChild(next, node, init, side, frozen);
      FrontierPush(node, count, minPQ.items, next, frozen, init, side);
      minPQ.Insert(next);
    }

    /** Follows prev from the goal node to the root, adding each board to
        solution. */
    method WalkBack()
      requires Searching() && IsGoalBoard(node.tiles)
      requires solution == []
      modifies this`node, this`solution, this`goal
      ensures Solved()
    {
      FrontierPath(node, count, minPQ.items, frozen, init, side);
      ghost var g := node;
      ghost var c := Chain(g);
      goal := g;
      while node != null
        invariant goal == g && |solution| <= |c|
        invariant node == if |solution| < |c| then c[|solution|] else null
        invariant forall k :: 0 <= k < |solution| ==> solution[k] == c[k].board
        decreases |c| - |solution|
      {
        solution := solution + [node.board];
        node := node.prev;
      }
    }

    /** moves(): the number of moves on the path found, one less than the
        number of boards on it; zero exactly when the initial board is the
        goal. */
    function Moves(): (m: int)
      requires Solved()
      reads this
      reads if goal == null then {} else ChainArrays(goal)
      ensures m + 1 == goal.mcount
      ensures m >= 0
      ensures m == 0 <==> IsGoalBoard(init)
    {
      ChainProps(goal, init, side);
      |solution| - 1
    }

    /** solution(): the boards of the path in the order the walk back added
        them, the goal first and the initial board last, each board one
        blank move away from the board after it. */
    function Solution(): (r: seq<Board>)
      requires Solved()
      reads this
      reads if goal == null then {} else ChainArrays(goal)
      ensures |r| == Moves() + 1
      ensures forall k :: 0 <= k < |r| ==> r[k].n == side && r[k].Valid()
      ensures IsGoalBoard(r[0].board[..])
      ensures r[|r| - 1].board[..] == init
      ensures forall k :: 0 <= k < |r| - 1 ==> IsNeighbor(r[k].board[..], r[k + 1].board[..], side)
    {
      ChainProps(goal, init, side);
      solution
    }

    /** The path in the order the method's comment promises: the initial
        board first, the goal last, each board one blank move before the
        next. */
    function SolutionFromStart(): (r: seq<Board>)
      requires Solved()
      reads this
      reads if goal == null then {} else ChainArrays(goal)
      ensures |r| == Moves() + 1
      ensures forall k :: 0 <= k < |r| ==> r[k].n == side && r[k].Valid()
      ensures r[0].board[..] == init
      ensures IsGoalBoard(r[|r| - 1].board[..])
      ensures forall k :: 0 < k < |r| ==> IsNeighbor(r[k].board[..], r[k - 1].board[..], side)
    {
      PathReversed(Solution(), side);
      Reversed(Solution())
    }
  }

  /** Read backwards, a path of single moves is again a path of single
      moves. */
  lemma {:induction false} PathReversed(c: seq<Board>, n: nat)
    requires forall k :: 0 <= k < |c| ==> c[k].Valid()
    requires forall k :: 0 <= k < |c| - 1 ==> IsNeighbor(c[k].board[..], c[k + 1].board[..], n)
    ensures forall k :: 0 < k < |c| ==>
              IsNeighbor(Reversed(c)[k].board[..], Reversed(c)[k - 1].board[..], n)
  {
    var r := Reversed(c);
    forall k | 0 < k < |r|
      ensures IsNeighbor(r[k].board[..], r[k - 1].board[..], n)
    {
      var i := |c| - 1 - k;
      assert r[k - 1] == c[i + 1] && r[k] == c[i];
      StepReversed(c[i], c[i + 1], n);
    }
  }

  /** One step of such a path, undone. */
  lemma StepReversed(a: Board, b: Board, n: nat)
    requires b.Valid() && IsNeighbor(a.board[..], b.board[..], n)
    ensures IsNeighbor(b.board[..], a.board[..], n)
  {
    MoveIsReversible(b.board[..], n, a.board[..]);
  }

  /** As written, solution() does not start at the initial board whenever
      at least one move is needed: its first board is the goal. */
  lemma SolutionStartsAtGoal(sv: Solver)
    requires sv.Solved() && sv.Moves() >= 1
    ensures sv.Solution()[0].board[..] != sv.init
    ensures IsGoalBoard(sv.Solution()[0].board[..]) && !IsGoalBoard(sv.init)
  {
  }
}
