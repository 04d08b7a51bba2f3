/** The SearchNode inner class of src/Solver.java, the search tree its
    prev links form, and the priority queue the solver keeps them in. */
module SearchNodes {
  import opened Puzzle
  import opened Boards

  /** A search node: a board, the node it was reached from, the number of
      boards on the path up to and including it, and its priority. The ghost
      tiles record the board's cells when the node was made. */
  class SearchNode {
    const board: Board
    const prev: SearchNode?
    const mcount: int
    const manhattan: int
    const priority: int
    ghost const tiles: seq<int>
    /** The nodes reached by following prev, nearest first. */
    ghost const ancestors: seq<SearchNode>

    constructor (current: Board, p: SearchNode?, moves: int)
      requires current.Valid()
      ensures board == current && prev == p && tiles == current.board[..]
      ensures ancestors == if p == null then [] else [p] + p.ancestors
      ensures mcount == moves + 1
      ensures manhattan == ManhattanOf(current.board[..], current.n)
      ensures priority == mcount + manhattan
    {
      board := current;
      prev := p;
      tiles := current.board[..];
      ancestors := if p == null then [] else [p] + p.ancestors;
      var m := current.Manhattan();
      manhattan := m;
      mcount := moves + 1;
      priority := moves + 1 + m;
    }

    /** The order of the priority queue: negative, zero or positive as this
        node's priority is below, equal to or above that of o. */
    function CompareTo(o: SearchNode): (r: int)
      ensures r < 0 <==> priority < o.priority
      ensures r == 0 <==> priority == o.priority
      ensures r > 0 <==> priority > o.priority
    {
      priority - o.priority
    }
  }

  /** The nodes on the path from nd back to the root, nd first. */
  ghost function Chain(nd: SearchNode): seq<SearchNode>
  {
    [nd] + nd.ancestors
  }

  /** The arrays of the boards on the path from nd back to the root. */
  ghost function ChainArrays(nd: SearchNode): set<array<int>>
  {
    set k | 0 <= k < |Chain(nd)| :: Chain(nd)[k].board.board
  }

  /** The search-tree invariant of a node: its tiles are a valid n-by-n
      board, its priority is its move count plus its Manhattan distance, and
      following prev leads, one blank move at a time, back to the root, the
      node of the initial board init with move count 1. */
  ghost predicate Linked(nd: SearchNode, init: seq<int>, n: nat)
    decreases nd.mcount
  {
    && nd.mcount >= 1
    && n >= 2 && nd.board.n == n && nd.board.Shaped()
    && |nd.tiles| == n * n && IsPermutation(nd.tiles)
    && nd.manhattan == ManhattanOf(nd.tiles, n)
    && nd.priority == nd.mcount + nd.manhattan
    && (nd.prev == null ==> nd.mcount == 1 && nd.tiles == init && nd.ancestors == [])
    && (nd.prev != null ==>
          && nd.prev.mcount == nd.mcount - 1
          && nd.ancestors == [nd.prev] + nd.prev.ancestors
          && Linked(nd.prev, init, n)
          && IsNeighbor(nd.tiles, nd.prev.tiles, n))
  }

  /** No board on the path from nd has changed since its node was made. */
  ghost predicate Current(nd: SearchNode)
    reads ChainArrays(nd)
  {
    forall k :: 0 <= k < |Chain(nd)| ==> Chain(nd)[k].board.board[..] == Chain(nd)[k].tiles
  }

  /** The arrays of nd's path are among frozen and still hold the recorded
      tiles. */
  ghost predicate Held(nd: SearchNode, frozen: set<array<int>>)
    reads frozen
  {
    ChainArrays(nd) <= frozen && Current(nd)
  }

  /** Held survives more arrays joining frozen. */
  lemma HeldGrows(nd: SearchNode, frozen: set<array<int>>, more: set<array<int>>)
    requires Held(nd, frozen) && frozen <= more
    ensures Held(nd, more)
  {
  }

  /** A child's path arrays are its own board's array and its parent's. */
  lemma ChildArrays(nd: SearchNode)
    requires nd.prev != null && nd.ancestors == [nd.prev] + nd.prev.ancestors
    ensures ChainArrays(nd) == {nd.board.board} + ChainArrays(nd.prev)
  {
    var c, d := Chain(nd), Chain(nd.prev);
    assert c == [nd] + d;
    assert c[0].board.board == nd.board.board;
    forall a | a in ChainArrays(nd)
      ensures a in {nd.board.board} + ChainArrays(nd.prev)
    {
      var k :| 0 <= k < |c| && a == c[k].board.board;
      if k > 0 {
        assert c[k] == d[k - 1];
      }
    }
    forall a | a in ChainArrays(nd.prev)
      ensures a in ChainArrays(nd)
    {
      var k :| 0 <= k < |d| && a == d[k].board.board;
      assert c[k + 1] == d[k];
    }
  }

  /** The path of a linked node: as many nodes as its move count, the node
      itself first, each node's prev the next one, and the root, holding the
      initial board, last. */
  lemma {:induction false} ChainProps(nd: SearchNode, init: seq<int>, n: nat)
    requires Linked(nd, init, n)
    ensures |Chain(nd)| == nd.mcount
    ensures Chain(nd)[0] == nd
    ensures Chain(nd)[|Chain(nd)| - 1].prev == null
    ensures Chain(nd)[|Chain(nd)| - 1].tiles == init
    ensures forall k :: 0 <= k < |Chain(nd)| ==> Linked(Chain(nd)[k], init, n)
    ensures forall k :: 0 <= k < |Chain(nd)| - 1 ==> Chain(nd)[k].prev == Chain(nd)[k + 1]
    decreases nd.mcount
  {
    if nd.prev != null {
      ChainProps(nd.prev, init, n);
      var c, d := Chain(nd), Chain(nd.prev);
      assert c == [nd] + d;
      forall k | 0 <= k < |c|
        ensures Linked(c[k], init, n)
      {
        if k > 0 {
          assert c[k] == d[k - 1];
        }
      }
      forall k | 0 <= k < |c| - 1
        ensures c[k].prev == c[k + 1]
      {
        if k > 0 {
          assert c[k] == d[k - 1] && c[k + 1] == d[k];
        }
      }
    }
  }

  /** The path of a node's parent is the node's path without its first
      node; so it stays current while the node's path does. */
  lemma {:induction false} CurrentPrev(nd: SearchNode, init: seq<int>, n: nat)
    requires Linked(nd, init, n) && nd.prev != null && Current(nd)
    ensures Current(nd.prev)
  {
    var c, d := Chain(nd), Chain(nd.prev);
    assert c == [nd] + d;
    forall k | 0 <= k < |d|
      ensures d[k].board.board[..] == d[k].tiles
    {
      assert d[k] == c[k + 1];
    }
  }

  /** A current node's own board still holds its recorded tiles. */
  lemma CurrentHere(nd: SearchNode)
    requires Current(nd)
    ensures nd.board.board[..] == nd.tiles
  {
    assert Chain(nd)[0] == nd;
  }

  /** A new node's path is current when its own board is unchanged and its
      parent's path is current. */
  lemma {:induction false} CurrentChild(nd: SearchNode, init: seq<int>, n: nat)
    requires Linked(nd, init, n) && nd.prev != null && Current(nd.prev)
    requires nd.board.board[..] == nd.tiles
    ensures Current(nd)
  {
    var c, d := Chain(nd), Chain(nd.prev);
    assert c == [nd] + d;
    forall k | 0 <= k < |c|
      ensures c[k].board.board[..] == c[k].tiles
    {
      if k > 0 {
        assert c[k] == d[k - 1];
      }
    }
  }

  /** The recorded tiles of each node of xs. */
  ghost function TilesOf(xs: seq<SearchNode>): (ts: seq<seq<int>>)
    ensures |ts| == |xs| && forall i :: 0 <= i < |xs| ==> ts[i] == xs[i].tiles
  {
    seq(|xs|, i requires 0 <= i < |xs| => xs[i].tiles)
  }

  /** The boards among ts that expanding parent queues: all of them but
      the board of parent's own parent. */
  ghost function Kept(ts: seq<seq<int>>, parent: SearchNode): seq<seq<int>>
  {
    if ts == [] then []
    else Kept(ts[..|ts| - 1], parent)
         + if parent.prev == null || ts[|ts| - 1] != parent.prev.tiles then [ts[|ts| - 1]] else []
  }

  /** One more element of xs is the previous prefix plus that element. */
  lemma PrefixSnoc<T>(xs: seq<T>, i: int)
    requires 0 <= i < |xs|
    ensures xs[..i + 1] == xs[..i] + [xs[i]]
  {
  }

  /** Kept takes the boards one at a time, from the front. */
  lemma {:induction false} KeptSnoc(ts: seq<seq<int>>, t: seq<int>, parent: SearchNode)
    ensures Kept(ts + [t], parent)
            == Kept(ts, parent) + if parent.prev == null || t != parent.prev.tiles then [t] else []
  {
    assert (ts + [t])[..|ts|] == ts;
  }

  /** The nodes queued for one more board extend those queued so far. */
  lemma KeptStep(added: seq<SearchNode>, queued: seq<SearchNode>, ts: seq<seq<int>>,
                 t: seq<int>, parent: SearchNode)
    requires TilesOf(added) == Kept(ts, parent)
    requires TilesOf(queued) == if parent.prev == null || t != parent.prev.tiles then [t] else []
    ensures TilesOf(added + queued) == Kept(ts + [t], parent)
  {
    KeptSnoc(ts, t, parent);
    assert TilesOf(added + queued) == TilesOf(added) + TilesOf(queued);
  }

  /** A board is queued exactly when it is among ts and is not the board of
      the parent's parent. */
  lemma {:induction false} KeptMembers(ts: seq<seq<int>>, parent: SearchNode, t: seq<int>)
    ensures t in Kept(ts, parent) <==> t in ts && (parent.prev == null || t != parent.prev.tiles)
  {
    if ts != [] {
      var us := ts[..|ts| - 1];
      KeptMembers(us, parent, t);
      assert ts == us + [ts[|ts| - 1]];
    }
  }

  /** Of two different boards at most one is the parent's parent's board, so
      expanding a node with at least two neighbours queues something. */
  lemma {:induction false} KeptNonEmpty(ts: seq<seq<int>>, parent: SearchNode)
    requires |ts| >= 2 && ts[0] != ts[1]
    ensures Kept(ts, parent) != []
  {
    if parent.prev == null || ts[0] != parent.prev.tiles {
      KeptMembers(ts, parent, ts[0]);
    } else {
      KeptMembers(ts, parent, ts[1]);
    }
  }

  /** xs[i] has the least priority in xs. */
  predicate IsMinAt(xs: seq<SearchNode>, i: int)
  {
    0 <= i < |xs| && forall j :: 0 <= j < |xs| ==> xs[i].priority <= xs[j].priority
  }

  /** In a non-empty list some node's priority is at most every other's. */
  lemma {:induction false} MinExists(xs: seq<SearchNode>)
    requires xs != []
    ensures exists i :: IsMinAt(xs, i)
  {
    if |xs| > 1 {
      var ys := xs[1..];
      MinExists(ys);
      var i :| IsMinAt(ys, i);
      var w := if xs[0].priority <= ys[i].priority then 0 else i + 1;
      forall j | 0 <= j < |xs|
        ensures xs[w].priority <= xs[j].priority
      {
        if j > 0 {
          assert xs[j] == ys[j - 1];
        }
      }
      assert IsMinAt(xs, w);
    } else {
      assert IsMinAt(xs, 0);
    }
  }

  /** The algs4 MinPQ as the solver uses it: a bag of search nodes ordered
      by CompareTo. */
  class MinPQ {
    var items: seq<SearchNode>

    constructor ()
      ensures items == []
    {
      items := [];
    }

    method Insert(x: SearchNode)
      modifies this`items
      ensures items == old(items) + [x]
    {
      items := items + [x];
    }

    /** Removes and returns a node that compares at most equal to every node
        in the queue. */
    method DelMin() returns (m: SearchNode)
      requires items != []
      modifies this`items
      ensures m in old(items)
      ensures forall x :: x in old(items) ==> m.CompareTo(x) <= 0
      ensures multiset(items) + multiset{m} == multiset(old(items))
      ensures forall x :: x in items ==> x in old(items)
    {
      MinExists(items);
      var i :| IsMinAt(items, i);
      m := items[i];
      assert items == items[..i] + [m] + items[i + 1..];
      items := items[..i] + items[i + 1..];
    }
  }

  /** The search frontier invariant of the solver: the current node and
      every queued node are linked back to the root of init with their
      arrays among frozen and unchanged, count is the current node's move
      count, and the current node is still the root when init is already
      solved. */
  ghost predicate Frontier(node: SearchNode?, count: int, items: seq<SearchNode>,
                           frozen: set<array<int>>, init: seq<int>, side: nat)
    reads frozen
  {
    && node != null
    && Linked(node, init, side) && Held(node, frozen)
    && count == node.mcount
    && (forall x :: x in items ==> Linked(x, init, side) && Held(x, frozen))
    && (IsGoalBoard(init) ==> node.prev == null)
  }

  /** A new node for a neighbour of parent's board, one move further from
      the root, keeps the search-tree invariant once its array is among
      frozen. */
  lemma NewChild(nd: SearchNode, parent: SearchNode, init: seq<int>, n: nat,
                 frozen: set<array<int>>)
    requires Linked(parent, init, n) && Held(parent, frozen)
    requires nd.prev == parent && nd.ancestors == [parent] + parent.ancestors
    requires nd.mcount == parent.mcount + 1
    requires nd.board.n == n && nd.board.Valid() && nd.tiles == nd.board.board[..]
    requires nd.manhattan == ManhattanOf(nd.tiles, n) && nd.priority == nd.mcount + nd.manhattan
    requires IsNeighbor(nd.tiles, parent.tiles, n)
    requires nd.board.board in frozen
    ensures Linked(nd, init, n) && Held(nd, frozen)
  {
    CurrentChild(nd, init, n);
    ChildArrays(nd);
  }

  /** The frontier invariant survives more arrays joining frozen. */
  lemma FrontierGrows(node: SearchNode?, count: int, items: seq<SearchNode>,
                      frozen: set<array<int>>, more: set<array<int>>, init: seq<int>, side: nat)
    requires Frontier(node, count, items, frozen, init, side) && frozen <= more
    ensures Frontier(node, count, items, more, init, side)
  {
    forall x | x in items || x == node
      ensures Held(x, more)
    {
      HeldGrows(x, frozen, more);
    }
  }

  /** Queueing a linked node keeps the frontier invariant. */
  lemma FrontierPush(node: SearchNode?, count: int, items: seq<SearchNode>, x: SearchNode,
                     frozen: set<array<int>>, init: seq<int>, side: nat)
    requires Frontier(node, count, items, frozen, init, side)
    requires Linked(x, init, side) && Held(x, frozen)
    ensures Frontier(node, count, items + [x], frozen, init, side)
  {
  }

  /** Taking a queued node out as the current node keeps the frontier
      invariant, once the solution is known not to start at the goal. */
  lemma FrontierTake(node: SearchNode, items: seq<SearchNode>, queued: seq<SearchNode>,
                     frozen: set<array<int>>, init: seq<int>, side: nat)
    requires node in queued && !IsGoalBoard(init)
    requires forall x :: x in items ==> x in queued
    requires forall x :: x in queued ==> Linked(x, init, side) && Held(x, frozen)
    ensures Frontier(node, node.mcount, items, frozen, init, side)
    ensures node.board.board[..] == node.tiles
  {
    CurrentHere(node);
  }

  /** The current node of a frontier, read as the end of the search: its
      path is linked and current, and it is the root when init is already
      the goal. */
  lemma FrontierPath(node: SearchNode?, count: int, items: seq<SearchNode>,
                     frozen: set<array<int>>, init: seq<int>, side: nat)
    requires Frontier(node, count, items, frozen, init, side)
    ensures node != null && Linked(node, init, side) && Current(node)
    ensures IsGoalBoard(init) ==> node.prev == null
    ensures |Chain(node)| == node.mcount && Chain(node)[0] == node
    ensures Chain(node)[|Chain(node)| - 1].prev == null
    ensures forall k :: 0 <= k < |Chain(node)| - 1 ==> Chain(node)[k].prev == Chain(node)[k + 1]
  {
    ChainProps(node, init, side);
  }
}
