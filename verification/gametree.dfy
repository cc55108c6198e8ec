/**
  The game tree of `main.cpp`: `struct Node` and `buildTree`, which expands a
  position into every line of play below it, and the descent that moves the
  game to the child whose board matches a move.
 */
module GameTree {
  import opened TicTacToe

  /** `struct Node`: a position, its cached `detectWin` result and its children. */
  datatype Node = Node(board: Tic, eval: int, isTerminal: bool, children: seq<Node>)

  /**
    The shape `buildTree` leaves a subtree in: every node caches its board's
    `detectWin` result, terminal nodes are leaves, and an open node has one
    child per legal successor, in `getLegalBoards` order.
   */
  ghost predicate Built(n: Node)
    decreases n
  {
    && n.eval == DetectWin(n.board).0
    && n.isTerminal == DetectWin(n.board).1
    && (n.isTerminal ==> n.children == [])
    && (!n.isTerminal ==>
          && |n.children| == |LegalBoards(n.board)|
          && forall j :: 0 <= j < |n.children| ==>
               n.children[j].board == LegalBoards(n.board)[j] && Built(n.children[j]))
  }

  /** An open position always has an empty cell, so a built open node has children. */
  lemma OpenHasChildren(n: Node)
    requires Built(n) && !n.isTerminal
    ensures |n.children| == EmptyCount(n.board.cells) > 0
  {
  }

  /** A board `detectWin` calls open has an empty cell. */
  lemma OpenBoardHasEmpty(b: Tic)
    requires !DetectWin(b).1
    ensures EmptyCount(b.cells) > 0
  {
  }

  /**
    `buildTree`: the whole game tree below `b`.  Recursion ends because every
    successor has one empty cell fewer.
   */
  function BuildTree(b: Tic): (n: Node)
    decreases EmptyCount(b.cells)
    ensures n.board == b
    ensures n.eval == DetectWin(b).0 && n.isTerminal == DetectWin(b).1
    ensures n.isTerminal ==> n.children == []
    ensures !n.isTerminal ==> |n.children| == EmptyCount(b.cells) > 0
  {
    var (eval, isTerminal) := DetectWin(b);
    if isTerminal then Node(b, eval, isTerminal, [])
    else
      OpenBoardHasEmpty(b);
      var boards := LegalBoards(b);
      assert forall j :: 0 <= j < |boards| ==> EmptyCount(boards[j].cells) < EmptyCount(b.cells);
      var children := seq(|boards|, j requires 0 <= j < |boards| => BuildTree(boards[j]));
      Node(b, eval, isTerminal, children)
  }

  /** Every subtree `buildTree` makes has the built shape. */
  lemma {:induction false} BuildTreeBuilt(b: Tic)
    ensures Built(BuildTree(b))
    decreases EmptyCount(b.cells)
  {
    var n := BuildTree(b);
    if !n.isTerminal {
      forall j | 0 <= j < |n.children|
        ensures Built(n.children[j])
      {
        BuildTreeBuilt(LegalBoards(b)[j]);
      }
    }
  }

  /** A subtree of the built shape is exactly what `buildTree` makes of its board. */
  lemma {:induction false} BuiltIsBuildTree(n: Node)
    requires Built(n)
    ensures n == BuildTree(n.board)
    decreases n
  {
    var t := BuildTree(n.board);
    if !n.isTerminal {
      forall j | 0 <= j < |n.children|
        ensures n.children[j] == t.children[j]
      {
        BuiltIsBuildTree(n.children[j]);
      }
      assert n.children == t.children;
    }
  }

  /** Levels of nodes below `n`: 0 for a leaf. */
  function Height(n: Node): nat
    decreases n
  {
    if n.children == [] then 0 else 1 + MaxHeight(n.children)
  }

  /** The greatest height among `cs`, 0 for none. */
  function MaxHeight(cs: seq<Node>): nat
    decreases cs
  {
    if cs == [] then 0
    else
      var h := Height(cs[0]);
      var t := MaxHeight(cs[1..]);
      if h > t then h else t
  }

  lemma {:induction false} MaxHeightBound(cs: seq<Node>, h: nat)
    requires forall j :: 0 <= j < |cs| ==> Height(cs[j]) <= h
    ensures MaxHeight(cs) <= h
    decreases cs
  {
    if cs != [] {
      MaxHeightBound(cs[1..], h);
    }
  }

  /** A built subtree is no taller than its board's number of empty cells, so never taller than 9. */
  lemma {:induction false} BuiltHeight(n: Node)
    requires Built(n)
    ensures Height(n) <= EmptyCount(n.board.cells) <= 9
    decreases n
  {
    assert EmptyCount(n.board.cells) == |EmptyIndices(n.board.cells)|;
    if !n.isTerminal {
      OpenHasChildren(n);
      forall j | 0 <= j < |n.children|
        ensures Height(n.children[j]) <= EmptyCount(n.board.cells) - 1
      {
        BuiltHeight(n.children[j]);
      }
      MaxHeightBound(n.children, EmptyCount(n.board.cells) - 1);
    }
  }

  /** The children of a built open node are pairwise different positions. */
  lemma ChildrenDistinct(n: Node, j: nat, l: nat)
    requires Built(n) && !n.isTerminal
    requires j < l < |n.children|
    ensures !SameCells(n.children[j].board, n.children[l].board)
  {
    LegalBoardsDistinct(n.board, j, l);
  }

  /**
    The descent loop: the first child from index i on whose board has the
    same cells as `t`, or None when there is no such child.
   */
  function FindChildFrom(cs: seq<Node>, t: Tic, i: nat): (r: Option<Node>)
    requires i <= |cs|
    decreases |cs| - i
    ensures r.None? <==> forall j :: i <= j < |cs| ==> !SameCells(cs[j].board, t)
    ensures r.Some? ==> exists k :: i <= k < |cs| && r.value == cs[k] && SameCells(cs[k].board, t)
                                      && forall j :: i <= j < k ==> !SameCells(cs[j].board, t)
  {
    if i == |cs| then None
    else if SameCells(cs[i].board, t) then Some(cs[i])
    else FindChildFrom(cs, t, i + 1)
  }

  /** The first child whose board has the same cells as `t`. */
  function FindChild(cs: seq<Node>, t: Tic): (r: Option<Node>)
    ensures r.None? <==> forall j :: 0 <= j < |cs| ==> !SameCells(cs[j].board, t)
    ensures r.Some? ==> exists k :: 0 <= k < |cs| && r.value == cs[k] && SameCells(cs[k].board, t)
                                      && forall j :: 0 <= j < k ==> !SameCells(cs[j].board, t)
  {
    FindChildFrom(cs, t, 0)
  }

  /** The search from i stops at k when k is the first match from i on. */
  lemma {:induction false} FindChildFromFirst(cs: seq<Node>, t: Tic, i: nat, k: nat)
    requires i <= k < |cs|
    requires SameCells(cs[k].board, t)
    requires forall j :: i <= j < k ==> !SameCells(cs[j].board, t)
    ensures FindChildFrom(cs, t, i) == Some(cs[k])
    decreases k - i
  {
    if i < k {
      FindChildFromFirst(cs, t, i + 1, k);
    }
  }

  /** In a built open node, searching for child k's board finds child k itself. */
  lemma FindOwnChild(n: Node, k: nat)
    requires Built(n) && !n.isTerminal
    requires k < |n.children|
    ensures FindChild(n.children, n.children[k].board) == Some(n.children[k])
  {
    var t := n.children[k].board;
    forall j | 0 <= j < k
      ensures !SameCells(n.children[j].board, t)
    {
      ChildrenDistinct(n, j, k);
    }
    FindChildFromFirst(n.children, t, 0, k);
  }

  /**
    A legal human move from an open built node leads to a child: playing it
    on a copy of the board and searching the children finds the child whose
    board is that move's result.
   */
  lemma PlayerMoveHasChild(n: Node, row: int, col: int)
    requires Built(n) && !n.isTerminal
    requires IsLegalMove(n.board, row, col)
    ensures OnBoard(row, col)
    ensures FindChild(n.children, PlayMove(CopyOf(n.board), row, col)).Some?
    ensures FindChild(n.children, PlayMove(CopyOf(n.board), row, col)).value.board
            == PlayMove(n.board, row, col)
  {
    var b := n.board;
    var i: Cell := 3 * row + col;
    var e := EmptyIndices(b.cells);
    assert i in e;
    var k :| 0 <= k < |e| && e[k] == i;
    var s := LegalBoards(b)[k];
    assert SuccessorAt(b, s, i);
    assert s.cells == PlayMove(b, row, col).cells;
    assert s == PlayMove(b, row, col);
    assert CopyOf(b) == b;
    FindOwnChild(n, k);
  }
}
