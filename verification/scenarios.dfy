/**
  A worked end game: O to move on XOX / XOO / ..X.  Cell 6 leads to a draw
  after X fills cell 7; cell 7 completes O's middle column.  The lemmas build
  the two-level tree by hand and show that the search picks the win.
 */
module Scenarios {
  import opened TicTacToe
  import opened GameTree
  import opened Search

  /** O to move on XOX / XOO / ..X. */
  const Start: Tic := Tic("XOXXOO..X", false)
  /** O took cell 6; X to move on XOX / XOO / O.X. */
  const SixTaken: Tic := Tic("XOXXOOO.X", true)
  /** O took cell 7, completing the middle column. */
  const SevenTaken: Tic := Tic("XOXXOO.OX", true)
  /** X filled cell 7 after O took cell 6. */
  const Filled: Tic := Tic("XOXXOOOXX", false)

  /** The start position written as three rows, one per line. */
  const Rows: string := "XOX\nXOO\n..X\n"

  /** `NonSpace` of a concatenation is the concatenation of the two. */
  lemma {:induction false} NonSpaceConcat(s: string, t: string)
    ensures NonSpace(s + t) == NonSpace(s) + NonSpace(t)
    decreases s
  {
    if s != [] {
      assert (s + t)[1..] == s[1..] + t;
      NonSpaceConcat(s[1..], t);
    } else {
      assert s + t == t;
    }
  }

  /** One row of three marks and its line break. */
  lemma RowNonSpace(a: char, b: char, c: char)
    requires !IsSpace(a) && !IsSpace(b) && !IsSpace(c)
    ensures NonSpace([a, b, c, '\n']) == [a, b, c]
  {
    var nl: string := ['\n'];
    assert nl[1..] == [];
    assert NonSpace(nl) == [];
    assert [c, '\n'][1..] == nl;
    assert NonSpace([c, '\n']) == [c];
    assert [b, c, '\n'][1..] == [c, '\n'];
    assert NonSpace([b, c, '\n']) == [b, c];
    assert [a, b, c, '\n'][1..] == [b, c, '\n'];
  }

  /** Three rows of marks, each ending in a line break, hold just the nine marks. */
  lemma ThreeRows(r1: string, r2: string, r3: string)
    requires |r1| == |r2| == |r3| == 3
    requires forall k :: 0 <= k < 3 ==> !IsSpace(r1[k]) && !IsSpace(r2[k]) && !IsSpace(r3[k])
    ensures NonSpace(r1 + "\n" + r2 + "\n" + r3 + "\n") == r1 + r2 + r3
  {
    RowNonSpace(r1[0], r1[1], r1[2]);
    RowNonSpace(r2[0], r2[1], r2[2]);
    RowNonSpace(r3[0], r3[1], r3[2]);
    assert r1 + "\n" == [r1[0], r1[1], r1[2], '\n'];
    assert r2 + "\n" == [r2[0], r2[1], r2[2], '\n'];
    assert r3 + "\n" == [r3[0], r3[1], r3[2], '\n'];
    assert r1 + "\n" + r2 + "\n" + r3 + "\n" == (r1 + "\n") + (r2 + "\n") + (r3 + "\n");
    NonSpaceConcat((r1 + "\n") + (r2 + "\n"), r3 + "\n");
    NonSpaceConcat(r1 + "\n", r2 + "\n");
  }

  /** Dropping the line breaks from the rows leaves the nine cells. */
  lemma RowsNonSpace()
    ensures NonSpace(Rows) == Start.cells
  {
    RowsSplit();
    ThreeRows("XOX", "XOO", "..X");
  }

  /** The row text and the cells, cut into rows. */
  lemma RowsSplit()
    ensures Rows == "XOX" + "\n" + "XOO" + "\n" + "..X" + "\n"
    ensures Start.cells == "XOX" + "XOO" + "..X"
  {
  }

  /** The start position written as three rows reads back as that position. */
  lemma ReadRows(obj: Tic)
    ensures Parse(Rows, obj).Some?
    ensures Parse(Rows, obj).value.0 == Tic(Start.cells, obj.whiteTurn)
  {
    RowsNonSpace();
    ParseNonSpace(Rows, obj);
  }

  /** The eight line tests one by one add up to "no line decided". */
  lemma NoLineAll(c: Cells)
    requires !Decided(c, 0) && !Decided(c, 1) && !Decided(c, 2) && !Decided(c, 3)
    requires !Decided(c, 4) && !Decided(c, 5) && !Decided(c, 6) && !Decided(c, 7)
    ensures NoLineFrom(c, 0)
  {
    forall l | 0 <= l < 8
      ensures !Decided(c, l)
    {
      if l == 0 {} else if l == 1 {} else if l == 2 {} else if l == 3 {}
      else if l == 4 {} else if l == 5 {} else if l == 6 {} else {}
    }
  }

  /** A full board with no line is a draw. */
  lemma DrawWhenFull(b: Tic)
    requires NoLineFrom(b.cells, 0) && '.' !in b.cells
    ensures DetectWin(b) == (0, true)
  {
    DetectWinOutcome(b);
  }

  /** A board with an empty cell and no line is open. */
  lemma OpenWhenRoom(b: Tic)
    requires NoLineFrom(b.cells, 0) && '.' in b.cells
    ensures DetectWin(b) == (NoResult, false)
  {
    DetectWinOutcome(b);
  }

  /** The full board XOX / XOO / OXX has no line: a draw. */
  lemma DrawOutcome()
    ensures DetectWin(Filled) == (0, true)
  {
    var g := Filled.cells;
    assert g[0] == 'X' && g[1] == 'O' && g[2] == 'X' && g[3] == 'X' && g[4] == 'O';
    assert g[5] == 'O' && g[6] == 'O' && g[7] == 'X' && g[8] == 'X';
    NoLineAll(g);
    DrawWhenFull(Filled);
  }

  /** O's middle column on XOX / XOO / .OX is a win for O. */
  lemma WinOutcome()
    ensures DetectWin(SevenTaken) == (-1, true)
  {
    var w := SevenTaken.cells;
    assert w[0] == 'X' && w[1] == 'O' && w[2] == 'X' && w[3] == 'X' && w[4] == 'O';
    assert w[5] == 'O' && w[6] == '.' && w[7] == 'O' && w[8] == 'X';
    assert FirstWinFrom(w, 0, 3, 'O');
    DetectWinOutcome(SevenTaken);
  }

  /** The start position XOX / XOO / ..X is undecided. */
  lemma RootOpen()
    ensures DetectWin(Start) == (NoResult, false)
  {
    var c := Start.cells;
    assert c[0] == 'X' && c[1] == 'O' && c[2] == 'X' && c[3] == 'X' && c[4] == 'O';
    assert c[5] == 'O' && c[6] == '.' && c[7] == '.' && c[8] == 'X';
    NoLineAll(c);
    OpenWhenRoom(Start);
  }

  /** After O takes cell 6 the game is still open. */
  lemma ReplyOpen()
    ensures DetectWin(SixTaken) == (NoResult, false)
  {
    var c := SixTaken.cells;
    assert c[0] == 'X' && c[1] == 'O' && c[2] == 'X' && c[3] == 'X' && c[4] == 'O';
    assert c[5] == 'O' && c[6] == 'O' && c[7] == '.' && c[8] == 'X';
    NoLineAll(c);
    OpenWhenRoom(SixTaken);
  }

  /** The start position has cells 6 and 7 empty. */
  lemma RootEmpties()
    ensures EmptyIndices(Start.cells) == [6, 7]
  {
    var c := Start.cells;
    assert c[8] == 'X' && c[7] == '.' && c[6] == '.';
    assert EmptyFrom(c, 6) == [6, 7];
    assert c[0] == 'X' && c[1] == 'O' && c[2] == 'X' && c[3] == 'X' && c[4] == 'O' && c[5] == 'O';
    assert EmptyFrom(c, 0) == EmptyFrom(c, 6);
  }

  /** ... which are (row, col) = (2, 0) and (2, 1). */
  lemma RootSpaces()
    ensures EmptySpaces(Start.cells) == [(2, 0), (2, 1)]
  {
    RootEmpties();
  }

  /** With exactly two empty spaces there are exactly the two successors playing them. */
  lemma LegalBoardsOf(b: Tic, p: (int, int), q: (int, int))
    requires EmptySpaces(b.cells) == [p, q]
    ensures OnBoard(p.0, p.1) && OnBoard(q.0, q.1)
    ensures LegalBoards(b) == [PlayMoveAt(CopyOf(b), p), PlayMoveAt(CopyOf(b), q)]
  {
    assert EmptySpaces(b.cells)[0] == p && EmptySpaces(b.cells)[1] == q;
  }

  /** O taking (2, 0) or (2, 1) from the start position. */
  lemma StartMoves()
    ensures PlayMoveAt(CopyOf(Start), (2, 0)) == SixTaken
    ensures PlayMoveAt(CopyOf(Start), (2, 1)) == SevenTaken
  {
  }

  /** O's two moves from the start position, cell 6 first. */
  lemma RootSuccessors()
    ensures LegalBoards(Start) == [SixTaken, SevenTaken]
  {
    RootSpaces();
    LegalBoardsOf(Start, (2, 0), (2, 1));
    StartMoves();
  }

  /** After O takes cell 6 only cell 7 is empty ... */
  lemma ReplyIndices()
    ensures EmptyIndices(SixTaken.cells) == [7]
  {
    var c := SixTaken.cells;
    assert c[8] == 'X' && c[7] == '.';
    assert EmptyFrom(c, 7) == [7];
    assert c[0] == 'X' && c[1] == 'O' && c[2] == 'X' && c[3] == 'X' && c[4] == 'O' && c[5] == 'O' && c[6] == 'O';
    assert EmptyFrom(c, 0) == EmptyFrom(c, 7);
  }

  /** ... which is (row, col) = (2, 1). */
  lemma ReplyEmpties()
    ensures EmptySpaces(SixTaken.cells) == [(2, 1)]
  {
    ReplyIndices();
  }

  /** With one empty space there is one successor. */
  lemma LegalBoardsOne(b: Tic, p: (int, int))
    requires EmptySpaces(b.cells) == [p]
    ensures OnBoard(p.0, p.1)
    ensures LegalBoards(b) == [PlayMoveAt(CopyOf(b), p)]
  {
    assert EmptySpaces(b.cells)[0] == p;
  }

  /** X's only move after O takes cell 6. */
  lemma ReplySuccessors()
    ensures LegalBoards(SixTaken) == [Filled]
  {
    var b := SixTaken;
    ReplyEmpties();
    LegalBoardsOne(b, (2, 1));
    assert PlayMoveAt(CopyOf(b), (2, 1)) == Filled;
  }

  /** The subtree after O takes cell 6: one drawn leaf. */
  lemma ReplyTree()
    ensures BuildTree(SixTaken)
         == Node(SixTaken, NoResult, false, [Node(Filled, 0, true, [])])
  {
    ReplyOpen();
    ReplySuccessors();
    DrawOutcome();
  }

  /** An open position with two successors becomes a node with their two subtrees. */
  lemma OpenTreeOfTwo(b: Tic, s: Tic, t: Tic)
    requires !DetectWin(b).1
    requires LegalBoards(b) == [s, t]
    ensures BuildTree(b) == Node(b, DetectWin(b).0, false, [BuildTree(s), BuildTree(t)])
  {
    var n := BuildTree(b);
    assert |n.children| == 2;
    assert n.children[0] == BuildTree(s) && n.children[1] == BuildTree(t);
    assert n.children == [BuildTree(s), BuildTree(t)];
  }

  /** The winning move's subtree is a leaf worth -1. */
  lemma WinTree()
    ensures BuildTree(SevenTaken) == Node(SevenTaken, -1, true, [])
  {
    WinOutcome();
  }

  /** The whole tree below the start position. */
  lemma RootTree()
    ensures BuildTree(Start)
         == Node(Start, NoResult, false,
                 [BuildTree(SixTaken), Node(SevenTaken, -1, true, [])])
  {
    RootOpen();
    RootSuccessors();
    WinTree();
    OpenTreeOfTwo(Start, SixTaken, SevenTaken);
  }

  /** With X to move, a node whose one child is a leaf is worth that leaf. */
  lemma OneLeafValue(n: Node, e: int)
    requires !n.isTerminal && |n.children| == 1
    requires n.children[0].isTerminal && n.children[0].eval == e
    requires Int32Min < e < Int32Max
    ensures MinMaxTreeHelper(n, Int32Min, Int32Max, true) == e
  {
    var w := Window(Int32Min, Int32Max, Int32Min);
    assert MaxLoop(n.children, w) == MaxLoop(n.children[1..], Window(e, Int32Max, e));
  }

  /** X's only reply from cell 6 fills the board for a draw. */
  lemma ReplyValue()
    ensures MinMaxTreeHelper(BuildTree(SixTaken), Int32Min, Int32Max, true) == 0
  {
    ReplyTree();
    OneLeafValue(BuildTree(SixTaken), 0);
  }

  /** Of a child worth 0 and a later child worth -1, O's pick is the later one. */
  lemma PickSecond(n: Node)
    requires |n.children| == 2
    requires ChildScore(n.children, 0, false) == 0 && ChildScore(n.children, 1, false) == -1
    ensures MinMaxTree(n, false) == (n.children[1].board, -1)
  {
    var cs := n.children;
    assert PickFrom(cs, 0, false, NewTic(), Int32Max) == PickFrom(cs, 1, false, cs[0].board, 0);
    assert PickFrom(cs, 1, false, cs[0].board, 0) == PickFrom(cs, 2, false, cs[1].board, -1);
  }

  /**
    With O to move and two cells left, `minMaxTree` takes the immediate win
    in cell 7 over cell 6, which only leads to a draw.
   */
  lemma TakesTheWin()
    ensures MinMaxTree(BuildTree(Start), false) == (SevenTaken, -1)
  {
    RootTree();
    ReplyValue();
    PickSecond(BuildTree(Start));
  }
}
