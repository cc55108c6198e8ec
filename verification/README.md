# Tic-tac-toe game tree and minimax search

This project models the engine of a terminal tic-tac-toe game in Dafny:

- the board class `Tic`: construction, copying, placing marks, the list of
  legal successor boards, the legality test, equality, printing and reading,
  and the win/draw detector `detectWin`;
- the game tree: `struct Node` and `buildTree`, which expands a position
  into every line of play below it, and the descent in the game loop that
  moves to the child matching a move;
- the search: `minMaxTreeHelper`, an alpha-beta minimax, and `minMaxTree`,
  which picks the best child of a node.

Each mutating member of `Tic` becomes a pure function returning the new
board. The tree is an immutable datatype whose children are values, not
pointers. The helper's loops over the children, including their `break`,
are folds over the child sequence. Each fold carries a `Window` holding
alpha, beta and the best value so far.

In the minimizing loop the helper sets `beta = eval` only when
`beta < eval`, so beta is only ever raised. The model keeps that
(`Search.MinLoop`). `Search.HelperIsMinimax` proves what follows from it:
searched from the full 32-bit window, beta stays at `INT32_MAX`, no cutoff
ever fires in either loop, and the helper returns the plain minimax value.
`Search.BestChild` and `Search.BestMoveOnBuilt` then show that `minMaxTree`
returns the minimax value of the node, together with the board of the
earliest child that attains it. The descent loop finds exactly that child.

`scenarios.dfy` works one end game through by hand (O to move on
XOX / XOO / ..X). It builds the two-level tree and shows that the search
takes the immediate win.

Facts about the code that the model keeps:

- `operator==` compares only the nine cells; the turn flag plays no part.
- `operator>>` reads each character with `in >> c`, which skips all leading
  whitespace, so the `c != '\n'` guard never fails and the cells receive
  the first nine non-whitespace characters of the input.
- The minimizing loop only raises beta, as described above.
- `minMaxTree` on a node without children returns a default board and the
  worst 32-bit value for the mover.

## Model

| member | source | states |
|---|---|---|
| TicTacToe.NewTic | tictactoe.hpp:9-14 | the new board has all nine cells empty ('.'), nine empty cells in all, and X to move |
| TicTacToe.CopyOf | tictactoe.hpp:16-21 | the copy has the same nine cells and the same turn flag as the original |
| TicTacToe.PlaceX | tictactoe.hpp:26-29 | cell 3x+y becomes 'X' whoever is to move, every other cell is unchanged, and the turn flips |
| TicTacToe.PlaceO | tictactoe.hpp:30-33 | cell 3x+y becomes 'O' whoever is to move, every other cell is unchanged, and the turn flips |
| TicTacToe.PlayMove | tictactoe.hpp:34-37 | the side to move marks cell 3x+y (X when whiteTurn), every other cell is unchanged, and the turn flips; it is placeX when X is to move and placeO otherwise |
| TicTacToe.PlayMoveAt | tictactoe.hpp:38-41 | the pair overload gives the same board as playMove(loc.first, loc.second) |
| TicTacToe.EmptyCountZero | tictactoe.cpp:126-129 | no empty cell is counted exactly when '.' does not occur on the board |
| TicTacToe.EmptyCountFill | tictactoe.cpp:17-18 | overwriting an empty cell with a mark leaves exactly one empty cell fewer |
| TicTacToe.EmptyFrom | tictactoe.cpp:6-12 | the indices from k on that hold '.', strictly increasing, each one empty, every empty index from k on included |
| TicTacToe.EmptyFromCount | tictactoe.cpp:6-12 | the scan from k lists as many indices as there are empty cells from k on |
| TicTacToe.EmptyIndices | tictactoe.cpp:6-12 | exactly the empty cells of the board, in increasing index order, as many as there are empty cells |
| TicTacToe.EmptySpaces | tictactoe.cpp:5-12 | the emptySpaces vector: one in-range (row, col) per empty cell, in cell order, with 3*row+col that cell |
| TicTacToe.FillOneEmpty | tictactoe.cpp:17-18 | a successor made by marking one empty cell has one empty cell fewer |
| TicTacToe.PlaySpace | tictactoe.cpp:14-19 | playing the j-th empty space on a copy writes the mover's mark in the j-th empty cell, leaves every other cell, passes the turn and removes one empty cell |
| TicTacToe.LegalBoards | tictactoe.cpp:4-21 | one successor per empty cell, in increasing cell order; successor j is the board with the mover's mark in the j-th empty cell and the turn passed, and has one empty cell fewer |
| TicTacToe.LegalBoardsDistinct | tictactoe.cpp:4-21 | two different successors differ in their cells |
| TicTacToe.EmptySpaceFound | tictactoe.cpp:24-31 | an in-range empty (row, col) appears among the empty spaces |
| TicTacToe.EmptySpaceListed | tictactoe.cpp:24-31 | (row, col) appears among the empty spaces if and only if it is in range and its cell is empty |
| TicTacToe.IsLegalMove | tictactoe.cpp:23-38 | a move is legal if and only if 0 <= row < 3, 0 <= col < 3 and cell 3*row+col is empty |
| TicTacToe.SuccessorIsPlay | tictactoe.cpp:17-18 | the successor that marks cell 3*row+col is exactly the board playMove(row, col) gives |
| TicTacToe.LegalMoveGivesSuccessor | tictactoe.cpp:4-21 | playing an in-range empty cell gives one of the boards getLegalBoards returns |
| TicTacToe.SuccessorMarksEmpty | tictactoe.cpp:4-21 | a move whose result is one of the legal boards was played on an empty cell |
| TicTacToe.LegalMoveIsSuccessor | tictactoe.cpp:4-38 | for in-range coordinates, isLegalMove holds if and only if playing the move gives one of the boards getLegalBoards returns |
| TicTacToe.CellsAgreeFrom | tictactoe.cpp:41-45 | the cell loop from i on succeeds if and only if the two boards agree on every cell from i on |
| TicTacToe.SameCells | tictactoe.cpp:40-47 | equality holds if and only if the nine cells are equal, whatever the turn flags |
| TicTacToe.Show | tictactoe.cpp:49-55 | the output is the nine cells in order followed by one newline |
| TicTacToe.SkipSpace | tictactoe.cpp:60 | the extraction skips exactly the leading run of whitespace before the character it reads |
| TicTacToe.ReadChar | tictactoe.cpp:60 | one extraction fails exactly when only whitespace is left; otherwise it yields the first non-whitespace character and the input after it |
| TicTacToe.NonSpaceSkip | tictactoe.cpp:60 | leading whitespace adds nothing to the non-whitespace characters of the input |
| TicTacToe.ReadCharNonSpace | tictactoe.cpp:60 | one extraction fails exactly when the input has no non-whitespace character, and otherwise takes the first one and leaves the others |
| TicTacToe.ReadCells | tictactoe.cpp:59-63 | the read loop from cell i on keeps the turn flag and cells before i, and leaves no whitespace in cells i..8 |
| TicTacToe.Parse | tictactoe.cpp:57-65 | extraction keeps the turn flag, leaves no whitespace in any cell, and fails on input shorter than nine characters |
| TicTacToe.ReadCellsNonSpace | tictactoe.cpp:59-63 | the read loop from cell i succeeds exactly when the input has at least 9 - i non-whitespace characters, and then cells i..8 are the first 9 - i of them, cells before i unchanged |
| TicTacToe.PrefixStep | tictactoe.cpp:61-62 | writing the character read into cell i extends the cells already read by that character |
| TicTacToe.ParseNonSpace | tictactoe.cpp:57-65 | on any input, extraction succeeds exactly when there are at least nine non-whitespace characters, and then the cells are the first nine of them and the turn flag is the target's |
| TicTacToe.ReadCellsShortInput | tictactoe.cpp:59-63 | with fewer characters left than cells to fill, the read loop fails |
| TicTacToe.ReadCellsShown | tictactoe.cpp:59-63 | reading the printed remaining cells restores them and leaves the newline unread |
| TicTacToe.ParseShow | tictactoe.cpp:49-65 | reading back what operator<< printed restores all nine cells when none is whitespace, keeps the target's turn flag and leaves the newline unread |
| TicTacToe.WellFormedBoards | tictactoe.cpp:4-21 | the new board holds only '.', 'X' and 'O', and so does every legal successor of a board that does |
| TicTacToe.ShowParseRoundTrip | tictactoe.cpp:49-65 | printing a board of '.', 'X' and 'O' and reading the text back into the same object gives the same board, turn flag included, with the newline left unread |
| TicTacToe.FirstWinShift | tictactoe.cpp:69-124 | skipping an undecided line does not change which line first decides the game |
| TicTacToe.ScanLines | tictactoe.cpp:68-130 | from line k on: (1, true) exactly when the first complete line is X's, (-1, true) exactly when it is O's, (0, true) when no line is complete and the board is full, (-31337, false) when no line is complete and a cell is empty |
| TicTacToe.DetectWin | tictactoe.cpp:68-131 | the result is terminal if and only if some line holds three X or three O or no cell is empty; a terminal result is 1, 0 or -1 |
| TicTacToe.DetectWinOutcome | tictactoe.cpp:68-131 | each of the four results happens exactly in its case: first complete line X's, first complete line O's, full board with no line, open board with no line |
| TicTacToe.EmptyBoardOpen | tictactoe.cpp:126-130 | the new empty board gives (-31337, false) |
| TicTacToe.FirstLineDecides | tictactoe.cpp:69-75 | with two complete lines, the row checked first decides the winner |
| GameTree.OpenHasChildren | main.cpp:173-178 | an open built node has as many children as empty cells, and at least one |
| GameTree.OpenBoardHasEmpty | tictactoe.cpp:126-130 | a board that detectWin calls open has an empty cell |
| GameTree.BuildTree | main.cpp:169-180 | the node holds the board with its detectWin result cached; a terminal node gets no children; an open node gets one child per empty cell |
| GameTree.BuildTreeBuilt | main.cpp:169-180 | every node of the tree caches detectWin, terminal nodes are leaves, and open nodes hold one child per legal board in getLegalBoards order, recursively |
| GameTree.BuiltIsBuildTree | main.cpp:169-180 | a tree of that shape is exactly the tree buildTree makes from its root board |
| GameTree.BuiltHeight | main.cpp:168-180 | the built tree is no deeper than the number of empty cells at its root, at most 9, so no depth limit is needed |
| GameTree.ChildrenDistinct | main.cpp:174-177 | two different children of a built node never compare equal |
| GameTree.FindChildFrom | main.cpp:145-150 | the search from i finds nothing if and only if no child from i on compares equal to the target; otherwise it finds the first child that does |
| GameTree.FindChild | main.cpp:145-150 | the descent finds nothing if and only if no child compares equal to the target; otherwise it finds the first child that does |
| GameTree.FindChildFromFirst | main.cpp:145-150 | when k is the first matching child from i on, the search from i returns child k |
| GameTree.FindOwnChild | main.cpp:123-128 | looking up child k's own board among the children of a built node finds child k |
| GameTree.PlayerMoveHasChild | main.cpp:140-150 | a legal player move from an open built node is on the board, and the descent finds the child whose board is that move's result |
| Search.MinMaxTreeHelper | main.cpp:219-255 | on an open node the value is at least INT32_MIN for X and at most INT32_MAX for O; that it equals plain minimax from the full window is `Search.HelperIsMinimax` |
| Search.MaxLoop | main.cpp:224-238 | the maximizing loop never changes beta, and alpha and the best value never fall |
| Search.MinLoop | main.cpp:239-254 | the minimizing loop never changes alpha, never lowers beta, and the best value never rises |
| Search.MaxFrom | main.cpp:225-230 | the running maximum is at least its start, at least every value, and is either the start or one of the values |
| Search.MinFrom | main.cpp:240-245 | the running minimum is at most its start, at most every value, and is either the start or one of the values |
| Search.Scores | main.cpp:226-227 | the children's values with the other side to move, one per child, in order |
| Search.BuiltScored | main.cpp:169-180 | every tree buildTree makes has terminal leaves holding 1, 0 or -1 and at least one child under every open node |
| Search.MinimaxRange | main.cpp:219-255 | on such a tree every minimax value is 1, 0 or -1 |
| Search.MaxLoopFull | main.cpp:226-237 | with beta at INT32_MAX the maximizing loop never cuts off: its best is the maximum over all children, beta is unchanged, and alpha ends no higher than the larger of its start and 1 |
| Search.MinLoopFull | main.cpp:241-252 | with beta at INT32_MAX the minimizing loop never cuts off, because it can only raise beta: its best is the minimum over all children, beta and alpha are unchanged |
| Search.HelperIsMinimax | main.cpp:219-255 | searched with beta at INT32_MAX and any alpha below it, the helper returns the plain minimax value, 1, 0 or -1, and on a terminal node its cached eval |
| Search.PickFrom | main.cpp:203-216 | no remaining child's value strictly beats the result; the result is the held pair or the earliest child attaining its value, which strictly beats the held value |
| Search.MinMaxTree | main.cpp:194-218 | with no children the default board and the worst 32-bit value come back; otherwise no child's value strictly beats the result, which is the start or the earliest child attaining its value |
| Search.ChildScoresAreMinimax | main.cpp:204 | each child's helper value from the full window is its minimax value, 1, 0 or -1 |
| Search.AttainedIsExtreme | main.cpp:205-215 | a value among the children's values that none of them strictly beats is their maximum for X and their minimum for O |
| Search.PickedChild | main.cpp:203-216 | when the first child beats the start, the result is some child k's board and value; no child beats it, and no earlier child has that value |
| Search.BestChild | main.cpp:194-218 | on a node with children, the result is the node's minimax value and the board of the earliest child attaining it |
| Search.BestMoveOnBuilt | main.cpp:121-128 | on a built node with children, the computer's move has the node's minimax value, belongs to the earliest child attaining it, and the descent finds exactly that child |
| Scenarios.NonSpaceConcat | tictactoe.cpp:59-63 | the non-whitespace characters of two texts put together are those of the first followed by those of the second |
| Scenarios.RowNonSpace | tictactoe.cpp:59-63 | a row of three marks and its line break holds just the three marks |
| Scenarios.ThreeRows | tictactoe.cpp:59-63 | three rows of marks with their line breaks hold just the nine marks |
| Scenarios.RowsSplit | tictactoe.cpp:59-63 | the text XOX, XOO, ..X on three lines is those three rows with line breaks, and the start position's cells are the rows joined |
| Scenarios.RowsNonSpace | tictactoe.cpp:59-63 | the three-line text of the start position holds exactly its nine cells as non-whitespace characters |
| Scenarios.ReadRows | tictactoe.cpp:57-65 | reading the start position written as three lines succeeds and gives its cells, with the target's turn flag |
| Scenarios.NoLineAll | tictactoe.cpp:69-124 | eight undecided line tests mean that no line is decided |
| Scenarios.DrawWhenFull | tictactoe.cpp:126-129 | a full board with no complete line is a draw |
| Scenarios.OpenWhenRoom | tictactoe.cpp:126-130 | a board with an empty cell and no complete line is open |
| Scenarios.DrawOutcome | tictactoe.cpp:126-129 | XOX / XOO / OXX is a draw |
| Scenarios.WinOutcome | tictactoe.cpp:90-96 | XOX / XOO / .OX is a win for O through the middle column |
| Scenarios.RootOpen | tictactoe.cpp:126-130 | XOX / XOO / ..X is undecided |
| Scenarios.ReplyOpen | tictactoe.cpp:126-130 | XOX / XOO / O.X is undecided |
| Scenarios.RootEmpties | tictactoe.cpp:6-12 | the empty cells of XOX / XOO / ..X are 6 and 7 |
| Scenarios.RootSpaces | tictactoe.cpp:5-12 | those empty cells are (2, 0) and (2, 1) |
| Scenarios.LegalBoardsOf | tictactoe.cpp:14-19 | with two empty spaces, the legal boards are the two plays on copies, in order |
| Scenarios.StartMoves | tictactoe.hpp:38-41 | O playing (2, 0) or (2, 1) from the start gives the two expected boards |
| Scenarios.RootSuccessors | tictactoe.cpp:4-21 | O's legal boards from the start are cell 6, then cell 7 |
| Scenarios.ReplyIndices | tictactoe.cpp:6-12 | after O takes cell 6, only cell 7 is empty |
| Scenarios.ReplyEmpties | tictactoe.cpp:5-12 | that cell is (2, 1) |
| Scenarios.LegalBoardsOne | tictactoe.cpp:14-19 | with one empty space there is one legal board, that space played on a copy |
| Scenarios.ReplySuccessors | tictactoe.cpp:4-21 | X's only legal board after O takes cell 6 is the full board |
| Scenarios.ReplyTree | main.cpp:169-180 | the subtree after O takes cell 6 is one open node with a drawn leaf |
| Scenarios.OpenTreeOfTwo | main.cpp:173-178 | an open board with two legal boards becomes a node holding their two subtrees in order |
| Scenarios.WinTree | main.cpp:170-172 | the winning board's subtree is a leaf worth -1 |
| Scenarios.RootTree | main.cpp:169-180 | the whole tree below the start: an open node with the cell-6 subtree and the winning leaf |
| Scenarios.OneLeafValue | main.cpp:224-238 | with X to move, a node whose only child is a leaf is worth that leaf |
| Scenarios.ReplyValue | main.cpp:224-238 | the cell-6 subtree is worth 0 (a draw) |
| Scenarios.PickSecond | main.cpp:210-214 | for O, a later child worth -1 replaces an earlier child worth 0 |
| Scenarios.TakesTheWin | main.cpp:194-218 | from the start, minMaxTree for O returns the winning board with value -1 |

## Left out

- The ncurses interface is not modelled: drawing, mouse and key input (`getPlayerInput`), the intro and outro screens, the play-again prompt. The model takes a player's move as a parameter (`GameTree.PlayerMoveHasChild`).
- `main`'s game loop is not modelled as a loop. Its two descent steps are stated as lemmas (`Search.BestMoveOnBuilt`, `GameTree.PlayerMoveHasChild`). The loop's exit test and the turn bookkeeping are not modelled.
- `destroyTree` is not modelled, because the tree is an immutable value with nothing to free. Nor are pointer identity, `new`, and the node copy `root = *e`.
- `getBoard` is not modelled: it hands out the raw cell array for drawing, and the model's cells are visible directly.
- `operator>>` does not model the stream's failure state, nor which input is left unread except after a printed board (`TicTacToe.ParseShow`). When the input runs out before nine characters are read, the model returns None. The code instead sets the fail bit and writes the stale or uninitialised `c` into the remaining cells.
- Search.MinMaxTreeHelper: its own contract gives only the bound of the running best. What it computes is stated by `Search.HelperIsMinimax` for the full window and the windows reached from it. No other windows are characterised.
- A minimizing loop that lowers beta (updating it when `eval < beta`) is not modelled. The code raises beta only, so searched from the full window it never prunes, and that is the behaviour proved.
- The value of the complete game from the empty board (a draw) is not computed. Evaluating all of that tree in a proof is out of reach; a two-ply end game is worked instead (`Scenarios.TakesTheWin`).
- INT32_MIN and INT32_MAX are named constants. No 32-bit wrap-around is modelled, because every value the search compares is 1, 0 or -1, or one of those two constants.
- `detectWin` is a non-const member but changes nothing. The model makes it a pure function.
- The moves do not check their coordinates (the code indexes `board[3 * x + y]` unchecked). The model requires 0 <= 3x+y < 9, which is the range the array allows.
