/**
  The board model of class `Tic`: nine cells in row-major order, each '.', 'X'
  or 'O', and a turn flag that is true when X is to move.  Every operation of
  the class that mutates `*this` is modelled as a function returning the new
  position.
 */
module TicTacToe {

  /**
    The outcome of an operation that can come up empty: extraction that runs
    out of input, or the descent that finds no matching child.
   */
  datatype Option<+T> = None | Some(value: T)

  /** The nine cells of a board, index 3 * row + col. */
  type Cells = s: seq<char> | |s| == 9 witness "........."

  /** A board index. */
  type Cell = i: nat | i < 9

  datatype Tic = Tic(cells: Cells, whiteTurn: bool)

  /** The mark the side to move writes: X when `whiteTurn`, O otherwise. */
  function Mark(whiteTurn: bool): char
  {
    if whiteTurn then 'X' else 'O'
  }

  /** Number of empty cells. */
  function EmptyCount(s: seq<char>): nat
    decreases s
  {
    if s == [] then 0 else (if s[0] == '.' then 1 else 0) + EmptyCount(s[1..])
  }

  /** No empty cell is counted exactly when no cell is '.'; the count never exceeds the length. */
  lemma {:induction false} EmptyCountZero(s: seq<char>)
    ensures EmptyCount(s) == 0 <==> '.' !in s
    ensures EmptyCount(s) <= |s|
    decreases s
  {
    if s != [] {
      EmptyCountZero(s[1..]);
      assert s == [s[0]] + s[1..];
    }
  }

  /** Overwriting one '.' with another character removes one empty cell. */
  lemma {:induction false} EmptyCountFill(s: seq<char>, i: nat, c: char)
    requires i < |s| && s[i] == '.' && c != '.'
    ensures EmptyCount(s[i := c]) == EmptyCount(s) - 1
    decreases s
  {
    if i > 0 {
      EmptyCountFill(s[1..], i - 1, c);
      assert s[i := c][1..] == s[1..][i - 1 := c];
    } else {
      assert s[i := c][1..] == s[1..];
    }
  }

  /** The default constructor: an empty board with X to move. */
  function NewTic(): (r: Tic)
    ensures forall i :: 0 <= i < 9 ==> r.cells[i] == '.'
    ensures r.whiteTurn
    ensures EmptyCount(r.cells) == 9
  {
    Tic(".........", true)
  }

  /** The copy constructor. */
  function CopyOf(obj: Tic): (r: Tic)
    ensures forall i :: 0 <= i < 9 ==> r.cells[i] == obj.cells[i]
    ensures r.whiteTurn == obj.whiteTurn
  {
    Tic(obj.cells, obj.whiteTurn)
  }

  /** The index 3 * x + y that the move methods write to lies on the board. */
  predicate OnBoard(x: int, y: int)
  {
    0 <= 3 * x + y < 9
  }

  /** `placeX`: writes X whatever the turn, and flips the turn. */
  function PlaceX(b: Tic, x: int, y: int): (r: Tic)
    requires OnBoard(x, y)
    ensures r.cells[3 * x + y] == 'X'
    ensures forall i :: 0 <= i < 9 && i != 3 * x + y ==> r.cells[i] == b.cells[i]
    ensures r.whiteTurn == !b.whiteTurn
  {
    Tic(b.cells[3 * x + y := 'X'], !b.whiteTurn)
  }

  /** `placeO`: writes O whatever the turn, and flips the turn. */
  function PlaceO(b: Tic, x: int, y: int): (r: Tic)
    requires OnBoard(x, y)
    ensures r.cells[3 * x + y] == 'O'
    ensures forall i :: 0 <= i < 9 && i != 3 * x + y ==> r.cells[i] == b.cells[i]
    ensures r.whiteTurn == !b.whiteTurn
  {
    Tic(b.cells[3 * x + y := 'O'], !b.whiteTurn)
  }

  /** `playMove(x, y)`: the side to move marks cell 3 * x + y, and the turn passes. */
  function PlayMove(b: Tic, x: int, y: int): (r: Tic)
    requires OnBoard(x, y)
    ensures r.cells[3 * x + y] == Mark(b.whiteTurn)
    ensures forall i :: 0 <= i < 9 && i != 3 * x + y ==> r.cells[i] == b.cells[i]
    ensures r.whiteTurn == !b.whiteTurn
    ensures r == if b.whiteTurn then PlaceX(b, x, y) else PlaceO(b, x, y)
  {
    Tic(b.cells[3 * x + y := if b.whiteTurn then 'X' else 'O'], !b.whiteTurn)
  }

  /** `playMove(loc)`: the pair overload. */
  function PlayMoveAt(b: Tic, loc: (int, int)): (r: Tic)
    requires OnBoard(loc.0, loc.1)
    ensures r == PlayMove(b, loc.0, loc.1)
  {
    Tic(b.cells[3 * loc.0 + loc.1 := if b.whiteTurn then 'X' else 'O'], !b.whiteTurn)
  }

  /** The indices k..8 that hold '.', in increasing order. */
  function EmptyFrom(cells: Cells, k: nat): (r: seq<Cell>)
    requires k <= 9
    decreases 9 - k
    ensures |r| <= 9 - k
    ensures forall j :: 0 <= j < |r| ==> k <= r[j] && cells[r[j]] == '.'
    ensures forall j, l :: 0 <= j < l < |r| ==> r[j] < r[l]
    ensures forall i :: k <= i < 9 && cells[i] == '.' ==> i in r
  {
    if k == 9 then []
    else if cells[k] == '.' then [k] + EmptyFrom(cells, k + 1)
    else EmptyFrom(cells, k + 1)
  }

  /** There are as many empty indices from k on as empty cells in cells[k..]. */
  lemma {:induction false} EmptyFromCount(cells: Cells, k: nat)
    requires k <= 9
    ensures |EmptyFrom(cells, k)| == EmptyCount(cells[k..])
    decreases 9 - k
  {
    if k < 9 {
      EmptyFromCount(cells, k + 1);
      assert cells[k..][1..] == cells[k + 1..];
    }
  }

  /** The empty cells of the board, in increasing index order. */
  function EmptyIndices(cells: Cells): (r: seq<Cell>)
    ensures |r| == EmptyCount(cells) <= 9
    ensures forall j :: 0 <= j < |r| ==> cells[r[j]] == '.'
    ensures forall j, l :: 0 <= j < l < |r| ==> r[j] < r[l]
    ensures forall i :: 0 <= i < 9 && cells[i] == '.' ==> i in r
  {
    EmptyFromCount(cells, 0);
    assert cells[0..] == cells;
    EmptyFrom(cells, 0)
  }

  /** The `emptySpaces` vector: (row, col) = (i / 3, i % 3) of each empty cell i. */
  function EmptySpaces(cells: Cells): (r: seq<(int, int)>)
    ensures |r| == EmptyCount(cells)
    ensures forall j :: 0 <= j < |r| ==>
      0 <= r[j].0 < 3 && 0 <= r[j].1 < 3 && 3 * r[j].0 + r[j].1 == EmptyIndices(cells)[j]
  {
    var e := EmptyIndices(cells);
    seq(|e|, j requires 0 <= j < |e| => (e[j] / 3, e[j] % 3))
  }

  /** `s` is `b` with empty cell `i` marked by the side to move and the turn passed. */
  predicate SuccessorAt(b: Tic, s: Tic, i: Cell)
  {
    && b.cells[i] == '.'
    && s.cells[i] == Mark(b.whiteTurn)
    && (forall k :: 0 <= k < 9 && k != i ==> s.cells[k] == b.cells[k])
    && s.whiteTurn == !b.whiteTurn
  }

  /** Filling one empty cell with a mark leaves one empty cell fewer. */
  lemma FillOneEmpty(b: Tic, s: Tic, i: Cell)
    requires SuccessorAt(b, s, i)
    ensures EmptyCount(s.cells) == EmptyCount(b.cells) - 1
  {
    assert s.cells == b.cells[i := Mark(b.whiteTurn)];
    EmptyCountFill(b.cells, i, Mark(b.whiteTurn));
  }

  /** Playing the j-th empty space gives the successor at the j-th empty index. */
  lemma PlaySpace(b: Tic, j: nat)
    requires j < |EmptySpaces(b.cells)|
    ensures OnBoard(EmptySpaces(b.cells)[j].0, EmptySpaces(b.cells)[j].1)
    ensures SuccessorAt(b, PlayMoveAt(CopyOf(b), EmptySpaces(b.cells)[j]), EmptyIndices(b.cells)[j])
    ensures EmptyCount(PlayMoveAt(CopyOf(b), EmptySpaces(b.cells)[j]).cells) == EmptyCount(b.cells) - 1
  {
    var i := EmptyIndices(b.cells)[j];
    var s := PlayMoveAt(CopyOf(b), EmptySpaces(b.cells)[j]);
    assert b.cells[i] == '.';
    assert SuccessorAt(b, s, i);
    FillOneEmpty(b, s, i);
  }

  /** `getLegalBoards`: one successor per empty cell, in increasing cell order. */
  function LegalBoards(b: Tic): (r: seq<Tic>)
    ensures |r| == EmptyCount(b.cells)
    ensures forall j :: 0 <= j < |r| ==> SuccessorAt(b, r[j], EmptyIndices(b.cells)[j])
    ensures forall j :: 0 <= j < |r| ==> EmptyCount(r[j].cells) == EmptyCount(b.cells) - 1
  {
    var spaces := EmptySpaces(b.cells);
    var r := seq(|spaces|, j requires 0 <= j < |spaces| => PlayMoveAt(CopyOf(b), spaces[j]));
    forall j | 0 <= j < |r|
      ensures SuccessorAt(b, r[j], EmptyIndices(b.cells)[j])
      ensures EmptyCount(r[j].cells) == EmptyCount(b.cells) - 1
    {
      PlaySpace(b, j);
    }
    r
  }

  /** Distinct successors differ in their cells, so the children of a node are distinct positions. */
  lemma LegalBoardsDistinct(b: Tic, j: nat, l: nat)
    requires j < l < |LegalBoards(b)|
    ensures LegalBoards(b)[j].cells != LegalBoards(b)[l].cells
  {
    var e := EmptyIndices(b.cells);
    var r := LegalBoards(b);
    assert SuccessorAt(b, r[j], e[j]) && SuccessorAt(b, r[l], e[l]);
    assert r[j].cells[e[j]] != r[l].cells[e[j]];
  }

  /** Cell 3 * row + col sits at row (3 * row + col) / 3 and column (3 * row + col) % 3. */
  lemma RowCol(row: int, col: int)
    requires 0 <= row < 3 && 0 <= col < 3
    ensures (3 * row + col) / 3 == row && (3 * row + col) % 3 == col
  {
    if row == 0 {
    } else if row == 1 {
    } else {
    }
  }

  /** An in-range empty cell is listed among the empty spaces as its own (row, col). */
  lemma EmptySpaceFound(b: Tic, row: int, col: int)
    requires 0 <= row < 3 && 0 <= col < 3 && b.cells[3 * row + col] == '.'
    ensures exists j :: 0 <= j < |EmptySpaces(b.cells)| && EmptySpaces(b.cells)[j] == (row, col)
  {
    var e := EmptyIndices(b.cells);
    var i: Cell := 3 * row + col;
    assert i in e;
    var j :| 0 <= j < |e| && e[j] == i;
    RowCol(row, col);
    assert EmptySpaces(b.cells)[j] == (i / 3, i % 3);
  }

  /** (row, col) is among the empty spaces exactly when it is in range and its cell is empty. */
  lemma EmptySpaceListed(b: Tic, row: int, col: int)
    ensures (exists j :: 0 <= j < |EmptySpaces(b.cells)| && EmptySpaces(b.cells)[j] == (row, col))
        <==> 0 <= row < 3 && 0 <= col < 3 && b.cells[3 * row + col] == '.'
  {
    var spaces := EmptySpaces(b.cells);
    if 0 <= row < 3 && 0 <= col < 3 && b.cells[3 * row + col] == '.' {
      EmptySpaceFound(b, row, col);
    }
    if j :| 0 <= j < |spaces| && spaces[j] == (row, col) {
      assert 3 * row + col == EmptyIndices(b.cells)[j];
    }
  }

  /** `isLegalMove`: (row, col) is one of the empty spaces. */
  function IsLegalMove(b: Tic, row: int, col: int): (r: bool)
    ensures r <==> 0 <= row < 3 && 0 <= col < 3 && b.cells[3 * row + col] == '.'
  {
    EmptySpaceListed(b, row, col);
    exists j :: 0 <= j < |EmptySpaces(b.cells)| && EmptySpaces(b.cells)[j] == (row, col)
  }

  /** The successor at cell 3 * row + col is the board `playMove(row, col)` gives. */
  lemma SuccessorIsPlay(b: Tic, s: Tic, row: int, col: int)
    requires OnBoard(row, col)
    requires SuccessorAt(b, s, 3 * row + col)
    ensures s == PlayMove(b, row, col)
  {
    var p := PlayMove(b, row, col);
    forall m | 0 <= m < 9
      ensures s.cells[m] == p.cells[m]
    {
    }
    assert s.cells == p.cells;
  }

  /** A legal move gives one of the successor boards. */
  lemma LegalMoveGivesSuccessor(b: Tic, row: int, col: int)
    requires 0 <= row < 3 && 0 <= col < 3 && b.cells[3 * row + col] == '.'
    ensures PlayMove(b, row, col) in LegalBoards(b)
  {
    var i: Cell := 3 * row + col;
    var e := EmptyIndices(b.cells);
    var r := LegalBoards(b);
    assert i in e;
    var k :| 0 <= k < |e| && e[k] == i;
    assert SuccessorAt(b, r[k], i);
    SuccessorIsPlay(b, r[k], row, col);
  }

  /** A move whose board is a successor board marks an empty cell. */
  lemma SuccessorMarksEmpty(b: Tic, row: int, col: int)
    requires OnBoard(row, col)
    requires PlayMove(b, row, col) in LegalBoards(b)
    ensures b.cells[3 * row + col] == '.'
  {
    var r := LegalBoards(b);
    var e := EmptyIndices(b.cells);
    var k :| 0 <= k < |r| && r[k] == PlayMove(b, row, col);
    assert SuccessorAt(b, r[k], e[k]);
    assert e[k] == 3 * row + col;
  }

  /**
    For in-range coordinates, a move is legal exactly when the board it
    gives is one of the legal successor boards.
   */
  lemma LegalMoveIsSuccessor(b: Tic, row: int, col: int)
    requires 0 <= row < 3 && 0 <= col < 3
    ensures IsLegalMove(b, row, col) <==> PlayMove(b, row, col) in LegalBoards(b)
  {
    if IsLegalMove(b, row, col) {
      LegalMoveGivesSuccessor(b, row, col);
    }
    if PlayMove(b, row, col) in LegalBoards(b) {
      SuccessorMarksEmpty(b, row, col);
    }
  }

  /** The cells of `lhs` and `rhs` agree from index i on. */
  function CellsAgreeFrom(lhs: Tic, rhs: Tic, i: nat): (r: bool)
    requires i <= 9
    decreases 9 - i
    ensures r <==> forall k :: i <= k < 9 ==> lhs.cells[k] == rhs.cells[k]
  {
    i == 9 || (lhs.cells[i] == rhs.cells[i] && CellsAgreeFrom(lhs, rhs, i + 1))
  }

  /** `operator==`: compares the nine cells; the turn flag plays no part. */
  function SameCells(lhs: Tic, rhs: Tic): (r: bool)
    ensures r <==> lhs.cells == rhs.cells
  {
    CellsAgreeFrom(lhs, rhs, 0)
  }

  /** `operator<<`: the nine cells, then a newline. */
  function Show(obj: Tic): (r: string)
    ensures |r| == 10 && r[9] == '\n'
    ensures forall i :: 0 <= i < 9 ==> r[i] == obj.cells[i]
  {
    obj.cells + "\n"
  }

  /** The characters `std::istream` skips before a formatted read in the C locale. */
  predicate IsSpace(c: char)
  {
    c == ' ' || '\t' <= c <= '\r'
  }

  /** The first index at or after i that does not hold whitespace (or |input|). */
  function SkipSpace(input: string, i: nat): (n: nat)
    requires i <= |input|
    decreases |input| - i
    ensures i <= n <= |input|
    ensures forall k :: i <= k < n ==> IsSpace(input[k])
    ensures n < |input| ==> !IsSpace(input[n])
  {
    if i == |input| || !IsSpace(input[i]) then i else SkipSpace(input, i + 1)
  }

  /** One `in >> c` into a char: skip whitespace, take the next character. */
  function ReadChar(input: string): (r: Option<(char, string)>)
    ensures r.None? <==> forall k :: 0 <= k < |input| ==> IsSpace(input[k])
    ensures r.Some? ==> !IsSpace(r.value.0) && |r.value.1| < |input|
    ensures r.Some? ==> exists n :: 0 <= n < |input| && (forall k :: 0 <= k < n ==> IsSpace(input[k]))
                                    && r.value == (input[n], input[n + 1..])
  {
    var n := SkipSpace(input, 0);
    if n == |input| then None else Some((input[n], input[n + 1..]))
  }

  /** The loop of `operator>>` from cell i on: each character read that is not '\n' overwrites the cell. */
  function ReadCells(input: string, obj: Tic, i: nat): (r: Option<(Tic, string)>)
    requires i <= 9
    decreases 9 - i
    ensures r.Some? ==> r.value.0.whiteTurn == obj.whiteTurn
    ensures r.Some? ==> forall k :: 0 <= k < i ==> r.value.0.cells[k] == obj.cells[k]
    ensures r.Some? ==> forall k :: i <= k < 9 ==> !IsSpace(r.value.0.cells[k])
  {
    if i == 9 then Some((obj, input))
    else
      match ReadChar(input)
      case None => None
      case Some((c, rest)) =>
        var next := if c != '\n' then obj.(cells := obj.cells[i := c]) else obj;
        ReadCells(rest, next, i + 1)
  }

  /**
    `operator>>`: the board with its cells read from `input`, and the unread
    rest; None when the input runs out first.  The turn flag is left alone.
   */
  function Parse(input: string, obj: Tic): (r: Option<(Tic, string)>)
    ensures r.Some? ==> r.value.0.whiteTurn == obj.whiteTurn
    ensures r.Some? ==> forall k :: 0 <= k < 9 ==> !IsSpace(r.value.0.cells[k])
    ensures |input| < 9 ==> r.None?
  {
    if |input| < 9 then
      ReadCellsShortInput(input, obj, 0);
      ReadCells(input, obj, 0)
    else
      ReadCells(input, obj, 0)
  }

  /** The characters of `s` that are not whitespace, in order. */
  function NonSpace(s: string): string
    decreases s
  {
    if s == [] then [] else (if IsSpace(s[0]) then [] else [s[0]]) + NonSpace(s[1..])
  }

  /** Leading whitespace contributes nothing to `NonSpace`. */
  lemma {:induction false} NonSpaceSkip(s: string, n: nat)
    requires n <= |s|
    requires forall k :: 0 <= k < n ==> IsSpace(s[k])
    ensures NonSpace(s) == NonSpace(s[n..])
    decreases n
  {
    if n > 0 {
      assert IsSpace(s[0]);
      assert s[1..][n - 1..] == s[n..];
      NonSpaceSkip(s[1..], n - 1);
    }
  }

  /**
    One extraction takes the first non-whitespace character: it fails when
    there is none, and otherwise the rest holds the remaining ones.
   */
  lemma ReadCharNonSpace(input: string)
    ensures ReadChar(input).None? <==> NonSpace(input) == []
    ensures ReadChar(input).Some? ==>
      NonSpace(input) == [ReadChar(input).value.0] + NonSpace(ReadChar(input).value.1)
  {
    var n := SkipSpace(input, 0);
    NonSpaceSkip(input, n);
    if n < |input| {
      assert input[n..][1..] == input[n + 1..];
    } else {
      assert input[n..] == [];
    }
  }

  /**
    The read loop from cell i on succeeds exactly when the input holds at
    least 9 - i non-whitespace characters, and then cells i..8 are the first
    9 - i of them.
   */
  lemma {:induction false} ReadCellsNonSpace(input: string, obj: Tic, i: nat)
    requires i <= 9
    ensures ReadCells(input, obj, i).Some? <==> |NonSpace(input)| >= 9 - i
    ensures ReadCells(input, obj, i).Some? ==>
      ReadCells(input, obj, i).value.0.cells == obj.cells[..i] + NonSpace(input)[..9 - i]
    decreases 9 - i
  {
    ReadCharNonSpace(input);
    if i == 9 {
      assert obj.cells[..9] == obj.cells;
    } else {
      match ReadChar(input)
      case None =>
      case Some((c, rest)) =>
        assert c != '\n';
        var next := obj.(cells := obj.cells[i := c]);
        ReadCellsNonSpace(rest, next, i + 1);
        if |NonSpace(rest)| >= 8 - i {
          PrefixStep(obj.cells, i, c, NonSpace(rest));
        }
    }
  }

  /** Writing c into cell i extends the kept prefix by c. */
  lemma PrefixStep(cells: Cells, i: nat, c: char, rest: string)
    requires i < 9 && |rest| >= 8 - i
    ensures cells[i := c][..i + 1] + rest[..8 - i] == cells[..i] + ([c] + rest)[..9 - i]
  {
    assert cells[i := c][..i + 1] == cells[..i] + [c];
    assert ([c] + rest)[..9 - i] == [c] + rest[..8 - i];
  }

  /**
    `operator>>` on any input: it succeeds exactly when the input holds at
    least nine non-whitespace characters, and then the cells are the first
    nine of them and the turn flag is the target's.
   */
  lemma ParseNonSpace(input: string, obj: Tic)
    ensures Parse(input, obj).Some? <==> |NonSpace(input)| >= 9
    ensures Parse(input, obj).Some? ==>
      Parse(input, obj).value.0.cells == NonSpace(input)[..9]
      && Parse(input, obj).value.0.whiteTurn == obj.whiteTurn
  {
    ReadCellsNonSpace(input, obj, 0);
    assert obj.cells[..0] == [];
  }

  /** Each read consumes a character, so fewer than 9 - i characters cannot fill cells i..8. */
  lemma {:induction false} ReadCellsShortInput(input: string, obj: Tic, i: nat)
    requires i <= 9
    requires |input| < 9 - i
    ensures ReadCells(input, obj, i).None?
    decreases 9 - i
  {
    match ReadChar(input)
    case None =>
    case Some((c, rest)) =>
      var next := if c != '\n' then obj.(cells := obj.cells[i := c]) else obj;
      ReadCellsShortInput(rest, next, i + 1);
  }

  /** Reading the remaining cells of a printed board restores them and leaves the newline unread. */
  lemma {:induction false} ReadCellsShown(b: Tic, obj: Tic, i: nat)
    requires i <= 9
    requires forall k :: 0 <= k < 9 ==> !IsSpace(b.cells[k])
    requires forall k :: 0 <= k < i ==> obj.cells[k] == b.cells[k]
    ensures ReadCells(b.cells[i..] + "\n", obj, i) == Some((Tic(b.cells, obj.whiteTurn), "\n"))
    decreases 9 - i
  {
    var input := b.cells[i..] + "\n";
    if i == 9 {
      assert obj.cells == b.cells;
      assert input == "\n";
    } else {
      assert input[0] == b.cells[i];
      assert SkipSpace(input, 0) == 0;
      assert input[1..] == b.cells[i + 1..] + "\n";
      var next := obj.(cells := obj.cells[i := b.cells[i]]);
      ReadCellsShown(b, next, i + 1);
    }
  }

  /**
    Parsing what `operator<<` printed restores the nine cells when no cell is
    whitespace; the turn flag stays that of the target, and the newline is left.
   */
  lemma ParseShow(b: Tic, obj: Tic)
    requires forall k :: 0 <= k < 9 ==> !IsSpace(b.cells[k])
    ensures Parse(Show(b), obj) == Some((Tic(b.cells, obj.whiteTurn), "\n"))
  {
    assert b.cells[0..] == b.cells;
    ReadCellsShown(b, obj, 0);
  }

  /** Every cell holds '.', 'X' or 'O'. */
  predicate WellFormed(b: Tic)
  {
    forall i :: 0 <= i < 9 ==> b.cells[i] == '.' || b.cells[i] == 'X' || b.cells[i] == 'O'
  }

  /** The new board is well formed, and every legal successor of a well-formed board is too. */
  lemma WellFormedBoards(b: Tic)
    requires WellFormed(b)
    ensures WellFormed(NewTic())
    ensures forall j :: 0 <= j < |LegalBoards(b)| ==> WellFormed(LegalBoards(b)[j])
  {
    var r := LegalBoards(b);
    forall j | 0 <= j < |r|
      ensures WellFormed(r[j])
    {
      assert SuccessorAt(b, r[j], EmptyIndices(b.cells)[j]);
    }
  }

  /**
    Printing a well-formed board and reading the text back into the same
    object gives that board again, with only the newline left unread.
   */
  lemma ShowParseRoundTrip(b: Tic)
    requires WellFormed(b)
    ensures Parse(Show(b), b) == Some((b, "\n"))
  {
    ParseShow(b, b);
  }

  /** The eight lines, in the order `detectWin` tests them. */
  const Lines: seq<(Cell, Cell, Cell)> :=
    [(0, 1, 2), (0, 4, 8), (0, 3, 6), (1, 4, 7), (2, 4, 6), (2, 5, 8), (3, 4, 5), (6, 7, 8)]

  /** The first half of `detectWin`'s result when nothing is decided yet. */
  const NoResult: int := -31337

  /** Line k holds three m marks. */
  predicate Complete(cells: Cells, k: nat, m: char)
    requires k < 8
  {
    cells[Lines[k].0] == m && cells[Lines[k].1] == m && cells[Lines[k].2] == m
  }

  /** Line k holds three X or three O. */
  predicate Decided(cells: Cells, k: nat)
    requires k < 8
  {
    Complete(cells, k, 'X') || Complete(cells, k, 'O')
  }

  /** Line j is the first decided line from k on, and its mark is m. */
  predicate FirstWinFrom(cells: Cells, k: nat, j: nat, m: char)
    requires k <= j < 8
  {
    Complete(cells, j, m) && forall l :: k <= l < j ==> !Decided(cells, l)
  }

  /** No line from k on is decided. */
  predicate NoLineFrom(cells: Cells, k: nat)
    requires k <= 8
  {
    forall l :: k <= l < 8 ==> !Decided(cells, l)
  }

  /** Past an undecided line k, the first win from k is the first win from k + 1. */
  lemma FirstWinShift(cells: Cells, k: nat, next: nat, m: char)
    requires k < 8 && next == k + 1 && !Decided(cells, k)
    requires m == 'X' || m == 'O'
    ensures (exists j :: k <= j < 8 && FirstWinFrom(cells, k, j, m))
        <==> (exists j :: next <= j < 8 && FirstWinFrom(cells, next, j, m))
  {
    if j :| k <= j < 8 && FirstWinFrom(cells, k, j, m) {
      assert j != k;
      assert FirstWinFrom(cells, next, j, m);
    }
    if j :| next <= j < 8 && FirstWinFrom(cells, next, j, m) {
      assert FirstWinFrom(cells, k, j, m);
    }
  }

  /** The line tests of `detectWin` from line k on, then the full-board test. */
  function ScanLines(cells: Cells, k: nat): (r: (int, bool))
    requires k <= 8
    decreases 8 - k
    ensures r == (1, true) <==> exists j :: k <= j < 8 && FirstWinFrom(cells, k, j, 'X')
    ensures r == (-1, true) <==> exists j :: k <= j < 8 && FirstWinFrom(cells, k, j, 'O')
    ensures r == (0, true) <==> NoLineFrom(cells, k) && '.' !in cells
    ensures r == (NoResult, false) <==> NoLineFrom(cells, k) && '.' in cells
    ensures r in {(1, true), (-1, true), (0, true), (NoResult, false)}
  {
    if k == 8 then
      if '.' !in cells then (0, true) else (NoResult, false)
    else
      var (a, b, c) := Lines[k];
      if cells[a] == cells[b] && cells[b] == cells[c] && cells[a] == 'X' then
        assert FirstWinFrom(cells, k, k, 'X') && Decided(cells, k) && !Complete(cells, k, 'O');
        (1, true)
      else if cells[a] == cells[b] && cells[b] == cells[c] && cells[a] == 'O' then
        assert FirstWinFrom(cells, k, k, 'O') && Decided(cells, k) && !Complete(cells, k, 'X');
        (-1, true)
      else
        assert !Decided(cells, k);
        FirstWinShift(cells, k, k + 1, 'X');
        FirstWinShift(cells, k, k + 1, 'O');
        ScanLines(cells, k + 1)
  }

  /**
    `detectWin`: terminal exactly when some line holds three X or three O or
    no cell is empty; a terminal result carries 1, -1 or 0.
   */
  function DetectWin(b: Tic): (r: (int, bool))
    ensures r.1 <==> !NoLineFrom(b.cells, 0) || EmptyCount(b.cells) == 0
    ensures r.1 ==> r.0 in {-1, 0, 1}
  {
    EmptyCountZero(b.cells);
    ScanLines(b.cells, 0)
  }

  /**
    The four outcomes of `detectWin`: (1, true) when the first complete line
    in the fixed order is X's, (-1, true) when it is O's; with no complete
    line, (0, true) on a full board and (NoResult, false) otherwise.
   */
  lemma DetectWinOutcome(b: Tic)
    ensures DetectWin(b) == (1, true) <==> exists j :: 0 <= j < 8 && FirstWinFrom(b.cells, 0, j, 'X')
    ensures DetectWin(b) == (-1, true) <==> exists j :: 0 <= j < 8 && FirstWinFrom(b.cells, 0, j, 'O')
    ensures DetectWin(b) == (0, true) <==> NoLineFrom(b.cells, 0) && '.' !in b.cells
    ensures DetectWin(b) == (NoResult, false) <==> NoLineFrom(b.cells, 0) && '.' in b.cells
  {
  }

  /** The empty board is not terminal. */
  lemma EmptyBoardOpen()
    ensures DetectWin(NewTic()) == (NoResult, false)
  {
    var c := NewTic().cells;
    assert c[0] == '.';
    forall l | 0 <= l < 8
      ensures !Decided(c, l)
    {
      assert c[Lines[l].0] == '.';
    }
  }

  /** On a board with two complete lines, the one checked first decides. */
  lemma FirstLineDecides()
    ensures DetectWin(Tic("OOOXXX...", true)) == (-1, true)
    ensures DetectWin(Tic("XXXOOO...", false)) == (1, true)
  {
    assert FirstWinFrom(Tic("OOOXXX...", true).cells, 0, 0, 'O');
    assert FirstWinFrom(Tic("XXXOOO...", false).cells, 0, 0, 'X');
  }
}
