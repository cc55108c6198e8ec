/**
  The search of `main.cpp`: `minMaxTreeHelper`, an alpha-beta minimax over a
  built tree, and `minMaxTree`, which picks the best child of a node.  The
  helper's loops over the children, with their `break`, are folds over the
  child sequence that carry a `Window` of (alpha, beta, best so far).

  As written, the minimizing loop only ever raises beta, so when the search
  starts from the full window beta stays at the largest 32-bit integer, no
  cutoff fires, and the helper computes plain minimax (`HelperIsMinimax`).
 */
module Search {
  import opened TicTacToe
  import opened GameTree

  const Int32Min: int := -0x8000_0000
  const Int32Max: int := 0x7fff_ffff

  /** The loop state of `minMaxTreeHelper`: the two bounds and the best value so far. */
  datatype Window = Window(alpha: int, beta: int, best: int)

  /**
    `minMaxTreeHelper(root, alpha, beta, XtoMove)`.  On an open node the
    running best starts at the mover's worst 32-bit value and only improves,
    so X never gets less than INT32_MIN and O never more than INT32_MAX.
    What the value is, is `HelperIsMinimax`.
   */
  function MinMaxTreeHelper(n: Node, alpha: int, beta: int, xToMove: bool): (r: int)
    decreases n
    ensures !n.isTerminal ==> if xToMove then r >= Int32Min else r <= Int32Max
  {
    if n.isTerminal then n.eval
    else if xToMove then MaxLoop(n.children, Window(alpha, beta, Int32Min)).best
    else MinLoop(n.children, Window(alpha, beta, Int32Max)).best
  }

  /**
    The maximizing loop over the remaining children `cs`: raise the best value
    and alpha to each child's value, stop once beta <= alpha.  Beta is carried
    unchanged, and alpha and the best value only grow.
   */
  function MaxLoop(cs: seq<Node>, w: Window): (r: Window)
    decreases cs
    ensures r.beta == w.beta
    ensures r.alpha >= w.alpha && r.best >= w.best
  {
    if cs == [] then w
    else
      var eval := MinMaxTreeHelper(cs[0], w.alpha, w.beta, false);
      var best := if eval > w.best then eval else w.best;
      var alpha := if eval > w.alpha then eval else w.alpha;
      var next := Window(alpha, w.beta, best);
      if next.beta <= next.alpha then next else MaxLoop(cs[1..], next)
  }

  /**
    The minimizing loop over the remaining children `cs`: lower the best value
    to each child's value, and set beta to the child's value only when that
    is ABOVE beta; stop once beta <= alpha.  Alpha is carried unchanged, beta
    is never lowered, and the best value only falls.
   */
  function MinLoop(cs: seq<Node>, w: Window): (r: Window)
    decreases cs
    ensures r.alpha == w.alpha
    ensures r.beta >= w.beta && r.best <= w.best
  {
    if cs == [] then w
    else
      var eval := MinMaxTreeHelper(cs[0], w.alpha, w.beta, true);
      var best := if eval < w.best then eval else w.best;
      var beta := if w.beta < eval then eval else w.beta;
      var next := Window(w.alpha, beta, best);
      if next.beta <= next.alpha then next else MinLoop(cs[1..], next)
  }

  /** The larger of `acc` and every element of `s`. */
  function MaxFrom(acc: int, s: seq<int>): (m: int)
    decreases s
    ensures m >= acc
    ensures forall j :: 0 <= j < |s| ==> s[j] <= m
    ensures m == acc || exists j :: 0 <= j < |s| && s[j] == m
  {
    if s == [] then acc
    else MaxFrom(if s[0] > acc then s[0] else acc, s[1..])
  }

  /** The smaller of `acc` and every element of `s`. */
  function MinFrom(acc: int, s: seq<int>): (m: int)
    decreases s
    ensures m <= acc
    ensures forall j :: 0 <= j < |s| ==> m <= s[j]
    ensures m == acc || exists j :: 0 <= j < |s| && s[j] == m
  {
    if s == [] then acc
    else MinFrom(if s[0] < acc then s[0] else acc, s[1..])
  }

  /** The minimax value of each of `cs` with `xToMove` to play. */
  function Scores(cs: seq<Node>, xToMove: bool): (r: seq<int>)
    decreases cs
    ensures |r| == |cs|
    ensures forall j :: 0 <= j < |cs| ==> r[j] == Minimax(cs[j], xToMove)
  {
    if cs == [] then [] else [Minimax(cs[0], xToMove)] + Scores(cs[1..], xToMove)
  }

  /**
    Plain minimax, the reference the helper is compared with: a terminal node
    is worth its cached eval; otherwise X takes the largest and O the smallest
    value over all children, starting from the 32-bit extremes as
    `minMaxTreeHelper` does.
   */
  function Minimax(n: Node, xToMove: bool): int
    decreases n
  {
    if n.isTerminal then n.eval
    else if xToMove then MaxFrom(Int32Min, Scores(n.children, false))
    else MinFrom(Int32Max, Scores(n.children, true))
  }

  /**
    What the search needs of a tree: terminal nodes are leaves holding an
    outcome 1, 0 or -1, and open nodes have at least one child.
   */
  ghost predicate Scored(n: Node)
    decreases n
  {
    && (n.isTerminal ==> n.eval in {-1, 0, 1} && n.children == [])
    && (!n.isTerminal ==> |n.children| > 0 && forall j :: 0 <= j < |n.children| ==> Scored(n.children[j]))
  }

  /** Every tree `buildTree` makes is fit for the search. */
  lemma {:induction false} BuiltScored(n: Node)
    requires Built(n)
    ensures Scored(n)
    decreases n
  {
    if !n.isTerminal {
      OpenHasChildren(n);
      forall j | 0 <= j < |n.children|
        ensures Scored(n.children[j])
      {
        BuiltScored(n.children[j]);
      }
    }
  }

  /** On a scored tree every minimax value is a game outcome: 1, 0 or -1. */
  lemma {:induction false} MinimaxRange(n: Node, xToMove: bool)
    requires Scored(n)
    ensures Minimax(n, xToMove) in {-1, 0, 1}
    decreases n
  {
    if !n.isTerminal {
      var s := Scores(n.children, !xToMove);
      forall j | 0 <= j < |s|
        ensures s[j] in {-1, 0, 1}
      {
        MinimaxRange(n.children[j], !xToMove);
      }
      assert s[0] in {-1, 0, 1};
    }
  }

  /**
    Under a window whose beta is the largest 32-bit integer and whose alpha
    is below it, the maximizing loop over scored children never cuts off: its
    best value is the maximum over all of them, beta is unchanged, and alpha
    ends no higher than the larger of its start and 1.
   */
  lemma {:induction false} MaxLoopFull(cs: seq<Node>, alpha: int, best: int)
    requires forall j :: 0 <= j < |cs| ==> Scored(cs[j])
    requires alpha < Int32Max
    ensures MaxLoop(cs, Window(alpha, Int32Max, best)).best == MaxFrom(best, Scores(cs, false))
    ensures MaxLoop(cs, Window(alpha, Int32Max, best)).beta == Int32Max
    ensures MaxLoop(cs, Window(alpha, Int32Max, best)).alpha <= if alpha > 1 then alpha else 1
    decreases cs, 0
  {
    if cs != [] {
      var w := Window(alpha, Int32Max, best);
      HelperIsMinimax(cs[0], alpha, false);
      var eval := Minimax(cs[0], false);
      var alpha' := if eval > alpha then eval else alpha;
      var best' := if eval > best then eval else best;
      var next := Window(alpha', Int32Max, best');
      assert MaxLoop(cs, w) == MaxLoop(cs[1..], next);
      MaxLoopFull(cs[1..], alpha', best');
      assert MaxFrom(best, Scores(cs, false)) == MaxFrom(best', Scores(cs[1..], false));
    }
  }

  /**
    Under the same window, the minimizing loop over scored children never cuts
    off either: its best value is the minimum over all of them, and beta,
    which this loop can only raise, stays the largest 32-bit integer.
   */
  lemma {:induction false} MinLoopFull(cs: seq<Node>, alpha: int, best: int)
    requires forall j :: 0 <= j < |cs| ==> Scored(cs[j])
    requires alpha < Int32Max
    ensures MinLoop(cs, Window(alpha, Int32Max, best)).best == MinFrom(best, Scores(cs, true))
    ensures MinLoop(cs, Window(alpha, Int32Max, best)).beta == Int32Max
    ensures MinLoop(cs, Window(alpha, Int32Max, best)).alpha == alpha
    decreases cs, 0
  {
    if cs != [] {
      var w := Window(alpha, Int32Max, best);
      HelperIsMinimax(cs[0], alpha, true);
      var eval := Minimax(cs[0], true);
      var best' := if eval < best then eval else best;
      var next := Window(alpha, Int32Max, best');
      assert MinLoop(cs, w) == MinLoop(cs[1..], next);
      MinLoopFull(cs[1..], alpha, best');
      assert MinFrom(best, Scores(cs, true)) == MinFrom(best', Scores(cs[1..], true));
    }
  }

  /**
    On a scored tree, with beta the largest 32-bit integer and any alpha below
    it, the helper returns the plain minimax value, which is 1, 0 or -1; on a
    terminal node that is its cached eval.
   */
  lemma {:induction false} HelperIsMinimax(n: Node, alpha: int, xToMove: bool)
    requires Scored(n)
    requires alpha < Int32Max
    ensures MinMaxTreeHelper(n, alpha, Int32Max, xToMove) == Minimax(n, xToMove)
    ensures MinMaxTreeHelper(n, alpha, Int32Max, xToMove) in {-1, 0, 1}
    ensures n.isTerminal ==> MinMaxTreeHelper(n, alpha, Int32Max, xToMove) == n.eval
    decreases n, 1
  {
    MinimaxRange(n, xToMove);
    if !n.isTerminal {
      if xToMove {
        MaxLoopFull(n.children, alpha, Int32Min);
      } else {
        MinLoopFull(n.children, alpha, Int32Max);
      }
    }
  }

  /** Value a strictly beats b for the side to move: greater for X, smaller for O. */
  predicate Beats(xToMove: bool, a: int, b: int)
  {
    if xToMove then a > b else a < b
  }

  /** The helper's value of child j, searched from the full window with the other side to move. */
  function ChildScore(cs: seq<Node>, j: nat, xToMove: bool): int
    requires j < |cs|
  {
    MinMaxTreeHelper(cs[j], Int32Min, Int32Max, !xToMove)
  }

  /**
    The loop of `minMaxTree` from child i on, holding the board chosen so far
    and its value: a child replaces them only when its value strictly beats
    the held one.  The result is beaten by no remaining child, and it is
    either what was held or the earliest child attaining its value.
   */
  function PickFrom(cs: seq<Node>, i: nat, xToMove: bool, chosen: Tic, value: int): (r: (Tic, int))
    requires i <= |cs|
    decreases |cs| - i
    ensures forall j :: i <= j < |cs| ==> !Beats(xToMove, ChildScore(cs, j, xToMove), r.1)
    ensures !Beats(xToMove, value, r.1)
    ensures || r == (chosen, value)
            || exists k :: i <= k < |cs| && r == (cs[k].board, ChildScore(cs, k, xToMove))
                             && Beats(xToMove, r.1, value)
                             && forall j :: i <= j < k ==> ChildScore(cs, j, xToMove) != r.1
  {
    if i == |cs| then (chosen, value)
    else
      var eval := MinMaxTreeHelper(cs[i], Int32Min, Int32Max, !xToMove);
      if xToMove then
        if eval > value then PickFrom(cs, i + 1, xToMove, cs[i].board, eval)
        else PickFrom(cs, i + 1, xToMove, chosen, value)
      else
        if eval < value then PickFrom(cs, i + 1, xToMove, cs[i].board, eval)
        else PickFrom(cs, i + 1, xToMove, chosen, value)
  }

  /**
    `minMaxTree(root, XtoMove)`: the board of the best child and its value,
    starting from a default board and the worst 32-bit value for the mover.
    With no children that start is returned unchanged.
   */
  function MinMaxTree(n: Node, xToMove: bool): (r: (Tic, int))
    ensures n.children == [] ==> r == (NewTic(), if xToMove then Int32Min else Int32Max)
    ensures forall j :: 0 <= j < |n.children| ==> !Beats(xToMove, ChildScore(n.children, j, xToMove), r.1)
    ensures || r == (NewTic(), if xToMove then Int32Min else Int32Max)
            || exists k :: 0 <= k < |n.children| && r == (n.children[k].board, ChildScore(n.children, k, xToMove))
                             && forall j :: 0 <= j < k ==> ChildScore(n.children, j, xToMove) != r.1
  {
    PickFrom(n.children, 0, xToMove, NewTic(), if xToMove then Int32Min else Int32Max)
  }

  /** On a scored open node, each child's score in `minMaxTree` is its minimax value. */
  lemma ChildScoresAreMinimax(n: Node, xToMove: bool)
    requires Scored(n) && !n.isTerminal
    ensures forall j :: 0 <= j < |n.children| ==>
      ChildScore(n.children, j, xToMove) == Scores(n.children, !xToMove)[j] && Scores(n.children, !xToMove)[j] in {-1, 0, 1}
  {
    forall j | 0 <= j < |n.children|
      ensures ChildScore(n.children, j, xToMove) == Scores(n.children, !xToMove)[j] && Scores(n.children, !xToMove)[j] in {-1, 0, 1}
    {
      HelperIsMinimax(n.children[j], Int32Min, !xToMove);
    }
  }

  /** A value that is one of `s` and beaten by none of them is the extreme `Minimax` takes. */
  lemma AttainedIsExtreme(s: seq<int>, k: nat, xToMove: bool)
    requires k < |s|
    requires forall j :: 0 <= j < |s| ==> !Beats(xToMove, s[j], s[k])
    requires forall j :: 0 <= j < |s| ==> s[j] in {-1, 0, 1}
    ensures s[k] == if xToMove then MaxFrom(Int32Min, s) else MinFrom(Int32Max, s)
  {
    if xToMove {
      var m := MaxFrom(Int32Min, s);
      var j' :| 0 <= j' < |s| && s[j'] == m;
    } else {
      var m := MinFrom(Int32Max, s);
      var j' :| 0 <= j' < |s| && s[j'] == m;
    }
  }

  /**
    When the first child beats the starting value, `minMaxTree` picks some
    child k: the earliest one with its value, which no child beats.
   */
  lemma PickedChild(n: Node, xToMove: bool) returns (k: nat)
    requires |n.children| > 0
    requires Beats(xToMove, ChildScore(n.children, 0, xToMove), if xToMove then Int32Min else Int32Max)
    ensures k < |n.children|
    ensures MinMaxTree(n, xToMove) == (n.children[k].board, ChildScore(n.children, k, xToMove))
    ensures forall j :: 0 <= j < |n.children| ==>
      !Beats(xToMove, ChildScore(n.children, j, xToMove), ChildScore(n.children, k, xToMove))
    ensures forall j :: 0 <= j < k ==> ChildScore(n.children, j, xToMove) != ChildScore(n.children, k, xToMove)
  {
    var cs := n.children;
    var r := MinMaxTree(n, xToMove);
    assert r != (NewTic(), if xToMove then Int32Min else Int32Max);
    k :| 0 <= k < |cs| && r == (cs[k].board, ChildScore(cs, k, xToMove))
         && forall j :: 0 <= j < k ==> ChildScore(cs, j, xToMove) != r.1;
  }

  /**
    On a scored node with children, `minMaxTree` returns the node's minimax
    value and the board of child k, the earliest child attaining it.
   */
  lemma BestChild(n: Node, xToMove: bool) returns (k: nat)
    requires Scored(n) && |n.children| > 0
    ensures k < |n.children|
    ensures MinMaxTree(n, xToMove) == (n.children[k].board, Minimax(n, xToMove))
    ensures Minimax(n.children[k], !xToMove) == Minimax(n, xToMove)
    ensures Minimax(n, xToMove) in {-1, 0, 1}
    ensures forall j :: 0 <= j < k ==> Minimax(n.children[j], !xToMove) != Minimax(n, xToMove)
  {
    var cs := n.children;
    var s := Scores(cs, !xToMove);
    assert !n.isTerminal;
    ChildScoresAreMinimax(n, xToMove);
    k := PickedChild(n, xToMove);
    assert forall j :: 0 <= j < |s| ==> !Beats(xToMove, s[j], s[k]) by {
      forall j | 0 <= j < |s|
        ensures !Beats(xToMove, s[j], s[k])
      {
        assert s[j] == ChildScore(cs, j, xToMove);
      }
    }
    AttainedIsExtreme(s, k, xToMove);
    var m := Minimax(n, xToMove);
    assert m == if xToMove then MaxFrom(Int32Min, s) else MinFrom(Int32Max, s);
    forall j | 0 <= j < k
      ensures Minimax(cs[j], !xToMove) != m
    {
      assert Minimax(cs[j], !xToMove) == s[j] == ChildScore(cs, j, xToMove);
    }
  }

  /**
    On a built node with children, `minMaxTree` returns the node's minimax
    value together with the board of the earliest child attaining it, and the
    descent loop that looks that board up among the children finds that very
    child.
   */
  lemma BestMoveOnBuilt(n: Node, xToMove: bool)
    requires Built(n) && |n.children| > 0
    ensures MinMaxTree(n, xToMove).1 == Minimax(n, xToMove)
    ensures MinMaxTree(n, xToMove).1 in {-1, 0, 1}
    ensures exists k :: 0 <= k < |n.children|
              && MinMaxTree(n, xToMove).0 == n.children[k].board
              && Minimax(n.children[k], !xToMove) == MinMaxTree(n, xToMove).1
              && (forall j :: 0 <= j < k ==> Minimax(n.children[j], !xToMove) != MinMaxTree(n, xToMove).1)
              && FindChild(n.children, MinMaxTree(n, xToMove).0) == Some(n.children[k])
  {
    BuiltScored(n);
    var k := BestChild(n, xToMove);
    FindOwnChild(n, k);
  }
}
