/**
 * The 3x3 board: nine cells in row-major order, each empty or holding a
 * player's mark, and the queries the game asks of a board (a winner, a full
 * board, the list of empty cells).
 */
module Boards {

  import opened Wrappers

  datatype Player = X | O

  /** A cell is the empty string of the game or one of the two marks. */
  datatype Cell = Empty | Mark(player: Player)

  type Index = i: int | 0 <= i < 9

  type Board = b: seq<Cell> | |b| == 9
    witness [Empty, Empty, Empty, Empty, Empty, Empty, Empty, Empty, Empty]

  /** The opponent of `p`. */
  function Other(p: Player): (q: Player)
    ensures q != p
  {
    if p == X then O else X
  }

  /** The board the game starts from: nine empty cells. */
  function EmptyBoard(): (b: Board)
    ensures forall i :: 0 <= i < 9 ==> b[i] == Empty
  {
    [Empty, Empty, Empty, Empty, Empty, Empty, Empty, Empty, Empty]
  }

  datatype Line = Line(a: Index, b: Index, c: Index)

  /** The eight winning triples, scanned rows first, then columns, then diagonals. */
  const WinningLines: seq<Line> := [
    Line(0, 1, 2), Line(3, 4, 5), Line(6, 7, 8),
    Line(0, 3, 6), Line(1, 4, 7), Line(2, 5, 8),
    Line(0, 4, 8), Line(2, 4, 6)
  ]

  /** Line `k` holds three equal marks. */
  predicate Complete(b: Board, k: nat)
    requires k < |WinningLines|
  {
    var l := WinningLines[k];
    b[l.a] != Empty && b[l.a] == b[l.b] && b[l.a] == b[l.c]
  }

  /** Line `k` holds three marks of player `p`. */
  predicate Owns(b: Board, k: nat, p: Player)
    requires k < |WinningLines|
  {
    var l := WinningLines[k];
    b[l.a] == Mark(p) && b[l.b] == Mark(p) && b[l.c] == Mark(p)
  }

  /** No line before `k` in scan order is complete. */
  predicate NoneCompleteBefore(b: Board, k: nat)
    requires k <= |WinningLines|
  {
    forall j :: 0 <= j < k ==> !Complete(b, j)
  }

  /** The scan of checkWinner from line `k` on. */
  function WinnerFrom(b: Board, k: nat): Option<Player>
    requires k <= |WinningLines|
    decreases |WinningLines| - k
  {
    if k == |WinningLines| then None
    else if Complete(b, k) then Some(b[WinningLines[k].a].player)
    else WinnerFrom(b, k + 1)
  }

  /** checkWinner: the mark of the first complete winning line, if any. */
  function CheckWinner(b: Board): Option<Player>
  {
    WinnerFrom(b, 0)
  }

  /** checkWin without its highlighting: some winning line is complete. */
  predicate CheckWin(b: Board)
  {
    exists k :: 0 <= k < |WinningLines| && Complete(b, k)
  }

  /** isBoardFull (and checkDraw): every cell holds a mark. */
  predicate IsBoardFull(b: Board)
  {
    forall i :: 0 <= i < 9 ==> b[i] != Empty
  }

  /**
   * The ascending indices `i <= j < 9` of the empty cells, as makeRandomMove
   * builds them by mapping every cell to its index or null and dropping the nulls.
   */
  function EmptyCellsFrom(b: Board, i: nat): (e: seq<nat>)
    requires i <= 9
    ensures forall j :: j in e <==> i <= j < 9 && b[j] == Empty
    ensures forall x :: 0 <= x < |e| ==> i <= e[x] < 9
    ensures forall x, y :: 0 <= x < y < |e| ==> e[x] < e[y]
    decreases 9 - i
  {
    if i == 9 then []
    else (if b[i] == Empty then [i] else []) + EmptyCellsFrom(b, i + 1)
  }

  function EmptyCells(b: Board): seq<nat>
  {
    EmptyCellsFrom(b, 0)
  }

  /** Number of cells holding `p`'s mark. */
  function Count(b: Board, p: Player): nat
  {
    multiset(b)[Mark(p)]
  }

  // ---------------------------------------------------------------------------
  // Properties of the board queries
  // ---------------------------------------------------------------------------

  /** checkWinner yields null, X or O. */
  lemma WinnerCases(b: Board)
    ensures CheckWinner(b) == None || CheckWinner(b) == Some(X) || CheckWinner(b) == Some(O)
  {
    match CheckWinner(b)
    case None =>
    case Some(p) => assert p == X || p == O;
  }

  /**
   * The scan from line `k` yields None exactly when no line from `k` on is
   * complete, and otherwise the mark of a line the winner owns, before
   * which (from `k` on) no line is complete.
   */
  lemma {:induction false} WinnerFromSpec(b: Board, k: nat)
    requires k <= |WinningLines|
    ensures var w := WinnerFrom(b, k);
            (w == None <==> forall j :: k <= j < |WinningLines| ==> !Complete(b, j)) &&
            (w.Some? ==> exists j :: k <= j < |WinningLines| && Owns(b, j, w.value) &&
                                     forall i :: k <= i < j ==> !Complete(b, i))
    decreases |WinningLines| - k
  {
    if k < |WinningLines| {
      if Complete(b, k) {
        assert Owns(b, k, b[WinningLines[k].a].player);
      } else {
        WinnerFromSpec(b, k + 1);
      }
    }
  }

  /**
   * checkWinner returns `p` exactly when some line is owned by `p` and no
   * earlier line in scan order is complete.
   */
  lemma CheckWinnerIsFirstCompleteLine(b: Board, p: Player)
    ensures CheckWinner(b) == Some(p) <==>
            exists k :: 0 <= k < |WinningLines| && Owns(b, k, p) && NoneCompleteBefore(b, k)
  {
    WinnerFromSpec(b, 0);
    if CheckWinner(b) == Some(p) {
      var j :| 0 <= j < |WinningLines| && Owns(b, j, p) &&
               forall i :: 0 <= i < j ==> !Complete(b, i);
      assert NoneCompleteBefore(b, j);
    }
    if exists k :: 0 <= k < |WinningLines| && Owns(b, k, p) && NoneCompleteBefore(b, k) {
      var k :| 0 <= k < |WinningLines| && Owns(b, k, p) && NoneCompleteBefore(b, k);
      assert Complete(b, k);
      var w := CheckWinner(b);
      assert w.Some?;
      var j :| 0 <= j < |WinningLines| && Owns(b, j, w.value) &&
               forall i :: 0 <= i < j ==> !Complete(b, i);
      assert Complete(b, j);
      assert j == k;
    }
  }

  /** checkWinner returns null exactly when no winning line is complete. */
  lemma CheckWinnerNoneIffNoLine(b: Board)
    ensures CheckWinner(b) == None <==> !CheckWin(b)
  {
    WinnerFromSpec(b, 0);
  }

  /** isBoardFull holds exactly when the list of empty cells is empty. */
  lemma {:induction false} FullIffNoEmptyCells(b: Board)
    ensures IsBoardFull(b) <==> EmptyCells(b) == []
  {
    var e := EmptyCells(b);
    if !IsBoardFull(b) {
      var i :| 0 <= i < 9 && b[i] == Empty;
      assert i in e;
    }
  }

  /**
   * Placing a mark on an empty cell of a board without a complete line can
   * only complete lines through that cell, so the winner is the player who
   * moved.
   */
  lemma {:induction false} OnlyMoverCanWin(b: Board, i: Index, p: Player)
    requires b[i] == Empty && !CheckWin(b)
    ensures var b' := b[i := Mark(p)];
            CheckWin(b') <==> CheckWinner(b') == Some(p)
  {
    var b' := b[i := Mark(p)];
    WinnerFromSpec(b, 0);
    WinnerFromSpec(b', 0);
    if CheckWin(b') {
      var w := CheckWinner(b');
      var j :| 0 <= j < |WinningLines| && Owns(b', j, w.value) &&
               forall k :: 0 <= k < j ==> !Complete(b', k);
      var l := WinningLines[j];
      if i != l.a && i != l.b && i != l.c {
        assert Complete(b, j);
        assert false;
      }
    }
  }

  /** Placing `p` on an empty cell adds one mark of `p` and none of the other player. */
  lemma CountAfterPlace(b: Board, i: Index, p: Player)
    requires b[i] == Empty
    ensures Count(b[i := Mark(p)], p) == Count(b, p) + 1
    ensures Count(b[i := Mark(p)], Other(p)) == Count(b, Other(p))
  {
    var b' := b[i := Mark(p)];
    assert multiset(b') == multiset(b) - multiset{Empty} + multiset{Mark(p)};
  }

  /** Three distinct cells holding `p` put at least three of `p`'s marks on the board. */
  lemma ThreeCellsThreeMarks(b: Board, i: Index, j: Index, k: Index, p: Player)
    requires i != j && i != k && j != k
    requires b[i] == Mark(p) && b[j] == Mark(p) && b[k] == Mark(p)
    ensures Count(b, p) >= 3
  {
    var c0 := b[i := Empty][j := Empty][k := Empty];
    var c1 := c0[i := Mark(p)];
    CountAfterPlace(c0, i, p);
    var c2 := c1[j := Mark(p)];
    CountAfterPlace(c1, j, p);
    CountAfterPlace(c2, k, p);
    assert c2[k := Mark(p)] == b;
  }

  /** A line owned by `p` puts three of `p`'s marks on the board. */
  lemma OwnedLineHasThreeMarks(b: Board, k: nat, p: Player)
    requires k < |WinningLines| && Owns(b, k, p)
    ensures Count(b, p) >= 3
  {
    var l := WinningLines[k];
    assert l.a != l.b && l.a != l.c && l.b != l.c;
    ThreeCellsThreeMarks(b, l.a, l.b, l.c, p);
  }

  /** A player with at most two marks on the board is not checkWinner's winner. */
  lemma FewMarksCannotWin(b: Board, p: Player)
    requires Count(b, p) <= 2
    ensures CheckWinner(b) != Some(p)
  {
    CheckWinnerIsFirstCompleteLine(b, p);
    if CheckWinner(b) == Some(p) {
      var k :| 0 <= k < |WinningLines| && Owns(b, k, p) && NoneCompleteBefore(b, k);
      OwnedLineHasThreeMarks(b, k, p);
    }
  }
}
