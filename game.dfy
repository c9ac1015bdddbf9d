/**
 * The game session: the mutable gameState record and the handlers that
 * change it (initGame, handleCellClick with makeMove and endGame,
 * makeAIMove, makeRandomMove, setGameMode, restartGame), without the page,
 * the sounds or the timer.
 *
 * Session is the record as a value and Click, Start, Finish, RandomMove and
 * AIMove are its transitions; the class GameState holds the same fields and
 * each of its methods is proved to perform the matching transition.
 */
module Game {

  import opened Wrappers
  import opened Boards
  import opened Engine

  datatype Mode = Single | Two

  /** The tallies of wins per player and of draws. */
  datatype Scores = Scores(x: nat, o: nat, draw: nat)

  datatype Session = Session(
    board: Board,
    currentPlayer: Player,
    gameMode: Option<Mode>,
    gameActive: bool,
    scores: Scores,
    aiDifficulty: real)

  /** `scores[p]++`. */
  function Credit(sc: Scores, p: Player): (r: Scores)
    ensures r.draw == sc.draw
    ensures r.x == sc.x + (if p == X then 1 else 0)
    ensures r.o == sc.o + (if p == O then 1 else 0)
  {
    match p
    case X => sc.(x := sc.x + 1)
    case O => sc.(o := sc.o + 1)
  }

  function Total(sc: Scores): nat
  {
    sc.x + sc.o + sc.draw
  }

  /** The record before any mode is chosen. */
  function InitialSession(): Session
  {
    Session(EmptyBoard(), X, None, false, Scores(0, 0, 0), 0.7)
  }

  /** initGame: a fresh empty board, X to move, the game running; mode, tallies and difficulty kept. */
  function Start(s: Session): Session
  {
    s.(board := EmptyBoard(), currentPlayer := X, gameActive := true)
  }

  /** endGame: the game stops and the draw tally or the current player's tally goes up. */
  function Finish(s: Session, isDraw: bool): Session
  {
    s.(gameActive := false,
       scores := if isDraw then s.scores.(draw := s.scores.draw + 1) else Credit(s.scores, s.currentPlayer))
  }

  /** The click is acted on: a cell of the board, empty, while the game runs. */
  predicate Accepts(s: Session, index: int)
  {
    0 <= index < 9 && s.board[index] == Empty && s.gameActive
  }

  /**
   * handleCellClick on cell `index` (an index outside the board is what a
   * missing cell yields, and reads as occupied): the new record, and whether
   * the computer's reply is scheduled.
   */
  function Click(s: Session, index: int): (Session, bool)
  {
    if !Accepts(s, index) then (s, false)
    else
      var placed := s.(board := s.board[index := Mark(s.currentPlayer)]);
      if CheckWin(placed.board) then (Finish(placed, false), false)
      else if IsBoardFull(placed.board) then (Finish(placed, true), false)
      else
        var next := placed.(currentPlayer := Other(s.currentPlayer));
        (next, next.gameMode == Some(Single) && next.currentPlayer == O && next.gameActive)
  }

  /** makeRandomMove with Math.random() yielding `r`. */
  function RandomMove(s: Session, r: real): (Session, bool)
    requires 0.0 <= r < 1.0
  {
    match RandomChoice(s.board, r)
    case Some(i) => Click(s, i)
    case None => (s, false)
  }

  /**
   * makeAIMove with the two draws of Math.random(): `r1` against the
   * difficulty, then `r2` inside makeRandomMove or findBestMove. A missing
   * best move is a click on no cell.
   */
  function AIMove(s: Session, r1: real, r2: real): (Session, bool)
    requires 0.0 <= r1 < 1.0 && 0.0 <= r2 < 1.0
  {
    if r1 > s.aiDifficulty then RandomMove(s, r2)
    else
      match SelectMove(s.board, r2)
      case Some(i) => Click(s, i)
      case None => Click(s, -1)
  }

  /**
   * The session invariant of alternating play: while the game runs nobody
   * has won, a cell is free, and X has made one more mark than O exactly
   * when O is to move.
   */
  predicate Consistent(s: Session)
  {
    s.gameActive ==>
      !CheckWin(s.board) && !IsBoardFull(s.board) &&
      Count(s.board, X) == Count(s.board, O) + (if s.currentPlayer == O then 1 else 0)
  }

  // ---------------------------------------------------------------------------
  // Properties of the transitions
  // ---------------------------------------------------------------------------

  /** initGame establishes the invariant. */
  lemma StartIsConsistent(s: Session)
    ensures Consistent(Start(s))
  {
    var b := EmptyBoard();
    assert multiset(b)[Mark(X)] == 0 && multiset(b)[Mark(O)] == 0;
  }

  /**
   * A click the game acts on writes the current player's mark to exactly
   * that cell, keeps the mode and the difficulty, and then does exactly one
   * of three things: it ends the game on a win (crediting the current
   * player), ends it on a full board (counting a draw), or passes the turn.
   * Any other click changes nothing.
   */
  lemma ClickOutcome(s: Session, index: int)
    ensures var (t, aiScheduled) := Click(s, index);
            if !Accepts(s, index) then t == s && !aiScheduled
            else
              t.board == s.board[index := Mark(s.currentPlayer)] &&
              t.gameMode == s.gameMode && t.aiDifficulty == s.aiDifficulty &&
              (if CheckWin(t.board) then
                 !t.gameActive && t.currentPlayer == s.currentPlayer &&
                 t.scores == Credit(s.scores, s.currentPlayer) && !aiScheduled
               else if IsBoardFull(t.board) then
                 !t.gameActive && t.currentPlayer == s.currentPlayer &&
                 t.scores == s.scores.(draw := s.scores.draw + 1) && !aiScheduled
               else
                 t.gameActive && t.currentPlayer == Other(s.currentPlayer) && t.scores == s.scores &&
                 aiScheduled == (s.gameMode == Some(Single) && t.currentPlayer == O))
  {
  }

  /** Every click keeps the invariant. */
  lemma ClickKeepsConsistent(s: Session, index: int)
    requires Consistent(s)
    ensures Consistent(Click(s, index).0)
  {
    if Accepts(s, index) {
      CountAfterPlace(s.board, index, s.currentPlayer);
    }
  }

  /**
   * Under the invariant, a click that ends the game on a win ends it with
   * the current player as checkWinner's winner, so the tally endGame
   * credits is the winner's.
   */
  lemma ClickCreditsWinner(s: Session, index: int)
    requires Consistent(s) && Accepts(s, index)
    ensures var t := Click(s, index).0;
            CheckWin(t.board) ==>
              CheckWinner(t.board) == Some(s.currentPlayer) &&
              t.scores == Credit(s.scores, CheckWinner(t.board).value)
  {
    OnlyMoverCanWin(s.board, index, s.currentPlayer);
  }

  /** The tallies grow by one exactly on the click that ends a running game, and never otherwise. */
  lemma ClickCountsFinishedGames(s: Session, index: int)
    ensures var t := Click(s, index).0;
            Total(t.scores) == Total(s.scores) + (if s.gameActive && !t.gameActive then 1 else 0)
  {
  }

  /**
   * On a running game, the computer's move puts the current player's mark on
   * one empty cell, whichever branch the first draw selects.
   */
  lemma AIMovePlaysEmptyCell(s: Session, r1: real, r2: real)
    requires 0.0 <= r1 < 1.0 && 0.0 <= r2 < 1.0
    requires s.gameActive && !IsBoardFull(s.board)
    ensures exists i: Index :: s.board[i] == Empty && AIMove(s, r1, r2) == Click(s, i)
  {
    if r1 > s.aiDifficulty {
      RandomChoiceIsEmptyCell(s.board, r2);
      var i: Index := RandomChoice(s.board, r2).value;
      assert AIMove(s, r1, r2) == Click(s, i);
    } else {
      SelectMoveIsNearOptimal(s.board, r2);
      var i: Index := SelectMove(s.board, r2).value;
      assert AIMove(s, r1, r2) == Click(s, i);
    }
  }

  /** The computer's move keeps the invariant. */
  lemma AIMoveKeepsConsistent(s: Session, r1: real, r2: real)
    requires 0.0 <= r1 < 1.0 && 0.0 <= r2 < 1.0
    requires Consistent(s)
    ensures Consistent(AIMove(s, r1, r2).0)
  {
    if r1 > s.aiDifficulty {
      match RandomChoice(s.board, r2)
      case Some(i) => ClickKeepsConsistent(s, i);
      case None =>
    } else {
      match SelectMove(s.board, r2)
      case Some(i) => ClickKeepsConsistent(s, i);
      case None => ClickKeepsConsistent(s, -1);
    }
  }

  /**
   * With difficulty 1 or more the first draw never exceeds it, so the search
   * move is always played; on a full board (a reply still pending after the
   * game ended in a draw) the missing move is an ignored click.
   */
  lemma FullDifficultyAlwaysSearches(s: Session, r1: real, r2: real)
    requires 0.0 <= r1 < 1.0 && 0.0 <= r2 < 1.0 && s.aiDifficulty >= 1.0
    ensures !IsBoardFull(s.board) ==>
              SelectMove(s.board, r2).Some? && AIMove(s, r1, r2) == Click(s, SelectMove(s.board, r2).value)
    ensures IsBoardFull(s.board) ==> AIMove(s, r1, r2) == (s, false)
  {
    SelectMoveIsNearOptimal(s.board, r2);
  }

  // ---------------------------------------------------------------------------
  // The gameState record and its handlers
  // ---------------------------------------------------------------------------

  class GameState {
    var board: array<Cell>
    var currentPlayer: Player
    var gameMode: Option<Mode>
    var gameActive: bool
    var scores: Scores
    var aiDifficulty: real

    ghost predicate Valid()
      reads this
    {
      board.Length == 9
    }

    /** The record as a value. */
    ghost function State(): Session
      reads this, board
      requires Valid()
    {
      Session(board[..], currentPlayer, gameMode, gameActive, scores, aiDifficulty)
    }

    constructor ()
      ensures Valid() && fresh(board)
      ensures State() == InitialSession()
    {
      board := new Cell[9](_ => Empty);
      currentPlayer := X;
      gameMode := None;
      gameActive := false;
      scores := Scores(0, 0, 0);
      aiDifficulty := 0.7;
      new;
      assert board[..] == EmptyBoard();
    }

    /** initGame: a new empty board array, X to move, the game running. */
    method InitGame()
      requires Valid()
      modifies this
      ensures Valid() && fresh(board)
      ensures State() == Start(old(State()))
    {
      board := new Cell[9](_ => Empty);
      currentPlayer := X;
      gameActive := true;
      assert board[..] == EmptyBoard();
    }

    /** setGameMode: record the mode, then start a game. */
    method SetGameMode(mode: Mode)
      requires Valid()
      modifies this
      ensures Valid() && fresh(board)
      ensures State() == Start(old(State()).(gameMode := Some(mode)))
    {
      gameMode := Some(mode);
      InitGame();
    }

    /** restartGame: start a new game in the same mode. */
    method RestartGame()
      requires Valid()
      modifies this
      ensures Valid() && fresh(board)
      ensures State() == Start(old(State()))
    {
      InitGame();
    }

    /** makeMove: write the current player's mark to cell `index`. */
    method MakeMove(index: Index)
      requires Valid()
      modifies board
      ensures board[..] == old(board[..])[index := Mark(currentPlayer)]
    {
      board[index] := Mark(currentPlayer);
    }

    /** endGame: stop the game and add to the draw tally or to the current player's. */
    method EndGame(isDraw: bool)
      requires Valid()
      modifies this
      ensures Valid() && board == old(board)
      ensures State() == Finish(old(State()), isDraw)
    {
      gameActive := false;
      if isDraw {
        scores := scores.(draw := scores.draw + 1);
      } else {
        scores := Credit(scores, currentPlayer);
      }
    }

    /**
     * handleCellClick on cell `index`; `aiScheduled` stands for the
     * delayed makeAIMove it sets up in single-player mode.
     */
    method HandleCellClick(index: int) returns (aiScheduled: bool)
      requires Valid()
      modifies this, board
      ensures Valid() && board == old(board)
      ensures (State(), aiScheduled) == Click(old(State()), index)
    {
      if !(0 <= index < 9) || board[index] != Empty || !gameActive {
        return false;
      }
      MakeMove(index);
      if CheckWin(board[..]) {
        EndGame(false);
        return false;
      }
      if IsBoardFull(board[..]) {
        EndGame(true);
        return false;
      }
      currentPlayer := Other(currentPlayer);
      aiScheduled := gameMode == Some(Single) && currentPlayer == O && gameActive;
    }

    /** makeRandomMove: click a cell drawn from the list of empty cells with Math.random() yielding `r`. */
    method MakeRandomMove(r: real) returns (aiScheduled: bool)
      requires Valid() && 0.0 <= r < 1.0
      modifies this, board
      ensures Valid() && board == old(board)
      ensures (State(), aiScheduled) == RandomMove(old(State()), r)
    {
      var emptyCells := EmptyCells(board[..]);
      if |emptyCells| > 0 {
        var randomIndex := emptyCells[Pick(r, |emptyCells|)];
        aiScheduled := HandleCellClick(randomIndex);
      } else {
        aiScheduled := false;
      }
    }

    /**
     * makeAIMove: a random move when the draw `r1` exceeds the difficulty,
     * otherwise a click on findBestMove's cell (no cell when it finds none).
     */
    method MakeAIMove(r1: real, r2: real) returns (aiScheduled: bool)
      requires Valid() && 0.0 <= r1 < 1.0 && 0.0 <= r2 < 1.0
      modifies this, board
      ensures Valid() && board == old(board)
      ensures (State(), aiScheduled) == AIMove(old(State()), r1, r2)
    {
      if r1 > aiDifficulty {
        aiScheduled := MakeRandomMove(r2);
      } else {
        var bestMove := FindBestMove(board, r2);
        var index := if bestMove.Some? then bestMove.value else -1;
        aiScheduled := HandleCellClick(index);
      }
    }
  }
}
