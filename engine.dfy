/**
 * The move engine: a depth-limited minimax search that places and clears
 * marks on the shared board array, and findBestMove, which scores every
 * empty cell for O and picks at random among the near-optimal ones.
 *
 * The searches are methods over the board array; MinimaxValue and
 * SelectMove are the functions they are proved to compute, and the lemmas
 * below say what those functions mean.
 */
module Engine {

  import opened Wrappers
  import opened Boards

  /** Beyond this depth a position that is not over scores 0. */
  const DepthLimit: nat := 4

  /** Stand-ins for the -Infinity and Infinity the search starts from. */
  const NegInf: int := -1000
  const PosInf: int := 1000

  function Max(a: int, b: int): (m: int)
    ensures m >= a && m >= b && (m == a || m == b)
  {
    if a >= b then a else b
  }

  function Min(a: int, b: int): (m: int)
    ensures m <= a && m <= b && (m == a || m == b)
  {
    if a <= b then a else b
  }

  /** The mark of the side to move: O maximizes, X minimizes. */
  function SideToMove(maximizing: bool): Player
  {
    if maximizing then O else X
  }

  // ---------------------------------------------------------------------------
  // The value minimax computes
  // ---------------------------------------------------------------------------

  /**
   * The score of `b` for the side to move at `depth`: the terminal checks in
   * their fixed order, then the depth cutoff, then the best child.
   */
  function MinimaxValue(b: Board, depth: nat, maximizing: bool): int
    decreases DepthLimit - depth, 2, 0
  {
    if CheckWinner(b) == Some(O) then 10 - depth
    else if CheckWinner(b) == Some(X) then depth - 10
    else if IsBoardFull(b) then 0
    else if depth >= DepthLimit then 0
    else BestChild(b, depth, maximizing, 0, if maximizing then NegInf else PosInf)
  }

  /** The score of the child where the side to move has marked the empty cell `i`. */
  function ChildValue(b: Board, depth: nat, maximizing: bool, i: Index): int
    requires depth < DepthLimit
    decreases DepthLimit - depth, 0, 0
  {
    MinimaxValue(b[i := Mark(SideToMove(maximizing))], depth + 1, !maximizing)
  }

  /**
   * The loop of a minimax node from cell `i` on: `acc` combined (by Max
   * when maximizing, Min otherwise) with the value of every empty cell from `i`.
   */
  function BestChild(b: Board, depth: nat, maximizing: bool, i: nat, acc: int): int
    requires depth < DepthLimit && i <= 9
    decreases DepthLimit - depth, 1, 9 - i
  {
    if i == 9 then acc
    else if b[i] != Empty then BestChild(b, depth, maximizing, i + 1, acc)
    else
      var score := ChildValue(b, depth, maximizing, i);
      BestChild(b, depth, maximizing, i + 1, if maximizing then Max(score, acc) else Min(score, acc))
  }

  /** A position where the search explores children: nobody has won, a cell is free, depth is left. */
  predicate Open(b: Board, depth: nat)
  {
    CheckWinner(b) == None && !IsBoardFull(b) && depth < DepthLimit
  }

  // ---------------------------------------------------------------------------
  // What the value means
  // ---------------------------------------------------------------------------

  /**
   * The loop from cell `i` returns `acc` or the value of some empty cell from
   * `i`, is at least (maximizing) or at most (minimizing) every such value,
   * and does not fall behind `acc`.
   */
  lemma {:induction false} BestChildIsExtremum(b: Board, depth: nat, maximizing: bool, i: nat, acc: int)
    requires depth < DepthLimit && i <= 9
    ensures var r := BestChild(b, depth, maximizing, i, acc);
            (r == acc || exists j: Index :: i <= j && b[j] == Empty && r == ChildValue(b, depth, maximizing, j)) &&
            (forall j: Index :: i <= j && b[j] == Empty ==>
               if maximizing then ChildValue(b, depth, maximizing, j) <= r else r <= ChildValue(b, depth, maximizing, j)) &&
            (if maximizing then acc <= r else r <= acc)
    decreases 9 - i
  {
    if i < 9 {
      if b[i] != Empty {
        BestChildIsExtremum(b, depth, maximizing, i + 1, acc);
      } else {
        var score := ChildValue(b, depth, maximizing, i);
        var acc' := if maximizing then Max(score, acc) else Min(score, acc);
        BestChildIsExtremum(b, depth, maximizing, i + 1, acc');
      }
    }
  }

  /**
   * Every score lies within 10 - depth of 0: a win scores 10 - depth, a
   * loss depth - 10, and the sentinels never escape since an open position
   * always has an empty cell.
   */
  lemma {:induction false} MinimaxBounds(b: Board, depth: nat, maximizing: bool)
    requires depth <= 10
    ensures -(10 - depth) <= MinimaxValue(b, depth, maximizing) <= 10 - depth
    decreases DepthLimit - depth, 2
  {
    WinnerCases(b);
    if Open(b, depth) {
      OpenValueBound(b, depth, maximizing);
    }
  }

  /** An open position scores strictly inside the bounds of its depth: its value is a child's. */
  lemma {:induction false} OpenValueBound(b: Board, depth: nat, maximizing: bool)
    requires Open(b, depth)
    ensures -(9 - depth) <= MinimaxValue(b, depth, maximizing) <= 9 - depth
    decreases DepthLimit - depth, 1
  {
    forall j: Index | b[j] == Empty
      ensures -(9 - depth) <= ChildValue(b, depth, maximizing, j) <= 9 - depth
    {
      ChildValueBound(b, depth, maximizing, j);
    }
    BestChildWithin(b, depth, maximizing, -(9 - depth), 9 - depth);
    OpenValueIsBestChild(b, depth, maximizing);
  }

  /** A child of a node at `depth` scores within 10 - (depth + 1) of 0. */
  lemma {:induction false} ChildValueBound(b: Board, depth: nat, maximizing: bool, j: Index)
    requires depth < DepthLimit
    ensures -(9 - depth) <= ChildValue(b, depth, maximizing, j) <= 9 - depth
    decreases DepthLimit - depth, 0
  {
    var c := b[j := Mark(SideToMove(maximizing))];
    MinimaxBounds(c, depth + 1, !maximizing);
    assert ChildValue(b, depth, maximizing, j) == MinimaxValue(c, depth + 1, !maximizing);
  }

  /** In an open position minimax runs the node loop from the infinite start value. */
  lemma OpenValueIsBestChild(b: Board, depth: nat, maximizing: bool)
    requires Open(b, depth)
    ensures MinimaxValue(b, depth, maximizing) ==
            BestChild(b, depth, maximizing, 0, if maximizing then NegInf else PosInf)
  {
  }

  /** A node with an empty cell whose children all score within [lo, hi] scores within [lo, hi] itself. */
  lemma BestChildWithin(b: Board, depth: nat, maximizing: bool, lo: int, hi: int)
    requires depth < DepthLimit && !IsBoardFull(b) && NegInf < lo && hi < PosInf
    requires forall j: Index :: b[j] == Empty ==> lo <= ChildValue(b, depth, maximizing, j) <= hi
    ensures lo <= BestChild(b, depth, maximizing, 0, if maximizing then NegInf else PosInf) <= hi
  {
    var acc := if maximizing then NegInf else PosInf;
    BestChildIsExtremum(b, depth, maximizing, 0, acc);
    var e: Index :| b[e] == Empty;
    assert lo <= ChildValue(b, depth, maximizing, e) <= hi;
  }

  /**
   * In an open position, a maximizing node scores the maximum over its
   * children with O placed, a minimizing node the minimum with X placed.
   */
  lemma MinimaxIsBestChild(b: Board, depth: nat, maximizing: bool)
    requires Open(b, depth)
    ensures var v := MinimaxValue(b, depth, maximizing);
            (exists j: Index :: b[j] == Empty && v == ChildValue(b, depth, maximizing, j)) &&
            (forall j: Index :: b[j] == Empty ==>
               if maximizing then ChildValue(b, depth, maximizing, j) <= v else v <= ChildValue(b, depth, maximizing, j))
  {
    var acc := if maximizing then NegInf else PosInf;
    BestChildIsExtremum(b, depth, maximizing, 0, acc);
    OpenValueBound(b, depth, maximizing);
  }

  /** A position where O has won scores as a win for O, whoever else owns a line later in scan order. */
  lemma MinimaxScoresFirstWinner(b: Board, depth: nat, maximizing: bool, k: nat)
    requires k < |WinningLines| && NoneCompleteBefore(b, k)
    ensures Owns(b, k, O) ==> MinimaxValue(b, depth, maximizing) == 10 - depth
    ensures Owns(b, k, X) ==> MinimaxValue(b, depth, maximizing) == depth - 10
  {
    CheckWinnerIsFirstCompleteLine(b, O);
    CheckWinnerIsFirstCompleteLine(b, X);
  }

  // ---------------------------------------------------------------------------
  // minimax, in place on the board array
  // ---------------------------------------------------------------------------

  /** Clearing a cell just marked restores the board. */
  lemma PlaceThenClear(b: Board, i: Index, p: Player)
    requires b[i] == Empty
    ensures b[i := Mark(p)][i := Empty] == b
  {
  }

  /**
   * minimax: every hypothetical mark is cleared again, so the board is handed
   * back exactly as received, and the score is MinimaxValue of that board.
   */
  method Minimax(board: array<Cell>, depth: nat, isMaximizing: bool) returns (score: int)
    requires board.Length == 9
    modifies board
    ensures board[..] == old(board[..])
    ensures score == MinimaxValue(old(board[..]), depth, isMaximizing)
    decreases DepthLimit - depth
  {
    ghost var b: Board := board[..];
    if CheckWinner(board[..]) == Some(O) { return 10 - depth; }
    if CheckWinner(board[..]) == Some(X) { return depth - 10; }
    if IsBoardFull(board[..]) { return 0; }
    if depth >= DepthLimit { return 0; }
    WinnerCases(b);
    OpenValueIsBestChild(b, depth, isMaximizing);
    ghost var value := MinimaxValue(b, depth, isMaximizing);

    if isMaximizing {
      var bestScore := NegInf;
      assert value == BestChild(b, depth, true, 0, bestScore);
      for i := 0 to 9
        invariant board[..] == b
        invariant BestChild(b, depth, true, i, bestScore) == value
      {
        if board[i] == Empty {
          board[i] := Mark(O);
          assert board[..] == b[i := Mark(O)];
          var s := Minimax(board, depth + 1, false);
          board[i] := Empty;
          assert board[..] == b[i := Mark(O)][i := Empty];
          PlaceThenClear(b, i, O);
          bestScore := Max(s, bestScore);
        }
      }
      return bestScore;
    } else {
      var bestScore := PosInf;
      assert value == BestChild(b, depth, false, 0, bestScore);
      for i := 0 to 9
        invariant board[..] == b
        invariant BestChild(b, depth, false, i, bestScore) == value
      {
        if board[i] == Empty {
          board[i] := Mark(X);
          assert board[..] == b[i := Mark(X)];
          var s := Minimax(board, depth + 1, true);
          board[i] := Empty;
          assert board[..] == b[i := Mark(X)][i := Empty];
          PlaceThenClear(b, i, X);
          bestScore := Min(s, bestScore);
        }
      }
      return bestScore;
    }
  }

  // ---------------------------------------------------------------------------
  // findBestMove: candidates, the best one, the tolerance band
  // ---------------------------------------------------------------------------

  /** An entry of availableMoves. */
  datatype Move = Move(index: Index, score: int)

  /** The score findBestMove gives cell `i`: O placed there, then X to move at depth 0. */
  function MoveScore(b: Board, i: Index): int
  {
    MinimaxValue(b[i := Mark(O)], 0, false)
  }

  /** availableMoves after the loop has looked at cells 0 .. n-1: the empty ones, in order, with their scores. */
  function Candidates(b: Board, n: nat): (ms: seq<Move>)
    requires n <= 9
    ensures forall m :: m in ms <==> m.index < n && b[m.index] == Empty && m.score == MoveScore(b, m.index)
    ensures forall x, y :: 0 <= x < y < |ms| ==> ms[x].index < ms[y].index
    ensures forall x :: 0 <= x < |ms| ==> ms[x].index < n
  {
    if n == 0 then []
    else if b[n - 1] == Empty then Candidates(b, n - 1) + [Move(n - 1, MoveScore(b, n - 1))]
    else Candidates(b, n - 1)
  }

  /** bestScore and bestMove as the findBestMove loop keeps them. */
  datatype Best = Best(score: int, move: Option<Index>)

  /** The running best over `ms`: a later move replaces it only with a strictly greater score. */
  function BestOf(ms: seq<Move>): Best
  {
    if ms == [] then Best(NegInf, None)
    else
      var prev := BestOf(ms[..|ms| - 1]);
      var last := ms[|ms| - 1];
      if last.score > prev.score then Best(last.score, Some(last.index)) else prev
  }

  /** The goodMoves filter: the moves whose score lies in [best - 2, best + 2], in their order. */
  function GoodMoves(ms: seq<Move>, best: int): (good: seq<Move>)
    ensures forall m :: m in good <==> m in ms && best - 2 <= m.score <= best + 2
    ensures |good| <= |ms|
  {
    if ms == [] then []
    else
      assert ms == [ms[0]] + ms[1..];
      var rest := GoodMoves(ms[1..], best);
      if best - 2 <= ms[0].score <= best + 2 then [ms[0]] + rest else rest
  }

  /** Math.floor(r * n) for a draw `r` of Math.random(). */
  function Pick(r: real, n: nat): (k: nat)
    requires 0.0 <= r < 1.0 && n > 0
    ensures k < n
  {
    var x := r * (n as real);
    assert x < n as real by {
      assert r * (n as real) < 1.0 * (n as real);
    }
    x.Floor
  }

  /** Comparing a quotient by a positive divisor is comparing the product. */
  lemma QuotientBounds(a: real, n: real, r: real)
    requires n > 0.0
    ensures a / n <= r <==> a <= r * n
    ensures r < a / n <==> r * n < a
  {
    var q := a / n;
    assert q * n == a;
    if q <= r {
      assert q * n <= r * n;
    }
    if a <= r * n {
      assert q * n <= r * n;
    }
    if r < q {
      assert r * n < q * n;
    }
    if r * n < a {
      assert r * n < q * n;
    }
  }

  /** The draw `r` picks index `k` exactly when it falls in the k-th of `n` equal slices of [0, 1). */
  lemma PickInterval(r: real, n: nat, k: nat)
    requires 0.0 <= r < 1.0 && 0 < n && k < n
    ensures Pick(r, n) == k <==> (k as real) / (n as real) <= r < ((k + 1) as real) / (n as real)
  {
    QuotientBounds(k as real, n as real, r);
    QuotientBounds((k + 1) as real, n as real, r);
  }

  /** The draw k / n picks index `k`: every index below `n` can be picked. */
  lemma PickAtSliceStart(n: nat, k: nat)
    requires k < n
    ensures 0.0 <= (k as real) / (n as real) < 1.0
    ensures Pick((k as real) / (n as real), n) == k
  {
    var r := (k as real) / (n as real);
    QuotientBounds(k as real, n as real, 1.0);
    QuotientBounds(k as real, n as real, 0.0);
    assert r < 1.0;
    PickInterval(r, n, k);
    QuotientBounds((k + 1) as real, n as real, r);
    assert r * (n as real) == k as real;
  }

  /** The move findBestMove returns when Math.random() yields `r`. */
  function SelectMove(b: Board, r: real): Option<Index>
    requires 0.0 <= r < 1.0
  {
    var ms := Candidates(b, 9);
    var best := BestOf(ms);
    var good := GoodMoves(ms, best.score);
    if |good| > 0 then Some(good[Pick(r, |good|)].index) else best.move
  }

  /** The cell makeRandomMove plays when Math.random() yields `r`: an entry of the empty-cell list, or nothing. */
  function RandomChoice(b: Board, r: real): Option<nat>
    requires 0.0 <= r < 1.0
  {
    var e := EmptyCells(b);
    if |e| > 0 then Some(e[Pick(r, |e|)]) else None
  }

  // ---------------------------------------------------------------------------
  // What findBestMove's choice means
  // ---------------------------------------------------------------------------

  /** Every score findBestMove sees lies in [-10, 10], so it beats the initial -Infinity. */
  lemma MoveScoreBounds(b: Board, i: Index)
    ensures -10 <= MoveScore(b, i) <= 10
  {
    MinimaxBounds(b[i := Mark(O)], 0, false);
  }

  /** A cell scores 10 exactly when marking it wins for O at once. */
  lemma MoveScoreTenIffWin(b: Board, i: Index)
    ensures MoveScore(b, i) == 10 <==> CheckWinner(b[i := Mark(O)]) == Some(O)
  {
    var c := b[i := Mark(O)];
    assert MoveScore(b, i) == MinimaxValue(c, 0, false);
    WinnerCases(c);
    if Open(c, 0) {
      OpenValueBound(c, 0, false);
    }
  }

  /**
   * The running best over moves scoring above -1000 is their maximum score,
   * reached first at the move it records; with no moves it stays at the
   * initial value.
   */
  lemma {:induction false} BestOfIsFirstMaximum(ms: seq<Move>)
    requires forall x :: 0 <= x < |ms| ==> ms[x].score > NegInf
    ensures ms == [] ==> BestOf(ms) == Best(NegInf, None)
    ensures forall x :: 0 <= x < |ms| ==> ms[x].score <= BestOf(ms).score
    ensures ms != [] ==> exists k :: 0 <= k < |ms| && BestOf(ms) == Best(ms[k].score, Some(ms[k].index)) &&
                                     forall x :: 0 <= x < k ==> ms[x].score < ms[k].score
  {
    if ms != [] {
      var init := ms[..|ms| - 1];
      BestOfIsFirstMaximum(init);
      var last := ms[|ms| - 1];
      assert forall x :: 0 <= x < |init| ==> init[x] == ms[x];
      if init == [] {
        assert BestOf(ms) == Best(ms[0].score, Some(ms[0].index));
      } else {
        var k :| 0 <= k < |init| && BestOf(init) == Best(init[k].score, Some(init[k].index)) &&
                 forall x :: 0 <= x < k ==> init[x].score < init[k].score;
        if last.score > BestOf(init).score {
          assert BestOf(ms) == Best(ms[|ms| - 1].score, Some(ms[|ms| - 1].index));
        } else {
          assert BestOf(ms) == Best(ms[k].score, Some(ms[k].index));
        }
      }
    }
  }

  /** Every candidate score lies in [-10, 10]. */
  lemma CandidateScoresBounded(b: Board, n: nat)
    requires n <= 9
    ensures forall x :: 0 <= x < |Candidates(b, n)| ==> -10 <= Candidates(b, n)[x].score <= 10
  {
    var ms := Candidates(b, n);
    forall x | 0 <= x < |ms| ensures -10 <= ms[x].score <= 10 {
      assert ms[x] in ms;
      MoveScoreBounds(b, ms[x].index);
    }
  }

  /**
   * On a board with an empty cell, bestScore is the maximum score of the
   * empty cells and bestMove is the lowest empty cell that reaches it.
   */
  lemma BestMoveIsLowestMaximum(b: Board)
    requires !IsBoardFull(b)
    ensures var best := BestOf(Candidates(b, 9));
            best.move.Some? && b[best.move.value] == Empty &&
            best.score == MoveScore(b, best.move.value) &&
            (forall j: Index :: b[j] == Empty ==> MoveScore(b, j) <= best.score) &&
            (forall j: Index :: j < best.move.value && b[j] == Empty ==> MoveScore(b, j) < best.score)
  {
    var ms := Candidates(b, 9);
    CandidateScoresBounded(b, 9);
    var e: Index :| b[e] == Empty;
    assert Move(e, MoveScore(b, e)) in ms;
    BestOfAscending(ms);
    var best := BestOf(ms);
    assert Move(best.move.value, best.score) in ms;
    forall j: Index | b[j] == Empty
      ensures MoveScore(b, j) <= best.score
      ensures j < best.move.value ==> MoveScore(b, j) < best.score
    {
      assert Move(j, MoveScore(b, j)) in ms;
    }
  }

  /**
   * Over moves with ascending indices and scores above -1000, the running
   * best is a member move whose score is the maximum and which no lower
   * index reaches.
   */
  lemma BestOfAscending(ms: seq<Move>)
    requires ms != []
    requires forall x :: 0 <= x < |ms| ==> ms[x].score > NegInf
    requires Ascending(ms)
    ensures var best := BestOf(ms);
            best.move.Some? && Move(best.move.value, best.score) in ms &&
            (forall m :: m in ms ==> m.score <= best.score) &&
            (forall m :: m in ms && m.index < best.move.value ==> m.score < best.score)
  {
    BestOfIsFirstMaximum(ms);
    var k :| 0 <= k < |ms| && BestOf(ms) == Best(ms[k].score, Some(ms[k].index)) &&
             forall x :: 0 <= x < k ==> ms[x].score < ms[k].score;
    assert ms[k] in ms;
    forall m | m in ms && m.index < ms[k].index ensures m.score < ms[k].score {
      var x :| 0 <= x < |ms| && ms[x] == m;
      AscendingPosition(ms, x, k);
    }
  }

  /** In an ascending list a lower cell comes at an earlier position. */
  lemma AscendingPosition(ms: seq<Move>, x: nat, k: nat)
    requires Ascending(ms) && x < |ms| && k < |ms| && ms[x].index < ms[k].index
    ensures x < k
  {
  }

  /** Moves in strictly ascending cell order, as availableMoves is built. */
  predicate Ascending(ms: seq<Move>)
  {
    forall x, y :: 0 <= x < y < |ms| ==> ms[x].index < ms[y].index
  }

  /** A move below every move of an ascending list can be put in front of it. */
  lemma AscendingCons(h: Move, rest: seq<Move>)
    requires Ascending(rest) && forall m :: m in rest ==> h.index < m.index
    ensures Ascending([h] + rest)
  {
    var l := [h] + rest;
    forall x, y | 0 <= x < y < |l| ensures l[x].index < l[y].index {
      assert l[y] == rest[y - 1];
      if x == 0 {
        assert rest[y - 1] in rest;
      } else {
        assert l[x] == rest[x - 1];
      }
    }
  }

  /** The filter keeps the candidates' order: over ascending candidates goodMoves is ascending, so no move is repeated. */
  lemma {:induction false} GoodMovesAscending(ms: seq<Move>, best: int)
    requires Ascending(ms)
    ensures Ascending(GoodMoves(ms, best))
  {
    if ms != [] {
      var tail := ms[1..];
      assert Ascending(tail) by {
        forall x, y | 0 <= x < y < |tail| ensures tail[x].index < tail[y].index {
          assert tail[x] == ms[x + 1] && tail[y] == ms[y + 1];
        }
      }
      GoodMovesAscending(tail, best);
      var rest := GoodMoves(tail, best);
      if best - 2 <= ms[0].score <= best + 2 {
        forall m | m in rest ensures ms[0].index < m.index {
          assert m in tail;
          var k :| 0 <= k < |tail| && tail[k] == m;
          assert ms[k + 1] == m;
        }
        AscendingCons(ms[0], rest);
      }
    }
  }

  /** The best candidate lies in its own band, so goodMoves is empty only when there are no candidates. */
  lemma GoodMovesHoldBest(b: Board)
    ensures var ms := Candidates(b, 9);
            |GoodMoves(ms, BestOf(ms).score)| == 0 <==> IsBoardFull(b)
  {
    var ms := Candidates(b, 9);
    var good := GoodMoves(ms, BestOf(ms).score);
    if !IsBoardFull(b) {
      BestMoveIsLowestMaximum(b);
      var i := BestOf(ms).move.value;
      assert Move(i, MoveScore(b, i)) in good;
    }
  }

  /**
   * findBestMove's choice: nothing on a full board; otherwise an empty cell
   * whose score is within 2 of the best score of any empty cell.
   */
  lemma SelectMoveIsNearOptimal(b: Board, r: real)
    requires 0.0 <= r < 1.0
    ensures SelectMove(b, r).None? <==> IsBoardFull(b)
    ensures SelectMove(b, r).Some? ==>
              var i := SelectMove(b, r).value;
              b[i] == Empty && forall j: Index :: b[j] == Empty ==> MoveScore(b, j) - 2 <= MoveScore(b, i)
  {
    var ms := Candidates(b, 9);
    var best := BestOf(ms);
    var good := GoodMoves(ms, best.score);
    GoodMovesHoldBest(b);
    if !IsBoardFull(b) {
      BestMoveIsLowestMaximum(b);
      var m := good[Pick(r, |good|)];
      assert m in good;
    }
  }

  /**
   * When some empty cell wins for O at once, bestScore is 10 and bestMove
   * is the lowest such cell.
   */
  lemma ImmediateWinIsBest(b: Board, i: Index)
    requires b[i] == Empty && CheckWinner(b[i := Mark(O)]) == Some(O)
    requires forall j: Index :: j < i && b[j] == Empty ==> CheckWinner(b[j := Mark(O)]) != Some(O)
    ensures BestOf(Candidates(b, 9)) == Best(10, Some(i))
  {
    BestMoveIsLowestMaximum(b);
    var best := BestOf(Candidates(b, 9));
    MoveScoreTenIffWin(b, i);
    MoveScoreBounds(b, best.move.value);
    MoveScoreTenIffWin(b, best.move.value);
    forall j: Index | j < i && b[j] == Empty ensures MoveScore(b, j) < 10 {
      MoveScoreTenIffWin(b, j);
    }
  }

  /** A cell that scores more than 2 above every other empty cell is the only good move: it is always chosen. */
  lemma ClearBestIsChosen(b: Board, i: Index, r: real)
    requires 0.0 <= r < 1.0 && b[i] == Empty
    requires forall j: Index :: b[j] == Empty && j != i ==> MoveScore(b, j) < MoveScore(b, i) - 2
    ensures SelectMove(b, r) == Some(i)
  {
    BestMoveIsLowestMaximum(b);
    var ms := Candidates(b, 9);
    var best := BestOf(ms);
    assert best.score == MoveScore(b, i);
    var good := GoodMoves(ms, best.score);
    assert Move(i, MoveScore(b, i)) in good;
    var m := good[Pick(r, |good|)];
    assert m in good;
  }

  /** makeRandomMove's choice is an empty cell whenever there is one, and nothing on a full board. */
  lemma RandomChoiceIsEmptyCell(b: Board, r: real)
    requires 0.0 <= r < 1.0
    ensures RandomChoice(b, r).None? <==> IsBoardFull(b)
    ensures RandomChoice(b, r).Some? ==> RandomChoice(b, r).value < 9 && b[RandomChoice(b, r).value] == Empty
  {
    FullIffNoEmptyCells(b);
    var e := EmptyCells(b);
    if |e| > 0 {
      assert e[Pick(r, |e|)] in e;
    }
  }

  /** The draw k / |goodMoves| makes findBestMove return the k-th good move: each good move can be returned. */
  lemma DrawSelectsGoodMove(b: Board, k: nat)
    requires k < |GoodMoves(Candidates(b, 9), BestOf(Candidates(b, 9)).score)|
    ensures var good := GoodMoves(Candidates(b, 9), BestOf(Candidates(b, 9)).score);
            var r := (k as real) / (|good| as real);
            0.0 <= r < 1.0 && SelectMove(b, r) == Some(good[k].index)
  {
    var good := GoodMoves(Candidates(b, 9), BestOf(Candidates(b, 9)).score);
    PickAtSliceStart(|good|, k);
  }

  /**
   * Each good move owns exactly one slice of the draw: findBestMove returns
   * the x-th good move exactly when x / |goodMoves| <= r < (x + 1) / |goodMoves|.
   */
  lemma SelectMoveSlice(b: Board, r: real, x: nat)
    requires 0.0 <= r < 1.0
    requires x < |GoodMoves(Candidates(b, 9), BestOf(Candidates(b, 9)).score)|
    ensures var n := |GoodMoves(Candidates(b, 9), BestOf(Candidates(b, 9)).score)|;
            var good := GoodMoves(Candidates(b, 9), BestOf(Candidates(b, 9)).score);
            SelectMove(b, r) == Some(good[x].index) <==>
            (x as real) / (n as real) <= r < ((x + 1) as real) / (n as real)
  {
    var ms := Candidates(b, 9);
    var good := GoodMoves(ms, BestOf(ms).score);
    GoodMovesAscending(ms, BestOf(ms).score);
    assert Ascending(good);
    var k := Pick(r, |good|);
    assert SelectMove(b, r) == Some(good[k].index);
    if good[k].index == good[x].index {
      assert k == x;
    }
    PickInterval(r, |good|, x);
  }

  /** The draw k / |emptyCells| makes makeRandomMove play the k-th empty cell: each empty cell can be played. */
  lemma DrawSelectsEmptyCell(b: Board, k: nat)
    requires k < |EmptyCells(b)|
    ensures var r := (k as real) / (|EmptyCells(b)| as real);
            0.0 <= r < 1.0 && RandomChoice(b, r) == Some(EmptyCells(b)[k])
  {
    PickAtSliceStart(|EmptyCells(b)|, k);
  }

  /** Every empty cell is makeRandomMove's choice for some draw. */
  lemma EveryEmptyCellIsReachable(b: Board, i: Index)
    requires b[i] == Empty
    ensures exists r: real :: 0.0 <= r < 1.0 && RandomChoice(b, r) == Some(i)
  {
    var e := EmptyCells(b);
    assert i in e;
    var k :| 0 <= k < |e| && e[k] == i;
    DrawSelectsEmptyCell(b, k);
  }

  /** Without an O win on the board, a position scores at most 9 - depth. */
  lemma NoWinBound(b: Board, depth: nat, maximizing: bool)
    requires depth <= 9 && CheckWinner(b) != Some(O)
    ensures MinimaxValue(b, depth, maximizing) <= 9 - depth
  {
    WinnerCases(b);
    if Open(b, depth) {
      OpenValueBound(b, depth, maximizing);
    }
  }

  // ---------------------------------------------------------------------------
  // The depth cap limits what a side can still achieve
  // ---------------------------------------------------------------------------

  /** Marks `p` can still add below a node at `depth`: every other ply, starting now if `p` is to move. */
  function MovesLeft(depth: nat, maximizing: bool, p: Player): nat
  {
    var plies := if depth >= DepthLimit then 0 else DepthLimit - depth;
    if SideToMove(maximizing) == p then (plies + 1) / 2 else plies / 2
  }

  /**
   * If `p` cannot reach three marks before the depth cap, no position below
   * is a win for `p`: the value is at least 0 when `p` is X, at most 0 when `p` is O.
   */
  lemma {:induction false} CannotWinBound(b: Board, depth: nat, maximizing: bool, p: Player)
    requires depth <= DepthLimit && Count(b, p) + MovesLeft(depth, maximizing, p) <= 2
    ensures if p == X then MinimaxValue(b, depth, maximizing) >= 0 else MinimaxValue(b, depth, maximizing) <= 0
    decreases DepthLimit - depth, 1
  {
    FewMarksCannotWin(b, p);
    WinnerCases(b);
    if Open(b, depth) {
      var lo := if p == X then 0 else -(9 - depth);
      var hi := if p == X then 9 - depth else 0;
      forall j: Index | b[j] == Empty
        ensures lo <= ChildValue(b, depth, maximizing, j) <= hi
      {
        ChildValueBound(b, depth, maximizing, j);
        ChildCannotWinBound(b, depth, maximizing, p, j);
      }
      BestChildWithin(b, depth, maximizing, lo, hi);
      OpenValueIsBestChild(b, depth, maximizing);
    }
  }

  /** One ply uses up one of the mover's remaining marks and none of the other side's. */
  lemma MovesLeftStep(depth: nat, maximizing: bool, p: Player)
    requires depth < DepthLimit
    ensures SideToMove(maximizing) == p ==> MovesLeft(depth + 1, !maximizing, p) + 1 == MovesLeft(depth, maximizing, p)
    ensures SideToMove(maximizing) != p ==> MovesLeft(depth + 1, !maximizing, p) == MovesLeft(depth, maximizing, p)
  {
  }

  /** The child step of CannotWinBound: marking a cell uses up one of the mover's remaining marks. */
  lemma {:induction false} ChildCannotWinBound(b: Board, depth: nat, maximizing: bool, p: Player, j: Index)
    requires depth < DepthLimit && b[j] == Empty
    requires Count(b, p) + MovesLeft(depth, maximizing, p) <= 2
    ensures if p == X then ChildValue(b, depth, maximizing, j) >= 0 else ChildValue(b, depth, maximizing, j) <= 0
    decreases DepthLimit - depth, 0
  {
    var mover := SideToMove(maximizing);
    var c := b[j := Mark(mover)];
    CountAfterPlace(b, j, mover);
    MovesLeftStep(depth, maximizing, p);
    if mover == p {
      assert Count(c, p) == Count(b, p) + 1;
    } else {
      assert p == Other(mover);
      assert Count(c, p) == Count(b, p);
    }
    assert Count(c, p) + MovesLeft(depth + 1, !maximizing, p) <= 2;
    CannotWinBound(c, depth + 1, !maximizing, p);
    assert ChildValue(b, depth, maximizing, j) == MinimaxValue(c, depth + 1, !maximizing);
  }

  /** On the empty board neither side can complete a line within the depth cap: O to move scores 0. */
  lemma EmptyBoardScoresZero()
    ensures MinimaxValue(EmptyBoard(), 0, true) == 0
  {
    var e := EmptyBoard();
    assert Count(e, X) == 0 && Count(e, O) == 0;
    CannotWinBound(e, 0, true, X);
    CannotWinBound(e, 0, true, O);
  }

  /** On the empty board X places at most two marks before the cap, so no first move of O scores below 0. */
  lemma EmptyBoardMovesScoreNonNegative()
    ensures forall i: Index :: MoveScore(EmptyBoard(), i) >= 0
  {
    var e := EmptyBoard();
    assert Count(e, X) == 0;
    forall i: Index ensures MoveScore(e, i) >= 0 {
      CountAfterPlace(e, i, O);
      CannotWinBound(e[i := Mark(O)], 0, false, X);
    }
  }

  // ---------------------------------------------------------------------------
  // Two worked positions
  // ---------------------------------------------------------------------------

  /** O O _ / X X _ / _ _ _, O to move. */
  const WinAtTwo: Board := [Mark(O), Mark(O), Empty, Mark(X), Mark(X), Empty, Empty, Empty, Empty]

  /** X X _ / O O _ / _ _ _, O to move. */
  const BlockAtTwo: Board := [Mark(X), Mark(X), Empty, Mark(O), Mark(O), Empty, Empty, Empty, Empty]

  /** Where O can win at cell 2 and nowhere else, every empty cell but 2 scores at most 7. */
  lemma WinAtTwoOthersLow(i: Index)
    requires WinAtTwo[i] == Empty && i != 2
    ensures MoveScore(WinAtTwo, i) <= 7
  {
    if i == 5 {
      BlockingFiveScoresLow();
    } else {
      var c := WinAtTwo[i := Mark(O)];
      assert CheckWinner(c) == None;
      MinimaxIsBestChild(c, 0, false);
      assert CheckWinner(c[5 := Mark(X)]) == Some(X);
      assert ChildValue(c, 0, false, 5) == -9;
    }
  }

  /** Blocking X at 5 lets X block O at 2, after which O has no win left within the next move. */
  lemma BlockingFiveScoresLow()
    ensures MoveScore(WinAtTwo, 5) <= 7
  {
    var c := WinAtTwo[5 := Mark(O)];
    assert CheckWinner(c) == None;
    var d := c[2 := Mark(X)];
    assert CheckWinner(d) == None;
    forall j: Index | d[j] == Empty ensures ChildValue(d, 1, true, j) <= 7 {
      assert CheckWinner(d[j := Mark(O)]) != Some(O);
      NoWinBound(d[j := Mark(O)], 2, false);
    }
    MinimaxIsBestChild(d, 1, true);
    assert ChildValue(c, 0, false, 2) <= 7;
    MinimaxIsBestChild(c, 0, false);
  }

  /** findBestMove takes the only winning cell, whatever the draw. */
  lemma TakesTheWinAtTwo(r: real)
    requires 0.0 <= r < 1.0
    ensures SelectMove(WinAtTwo, r) == Some(2)
  {
    var b := WinAtTwo;
    assert CheckWinner(b[2 := Mark(O)]) == Some(O);
    MoveScoreTenIffWin(b, 2);
    forall j: Index | b[j] == Empty && j != 2 ensures MoveScore(b, j) < MoveScore(b, 2) - 2 {
      WinAtTwoOthersLow(j);
    }
    ClearBestIsChosen(b, 2, r);
  }

  /** After O blocks at 2, every reply of X leaves O a win one move later: the block scores 8. */
  lemma BlockAtTwoScoresEight()
    ensures MoveScore(BlockAtTwo, 2) == 8
  {
    var c := BlockAtTwo[2 := Mark(O)];
    assert CheckWinner(c) == None;
    forall j: Index | c[j] == Empty ensures ChildValue(c, 0, false, j) == 8 {
      var d := c[j := Mark(X)];
      assert CheckWinner(d) == None;
      var w: Index := if j == 5 then 6 else 5;
      assert CheckWinner(d[w := Mark(O)]) == Some(O);
      assert ChildValue(d, 1, true, w) == 8;
      MinimaxIsBestChild(d, 1, true);
      NoWinBound(d, 1, true);
    }
    MinimaxIsBestChild(c, 0, false);
  }

  /**
   * The tolerance band at work: O wins at once at cell 5, yet with the draw
   * 0 findBestMove plays the block at cell 2, whose score 8 lies within 2 of
   * the best score 10.
   */
  lemma BandAdmitsBlockOverWin()
    ensures CheckWinner(BlockAtTwo[5 := Mark(O)]) == Some(O)
    ensures SelectMove(BlockAtTwo, 0.0) == Some(2)
  {
    var b := BlockAtTwo;
    assert CheckWinner(b[5 := Mark(O)]) == Some(O);
    assert CheckWinner(b[2 := Mark(O)]) != Some(O);
    ImmediateWinIsBest(b, 5);
    BlockAtTwoScoresEight();
    var ms := Candidates(b, 9);
    assert Move(2, 8) in ms;
    assert ms[0] in ms;
    var x :| 0 <= x < |ms| && ms[x] == Move(2, 8);
    assert ms[0] == Move(2, 8);
    assert GoodMoves(ms, 10)[0] == Move(2, 8);
  }

  // ---------------------------------------------------------------------------
  // findBestMove, in place on the board array
  // ---------------------------------------------------------------------------

  /**
   * findBestMove: tries O on every empty cell, clearing it after scoring, so
   * the board is returned unchanged; the result is SelectMove of that board.
   */
  method FindBestMove(board: array<Cell>, r: real) returns (move: Option<Index>)
    requires board.Length == 9 && 0.0 <= r < 1.0
    modifies board
    ensures board[..] == old(board[..])
    ensures move == SelectMove(old(board[..]), r)
    ensures move.None? <==> IsBoardFull(old(board[..]))
    ensures move.Some? ==> old(board[..])[move.value] == Empty
  {
    ghost var b: Board := board[..];
    var bestScore := NegInf;
    var bestMove: Option<Index> := None;
    var availableMoves: seq<Move> := [];

    for i := 0 to 9
      invariant board[..] == b
      invariant availableMoves == Candidates(b, i)
      invariant Best(bestScore, bestMove) == BestOf(availableMoves)
    {
      if board[i] == Empty {
        board[i] := Mark(O);
        assert board[..] == b[i := Mark(O)];
        var score := Minimax(board, 0, false);
        board[i] := Empty;
        assert board[..] == b[i := Mark(O)][i := Empty];
        PlaceThenClear(b, i, O);

        var prev := availableMoves;
        availableMoves := availableMoves + [Move(i, score)];
        assert availableMoves[..|availableMoves| - 1] == prev;
        if score > bestScore {
          bestScore := score;
          bestMove := Some(i);
        }
      }
    }

    var goodMoves := GoodMoves(availableMoves, bestScore);
    if |goodMoves| > 0 {
      var k := Pick(r, |goodMoves|);
      move := Some(goodMoves[k].index);
    } else {
      move := bestMove;
    }
    SelectMoveIsNearOptimal(b, r);
  }
}
