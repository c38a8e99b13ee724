/**
 * The automated player: a two-ply minimax search with alpha-beta cut-offs
 * over real boards. Each method is proved to compute what the matching
 * function of SearchModel specifies, so the properties proved there hold of
 * the moves the player chooses.
 */
module TablutAI {
  import opened Wrappers
  import opened Squares
  import opened Pieces
  import opened Moves
  import opened BoardModel
  import opened TablutBoard
  import opened SearchModel

  class AI {
    /** The side this player moves for (myPiece()). */
    const me: Side
    /** The move found by the last saving search. */
    var lastFoundMove: Option<Move>

    constructor (me: Side)
      ensures this.me == me && lastFoundMove == None
    {
      this.me := me;
      lastFoundMove := None;
    }

    /** findMove(): search a fresh copy of the game board and return the move it saved. */
    method FindMoveRoot(game: Board) returns (move: Option<Move>)
      requires game.Valid()
      modifies this
      ensures move == lastFoundMove
      ensures move == RootMove(game.Abs(), me)
    {
      var b := new Board.Of(game);
      lastFoundMove := None;
      var sense := 1;
      if me == Black {
        sense := -1;
      }
      var _ := FindMove(b, MaxDepth(b), true, sense, -INFTY, INFTY, game.winner);
      move := lastFoundMove;
    }

    /**
     * findMove(board, depth, saveMove, sense, alpha, beta): the value of
     * board searched depth plies down, leaving board as the depth-0 scan
     * leaves it, and saving the move found when saveMove and the node
     * reaches its final step. `live` is the game board's winner.
     */
    method FindMove(board: Board, depth: nat, saveMove: bool, sense: int, alpha: int, beta: int,
                    live: Option<Side>) returns (v: int)
      requires board.Valid()
      modifies this, board, board.cells
      ensures board.Valid() && board.cells == old(board.cells)
      ensures var r := Search(old(board.Abs()), depth, sense, alpha, beta, me, live);
        v == r.value && board.Abs() == r.board
        && lastFoundMove == if saveMove && r.recorded then r.move else old(lastFoundMove)
      decreases depth, 2
    {
      var bestSoFar := 0;
      var bestMove: Option<Move> := None;
      ghost var s := board.Abs();
      ghost var r := Search(s, depth, sense, alpha, beta, me, live);
      if sense == 1 {
        bestSoFar := -INFTY;
        if board.winner.Some? {
          SearchDecided(s, depth, sense, alpha, beta, me, live);
          if board.winner == Some(White) {
            return WINNING_VALUE;
          } else {
            return -WINNING_VALUE;
          }
        }
        if depth == 0 {
          assert r.board == SimpleMax(s, me, live, alpha, beta).board && !r.recorded;
          v := SimpleFindMax(board, alpha, beta, live);
          return;
        }
        var moves := board.LegalMoves(me);
        NodeLoops(s, depth, alpha, beta, me, live);
        MaxLoopChoice(s, depth, moves, alpha, beta, me, live);
        bestSoFar, bestMove := MaximizeOver(board, depth, moves, alpha, beta, live);
        assert r.recorded && r.board == s && bestSoFar == r.value && bestMove == r.move;
      } else if sense == -1 {
        bestSoFar := INFTY;
        if board.winner.Some? {
          SearchDecided(s, depth, sense, alpha, beta, me, live);
          if board.winner == Some(White) {
            return WINNING_VALUE;
          } else {
            return -WINNING_VALUE;
          }
        }
        if depth == 0 {
          assert r.board == SimpleMin(s, me, live, alpha, beta).board && !r.recorded;
          v := SimpleFindMin(board, alpha, beta, live);
          return;
        }
        var moves := board.LegalMoves(me);
        NodeLoops(s, depth, alpha, beta, me, live);
        MinLoopChoice(s, depth, moves, alpha, beta, me, live);
        bestSoFar, bestMove := MinimizeOver(board, depth, moves, alpha, beta, live);
        assert r.recorded && r.board == s && bestSoFar == r.value && bestMove == r.move;
      } else {
        assert r == Reply(0, None, true, [], s);
      }
      assert board.Abs() == s;
      if saveMove {
        lastFoundMove := bestMove;
      }
      return bestSoFar;
    }

    /** The loop of a maximizing findMove node over moves, each child searched on a fresh copy. */
    method MaximizeOver(board: Board, depth: nat, moves: seq<Move>, alpha: int, beta: int,
                        live: Option<Side>) returns (bestSoFar: int, bestMove: Option<Move>)
      requires board.Valid() && depth >= 1
      modifies this
      ensures lastFoundMove == old(lastFoundMove)
      ensures var r := MaxLoop(old(board.Abs()), depth, moves, -INFTY, None, alpha, beta, me, live);
        bestSoFar == r.value && bestMove == r.move
      decreases depth, 1
    {
      ghost var s := board.Abs();
      ghost var target := MaxLoop(s, depth, moves, -INFTY, None, alpha, beta, me, live);
      bestSoFar, bestMove := -INFTY, None;
      var a := alpha;
      var i := 0;
      while i < |moves|
        invariant 0 <= i <= |moves|
        invariant lastFoundMove == old(lastFoundMove)
        invariant var t := MaxLoop(s, depth, moves[i..], bestSoFar, bestMove, a, beta, me, live);
          t.value == target.value && t.move == target.move
      {
        var move := moves[i];
        var response := Respond(board, move, depth - 1, -1, a, beta, live);
        assert moves[i..][0] == move && moves[i..][1..] == moves[i + 1..];
        if response >= bestSoFar {
          bestSoFar, bestMove := response, Some(move);
          a := Max(a, response);
          if beta <= a {
            break;
          }
        }
        i := i + 1;
      }
    }

    /** The loop of a minimizing findMove node over moves, each child searched on a fresh copy. */
    method MinimizeOver(board: Board, depth: nat, moves: seq<Move>, alpha: int, beta: int,
                        live: Option<Side>) returns (bestSoFar: int, bestMove: Option<Move>)
      requires board.Valid() && depth >= 1
      modifies this
      ensures lastFoundMove == old(lastFoundMove)
      ensures var r := MinLoop(old(board.Abs()), depth, moves, INFTY, None, alpha, beta, me, live);
        bestSoFar == r.value && bestMove == r.move
      decreases depth, 1
    {
      ghost var s := board.Abs();
      ghost var target := MinLoop(s, depth, moves, INFTY, None, alpha, beta, me, live);
      bestSoFar, bestMove := INFTY, None;
      var b := beta;
      var i := 0;
      while i < |moves|
        invariant 0 <= i <= |moves|
        invariant lastFoundMove == old(lastFoundMove)
        invariant var t := MinLoop(s, depth, moves[i..], bestSoFar, bestMove, alpha, b, me, live);
          t.value == target.value && t.move == target.move
      {
        var move := moves[i];
        var response := Respond(board, move, depth - 1, 1, alpha, b, live);
        assert moves[i..][0] == move && moves[i..][1..] == moves[i + 1..];
        if response <= bestSoFar {
          bestSoFar, bestMove := response, Some(move);
          b := Min(b, response);
          if b <= alpha {
            break;
          }
        }
        i := i + 1;
      }
    }

    /** The child search of a findMove loop: a fresh copy of board, the move made on it, searched one ply down. */
    method Respond(board: Board, move: Move, below: nat, sense: int, alpha: int, beta: int,
                   live: Option<Side>) returns (response: int)
      requires board.Valid()
      modifies this
      ensures lastFoundMove == old(lastFoundMove)
      ensures response == Response(old(board.Abs()), below + 1, move, sense, alpha, beta, me, live)
      decreases below + 1, 0
    {
      ghost var s := board.Abs();
      var copy := new Board();
      copy.Copy(board);
      copy.MakeMoveOf(move);
      assert copy.Abs() == Child(s, move);
      response := FindMove(copy, below, false, sense, alpha, beta, live);
    }

    /** simpleFindMax(board, alpha, beta): make each move in turn on board itself and keep the best score. */
    method SimpleFindMax(board: Board, alpha: int, beta: int, live: Option<Side>) returns (v: int)
      requires board.Valid()
      modifies board, board.cells
      ensures board.Valid() && board.cells == old(board.cells)
      ensures var r := SimpleMax(old(board.Abs()), me, live, alpha, beta);
        v == r.value && board.Abs() == r.board
    {
      ghost var s0 := board.Abs();
      if board.winner == Some(White) {
        assert SimpleMax(s0, me, live, alpha, beta) == Scan(WINNING_VALUE, s0, 0);
        return WINNING_VALUE;
      } else if live == Some(Black) {
        assert SimpleMax(s0, me, live, alpha, beta) == Scan(-WINNING_VALUE, s0, 0);
        return -WINNING_VALUE;
      }
      var moves := board.LegalMoves(me);
      TrailSteps(s0, moves);
      v := ScanForMax(board, moves, alpha, beta, Scores(s0, moves), Trail(s0, moves));
      TrailIsApplied(s0, moves, MaxTally(Scores(s0, moves), -INFTY, alpha, beta).count);
    }

    /** The loop of simpleFindmax over moves, each made on board itself in turn; states are the boards it
      * passes through and xs their scores. */
    method ScanForMax(board: Board, moves: seq<Move>, alpha: int, beta: int, ghost xs: seq<int>, ghost states: seq<State>)
      returns (bestSoFar: int)
      requires board.Valid() && Steps(moves, xs, states) && board.Abs() == states[0]
      modifies board, board.cells
      ensures board.Valid() && board.cells == old(board.cells)
      ensures var t := MaxTally(xs, -INFTY, alpha, beta);
        bestSoFar == t.value && board.Abs() == states[t.count]
    {
      ghost var total := MaxTally(xs, -INFTY, alpha, beta);
      bestSoFar := -INFTY;
      var a := alpha;
      var i := 0;
      while i < |moves|
        invariant 0 <= i <= |moves|
        invariant board.Valid() && board.cells == old(board.cells) && board.Abs() == states[i]
        invariant var t := MaxTally(xs[i..], bestSoFar, a, beta);
          t.value == total.value && i + t.count == total.count
      {
        assert xs[i..][0] == xs[i] && xs[i..][1..] == xs[i + 1..];
        var val := MoveAndScore(board, moves, i, xs, states);
        if val >= bestSoFar {
          bestSoFar := val;
          a := Max(a, val);
          if beta <= a {
            assert total.count == i + 1;
            break;
          }
        }
        i := i + 1;
      }
    }

    /** simpleFindMin(board, alpha, beta): the dual of simpleFindMax, keeping the least score. */
    method SimpleFindMin(board: Board, alpha: int, beta: int, live: Option<Side>) returns (v: int)
      requires board.Valid()
      modifies board, board.cells
      ensures board.Valid() && board.cells == old(board.cells)
      ensures var r := SimpleMin(old(board.Abs()), me, live, alpha, beta);
        v == r.value && board.Abs() == r.board
    {
      ghost var s0 := board.Abs();
      if board.winner == Some(White) {
        assert SimpleMin(s0, me, live, alpha, beta) == Scan(WINNING_VALUE, s0, 0);
        return WINNING_VALUE;
      } else if live == Some(Black) {
        assert SimpleMin(s0, me, live, alpha, beta) == Scan(-WINNING_VALUE, s0, 0);
        return -WINNING_VALUE;
      }
      var moves := board.LegalMoves(me);
      TrailSteps(s0, moves);
      v := ScanForMin(board, moves, alpha, beta, Scores(s0, moves), Trail(s0, moves));
      TrailIsApplied(s0, moves, MinTally(Scores(s0, moves), INFTY, alpha, beta).count);
    }

    /** The loop of simpleFindmin over moves, each made on board itself in turn; states are the boards it
      * passes through and xs their scores. */
    method ScanForMin(board: Board, moves: seq<Move>, alpha: int, beta: int, ghost xs: seq<int>, ghost states: seq<State>)
      returns (bestSoFar: int)
      requires board.Valid() && Steps(moves, xs, states) && board.Abs() == states[0]
      modifies board, board.cells
      ensures board.Valid() && board.cells == old(board.cells)
      ensures var t := MinTally(xs, INFTY, alpha, beta);
        bestSoFar == t.value && board.Abs() == states[t.count]
    {
      ghost var total := MinTally(xs, INFTY, alpha, beta);
      bestSoFar := INFTY;
      var b := beta;
      var i := 0;
      while i < |moves|
        invariant 0 <= i <= |moves|
        invariant board.Valid() && board.cells == old(board.cells) && board.Abs() == states[i]
        invariant var t := MinTally(xs[i..], bestSoFar, alpha, b);
          t.value == total.value && i + t.count == total.count
      {
        assert xs[i..][0] == xs[i] && xs[i..][1..] == xs[i + 1..];
        var val := MoveAndScore(board, moves, i, xs, states);
        if val <= bestSoFar {
          bestSoFar := val;
          b := Min(b, val);
          if b <= alpha {
            assert total.count == i + 1;
            break;
          }
        }
        i := i + 1;
      }
    }

    /** One step of the loops of simpleFindMax and simpleFindMin: make the i-th move on board and score it. */
    method MoveAndScore(board: Board, moves: seq<Move>, i: nat, ghost xs: seq<int>, ghost states: seq<State>)
      returns (val: int)
      requires board.Valid() && i < |moves| && Steps(moves, xs, states) && board.Abs() == states[i]
      modifies board, board.cells
      ensures board.Valid() && board.cells == old(board.cells)
      ensures board.Abs() == states[i + 1] && val == xs[i]
    {
      board.MakeMoveOf(moves[i]);
      val := StaticScore(board);
    }

    /** staticScore(board): the material balance, or a sentinel once the KING is gone or on the edge. */
    method StaticScore(board: Board) returns (v: int)
      requires board.Valid()
      ensures v == Score(board.Cells())
    {
      var kingVal := 7;
      var white := board.PieceLocations(White);
      var black := board.PieceLocations(Black);
      var wc := |white| + kingVal;
      var bc := |black|;
      var king := board.KingPosition();
      if king.Some? {
        v := wc - bc;
        if IsEdge(king.value) {
          v := WILL_WIN_VALUE;
        }
      } else {
        v := -WILL_WIN_VALUE;
      }
    }
  }
}
