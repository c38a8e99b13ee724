/**
 * The search of AI.java as functions on board states: the static score,
 * the one-ply scans of simpleFindMax and simpleFindMin, and the
 * depth-bounded alpha-beta findMove. `me` is the AI's own piece
 * (myPiece()); `live` is the winner of the game board the player holds,
 * which simpleFindMax and simpleFindMin consult besides their argument.
 */
module SearchModel {
  import opened Wrappers
  import opened Squares
  import opened Pieces
  import opened Moves
  import opened BoardModel
  import opened BoardProperties

  /** A win, positive for WHITE and negative for BLACK. */
  const WINNING_VALUE: int := INT_MAX - 20
  /** A win one move ahead, as staticScore reports it. */
  const WILL_WIN_VALUE: int := INT_MAX - 40
  /** A magnitude beyond every score. */
  const INFTY: int := INT_MAX

  function Max(a: int, b: int): (r: int)
    ensures r >= a && r >= b && (r == a || r == b)
  {
    if a >= b then a else b
  }

  function Min(a: int, b: int): (r: int)
    ensures r <= a && r <= b && (r == a || r == b)
  {
    if a <= b then a else b
  }

  /** Math.max folded over xs, starting from a. */
  function RunMax(a: int, xs: seq<int>): int
    decreases |xs|
  {
    if xs == [] then a else RunMax(Max(a, xs[0]), xs[1..])
  }

  /** Math.min folded over xs, starting from a. */
  function RunMin(a: int, xs: seq<int>): int
    decreases |xs|
  {
    if xs == [] then a else RunMin(Min(a, xs[0]), xs[1..])
  }

  /** RunMax(a, xs) is the largest of a and the elements of xs. */
  lemma {:induction false} RunMaxIsMax(a: int, xs: seq<int>)
    ensures a <= RunMax(a, xs)
    ensures forall i | 0 <= i < |xs| :: xs[i] <= RunMax(a, xs)
    ensures RunMax(a, xs) == a || exists i | 0 <= i < |xs| :: xs[i] == RunMax(a, xs)
    decreases |xs|
  {
    if xs != [] {
      RunMaxIsMax(Max(a, xs[0]), xs[1..]);
      assert forall i | 1 <= i < |xs| :: xs[i] == xs[1..][i - 1];
    }
  }

  /** RunMin(a, xs) is the smallest of a and the elements of xs. */
  lemma {:induction false} RunMinIsMin(a: int, xs: seq<int>)
    ensures RunMin(a, xs) <= a
    ensures forall i | 0 <= i < |xs| :: RunMin(a, xs) <= xs[i]
    ensures RunMin(a, xs) == a || exists i | 0 <= i < |xs| :: xs[i] == RunMin(a, xs)
    decreases |xs|
  {
    if xs != [] {
      RunMinIsMin(Min(a, xs[0]), xs[1..]);
      assert forall i | 1 <= i < |xs| :: xs[i] == xs[1..][i - 1];
    }
  }

  // ---------------------------------------------------------------------
  // staticScore and maxDepth

  /** staticScore: the win sentinels for a missing or escaped KING, else material. */
  function Score(c: Cells): (v: int)
    ensures -WILL_WIN_VALUE <= v <= WILL_WIN_VALUE
  {
    var k := KingOf(c);
    if k.None? then -WILL_WIN_VALUE
    else if IsEdge(k.value) then WILL_WIN_VALUE
    else |PieceLocationsOf(c, White)| + 7 - |PieceLocationsOf(c, Black)|
  }

  /** maxDepth(board): the search looks two plies ahead whatever the board. */
  function MaxDepth<B>(board: B): (d: nat)
    ensures d == 2
  {
    2
  }

  /** The sentinels and INFTY are ordered, above every material score. */
  lemma SentinelsOrdered()
    ensures INFTY > WINNING_VALUE > WILL_WIN_VALUE > 88
  {
  }

  /**
   * The score by cases on the position: no KING gives -WILL_WIN_VALUE, a
   * KING on the edge WILL_WIN_VALUE, and otherwise the WHITE pieces (KING
   * included) plus 7 minus the BLACK pieces, strictly inside the sentinels.
   */
  lemma ScoreCases(c: Cells)
    requires AtMostOneKing(c)
    ensures (forall k: Square :: PieceAt(c, k) != King) ==> Score(c) == -WILL_WIN_VALUE
    ensures (exists k: Square :: PieceAt(c, k) == King && IsEdge(k)) ==> Score(c) == WILL_WIN_VALUE
    ensures (exists k: Square :: PieceAt(c, k) == King && !IsEdge(k)) ==>
      Score(c) == |PieceLocationsOf(c, White)| + 7 - |PieceLocationsOf(c, Black)| &&
      -74 <= Score(c) <= 88 && -WILL_WIN_VALUE < Score(c) < WILL_WIN_VALUE
  {
    KingOfCases(c);
  }

  /** The value of a decided board: WINNING_VALUE for WHITE, -WINNING_VALUE for BLACK. */
  function Sentinel(w: Side): int
  {
    if w == White then WINNING_VALUE else -WINNING_VALUE
  }

  // ---------------------------------------------------------------------
  // simpleFindMax and simpleFindMin

  /** A scan's value, the scanned board after its in-place moves, and how many moves it made. */
  datatype Scan = Scan(value: int, board: State, count: nat)

  /** The board after applying the moves of ms one after another. */
  ghost function Applied(s: State, ms: seq<Move>): State
    decreases |ms|
  {
    if ms == [] then s else Applied(MakeMoveSpec(s, ms[0].from, ms[0].to), ms[1..])
  }

  /** The static score after each successive move of ms. */
  ghost function Scores(s: State, ms: seq<Move>): (xs: seq<int>)
    ensures |xs| == |ms|
    ensures forall i | 0 <= i < |xs| :: -WILL_WIN_VALUE <= xs[i] <= WILL_WIN_VALUE
    decreases |ms|
  {
    if ms == [] then []
    else
      var u := MakeMoveSpec(s, ms[0].from, ms[0].to);
      [Score(u.cells)] + Scores(u, ms[1..])
  }

  /**
   * simpleFindMax(board, alpha, beta): on an undecided board, the moves of
   * legalMoves(me) are made on the board itself one after another; MaxTally
   * follows the loop's bookkeeping on the scores seen after each, and the
   * board ends as the moves it made left it.
   */
  ghost function SimpleMax(s: State, me: Side, live: Option<Side>, alpha: int, beta: int): (r: Scan)
    ensures r.value in {WINNING_VALUE, -WINNING_VALUE, -INFTY} || -WILL_WIN_VALUE <= r.value <= WILL_WIN_VALUE
  {
    if s.winner == Some(White) then Scan(WINNING_VALUE, s, 0)
    else if live == Some(Black) then Scan(-WINNING_VALUE, s, 0)
    else
      var moves := LegalMovesOf(s.cells, me);
      var t := MaxTally(Scores(s, moves), -INFTY, alpha, beta);
      Scan(t.value, Applied(s, moves[..t.count]), t.count)
  }

  /** simpleFindMin(board, alpha, beta): the dual of SimpleMax, with MinTally. */
  ghost function SimpleMin(s: State, me: Side, live: Option<Side>, alpha: int, beta: int): (r: Scan)
    ensures r.value in {WINNING_VALUE, -WINNING_VALUE, INFTY} || -WILL_WIN_VALUE <= r.value <= WILL_WIN_VALUE
  {
    if s.winner == Some(White) then Scan(WINNING_VALUE, s, 0)
    else if live == Some(Black) then Scan(-WINNING_VALUE, s, 0)
    else
      var moves := LegalMovesOf(s.cells, me);
      var t := MinTally(Scores(s, moves), INFTY, alpha, beta);
      Scan(t.value, Applied(s, moves[..t.count]), t.count)
  }

  /** Applying k + 1 moves is making the first and then applying k more. */
  lemma AppliedTail(s: State, rest: seq<Move>, k: nat)
    requires k < |rest|
    ensures Applied(s, rest[..k + 1]) == Applied(MakeMoveSpec(s, rest[0].from, rest[0].to), rest[1..][..k])
  {
    assert rest[..k + 1][1..] == rest[1..][..k];
  }

  /** The i-th score is the score of the board after the first i + 1 moves. */
  lemma ScoresAreAfterMoves(s: State, ms: seq<Move>, i: nat)
    requires i < |ms|
    ensures Scores(s, ms)[i] == Score(Applied(s, ms[..i + 1]).cells)
  {
    ScoresAlongTrail(s, ms, i);
    TrailIsApplied(s, ms, i + 1);
  }

  /** The i-th score is the score of the (i + 1)-th board of the trail. */
  lemma {:induction false} ScoresAlongTrail(s: State, ms: seq<Move>, i: nat)
    requires i < |ms|
    ensures Scores(s, ms)[i] == Score(Trail(s, ms)[i + 1].cells)
    decreases i
  {
    var u := MakeMoveSpec(s, ms[0].from, ms[0].to);
    assert Scores(s, ms) == [Score(u.cells)] + Scores(u, ms[1..]);
    assert Trail(s, ms) == [s] + Trail(u, ms[1..]);
    if i > 0 {
      ScoresAlongTrail(u, ms[1..], i - 1);
    }
  }

  /** Applying a + b is applying a, then b. */
  lemma {:induction false} AppliedConcat(s: State, a: seq<Move>, b: seq<Move>)
    ensures Applied(s, a + b) == Applied(Applied(s, a), b)
    decreases |a|
  {
    if a == [] {
      assert a + b == b;
    } else {
      assert (a + b)[0] == a[0] && (a + b)[1..] == a[1..] + b;
      AppliedConcat(MakeMoveSpec(s, a[0].from, a[0].to), a[1..], b);
    }
  }

  /** Applying i + 1 moves is applying i and then making the next one. */
  lemma AppliedSnoc(s: State, ms: seq<Move>, i: nat)
    requires i < |ms|
    ensures Applied(s, ms[..i + 1]) == MakeMoveSpec(Applied(s, ms[..i]), ms[i].from, ms[i].to)
  {
    var m := ms[i];
    assert ms[..i + 1] == ms[..i] + [m];
    AppliedConcat(s, ms[..i], [m]);
    assert [m][1..] == [];
  }


  /** The boards a run of in-place moves passes through, the starting one included. */
  ghost function Trail(s: State, ms: seq<Move>): (ts: seq<State>)
    ensures |ts| == |ms| + 1 && ts[0] == s
    decreases |ms|
  {
    [s] + (if ms == [] then [] else Trail(MakeMoveSpec(s, ms[0].from, ms[0].to), ms[1..]))
  }

  /** The k-th board of the trail is the board after the first k moves. */
  lemma {:induction false} TrailIsApplied(s: State, ms: seq<Move>, k: nat)
    requires k <= |ms|
    ensures Trail(s, ms)[k] == Applied(s, ms[..k])
    decreases k
  {
    if k == 0 {
      assert ms[..0] == [];
    } else {
      var u := MakeMoveSpec(s, ms[0].from, ms[0].to);
      TrailIsApplied(u, ms[1..], k - 1);
      AppliedTail(s, ms, k - 1);
    }
  }

  /** states are the boards after each successive move of moves, and xs their static scores. */
  ghost predicate Steps(moves: seq<Move>, xs: seq<int>, states: seq<State>)
  {
    |xs| == |moves| && |states| == |moves| + 1 &&
    forall k {:trigger moves[k]} | 0 <= k < |moves| ::
      states[k + 1] == MakeMoveSpec(states[k], moves[k].from, moves[k].to) && xs[k] == Score(states[k + 1].cells)
  }

  /** The trail and the scores of a run of moves are its steps. */
  lemma TrailSteps(s: State, ms: seq<Move>)
    ensures Steps(ms, Scores(s, ms), Trail(s, ms))
  {
    forall k | 0 <= k < |ms|
      ensures Trail(s, ms)[k + 1] == MakeMoveSpec(Trail(s, ms)[k], ms[k].from, ms[k].to)
      ensures Scores(s, ms)[k] == Score(Trail(s, ms)[k + 1].cells)
    {
      TrailIsApplied(s, ms, k);
      TrailIsApplied(s, ms, k + 1);
      AppliedSnoc(s, ms, k);
      ScoresAlongTrail(s, ms, k);
    }
  }

  /** The value and the number of moves made by a scan, as a function of the scores alone. */
  datatype Tally = Tally(value: int, count: nat)

  /** The bookkeeping of simpleFindMax's loop on the successive scores xs. */
  function MaxTally(xs: seq<int>, best: int, alpha: int, beta: int): (t: Tally)
    ensures t.count <= |xs| && (xs != [] <==> t.count >= 1)
    ensures t.value == best || t.value in xs
    decreases |xs|
  {
    if xs == [] then Tally(best, 0)
    else if xs[0] >= best then
      var a := Max(alpha, xs[0]);
      if beta <= a then Tally(xs[0], 1)
      else var t := MaxTally(xs[1..], xs[0], a, beta); t.(count := t.count + 1)
    else
      var t := MaxTally(xs[1..], best, alpha, beta); t.(count := t.count + 1)
  }

  /** The bookkeeping of simpleFindMin's loop on the successive scores xs. */
  function MinTally(xs: seq<int>, best: int, alpha: int, beta: int): (t: Tally)
    ensures t.count <= |xs| && (xs != [] <==> t.count >= 1)
    ensures t.value == best || t.value in xs
    decreases |xs|
  {
    if xs == [] then Tally(best, 0)
    else if xs[0] <= best then
      var b := Min(beta, xs[0]);
      if b <= alpha then Tally(xs[0], 1)
      else var t := MinTally(xs[1..], xs[0], alpha, b); t.(count := t.count + 1)
    else
      var t := MinTally(xs[1..], best, alpha, beta); t.(count := t.count + 1)
  }

  /**
   * The loop of simpleFindMax, from any point where nothing was scored yet
   * (best is -INFTY) or alpha is at least best and below beta, on scores
   * no lower than -INFTY: it stops early exactly at the first score that
   * brings alpha up to beta, and its value is the largest of best and the
   * scores seen.
   */
  lemma {:induction false} MaxTallyFacts(xs: seq<int>, best: int, alpha: int, beta: int)
    requires best <= -INFTY || best <= alpha < beta
    requires forall i | 0 <= i < |xs| :: -INFTY <= xs[i]
    ensures var t := MaxTally(xs, best, alpha, beta);
      && t.count <= |xs| && (xs != [] ==> t.count >= 1)
      && t.value == RunMax(best, xs[..t.count])
      && (t.count < |xs| ==> beta <= RunMax(alpha, xs[..t.count]))
      && (forall j | 1 <= j < t.count :: RunMax(alpha, xs[..j]) < beta)
    decreases |xs|
  {
    if xs != [] {
      var v := xs[0];
      var a := if v >= best then Max(alpha, v) else alpha;
      var b := if v >= best then v else best;
      assert Max(alpha, v) == a && Max(best, v) == b;
      var t := MaxTally(xs, best, alpha, beta);
      if v >= best && beta <= a {
        assert xs[..1] == [v];
      } else {
        var ys := xs[1..];
        MaxTallyFacts(ys, b, a, beta);
        assert a < beta;
        forall j | 0 <= j < |xs|
          ensures RunMax(alpha, xs[..j + 1]) == RunMax(a, ys[..j])
          ensures RunMax(best, xs[..j + 1]) == RunMax(b, ys[..j])
        {
          assert xs[..j + 1][1..] == ys[..j];
        }
        var t' := MaxTally(ys, b, a, beta);
        assert t == t'.(count := t'.count + 1);
        forall j | 1 <= j < t.count
          ensures RunMax(alpha, xs[..j]) < beta
        {
          assert RunMax(alpha, xs[..j]) == RunMax(a, ys[..j - 1]);
          if j == 1 {
            assert ys[..0] == [];
          }
        }
      }
    }
  }

  /** The dual of MaxTallyFacts for simpleFindMin, with beta falling to alpha. */
  lemma {:induction false} MinTallyFacts(xs: seq<int>, best: int, alpha: int, beta: int)
    requires best >= INFTY || alpha < beta <= best
    requires forall i | 0 <= i < |xs| :: xs[i] <= INFTY
    ensures var t := MinTally(xs, best, alpha, beta);
      && t.count <= |xs| && (xs != [] ==> t.count >= 1)
      && t.value == RunMin(best, xs[..t.count])
      && (t.count < |xs| ==> RunMin(beta, xs[..t.count]) <= alpha)
      && (forall j | 1 <= j < t.count :: alpha < RunMin(beta, xs[..j]))
    decreases |xs|
  {
    if xs != [] {
      var v := xs[0];
      var b := if v <= best then Min(beta, v) else beta;
      var w := if v <= best then v else best;
      assert Min(beta, v) == b && Min(best, v) == w;
      var t := MinTally(xs, best, alpha, beta);
      if v <= best && b <= alpha {
        assert xs[..1] == [v];
      } else {
        var ys := xs[1..];
        MinTallyFacts(ys, w, alpha, b);
        assert alpha < b;
        forall j | 0 <= j < |xs|
          ensures RunMin(beta, xs[..j + 1]) == RunMin(b, ys[..j])
          ensures RunMin(best, xs[..j + 1]) == RunMin(w, ys[..j])
        {
          assert xs[..j + 1][1..] == ys[..j];
        }
        var t' := MinTally(ys, w, alpha, b);
        assert t == t'.(count := t'.count + 1);
        forall j | 1 <= j < t.count
          ensures alpha < RunMin(beta, xs[..j])
        {
          assert RunMin(beta, xs[..j]) == RunMin(b, ys[..j - 1]);
          if j == 1 {
            assert ys[..0] == [];
          }
        }
      }
    }
  }

  /**
   * simpleFindMax's loop from its start, on scores above -INFTY: the value
   * is the largest score among the first `count`, or -INFTY when there is
   * none, and the loop ends early only on a cut-off.
   */
  lemma MaxTallyResult(xs: seq<int>, alpha: int, beta: int)
    requires forall i | 0 <= i < |xs| :: -INFTY < xs[i]
    ensures var t := MaxTally(xs, -INFTY, alpha, beta);
      && t.count <= |xs| && (xs != [] <==> t.count >= 1)
      && (t.count == 0 ==> t.value == -INFTY)
      && (forall i | 0 <= i < t.count :: xs[i] <= t.value)
      && (t.count >= 1 ==> exists i | 0 <= i < t.count :: xs[i] == t.value)
      && (t.count < |xs| ==> beta <= Max(alpha, t.value))
      && (forall j | 1 <= j < t.count :: RunMax(alpha, xs[..j]) < beta)
  {
    var t := MaxTally(xs, -INFTY, alpha, beta);
    MaxTallyFacts(xs, -INFTY, alpha, beta);
    RunMaxIsMax(-INFTY, xs[..t.count]);
    if t.count >= 1 {
      assert xs[0] == xs[..t.count][0];
    }
    if t.count < |xs| {
      MaxOfRuns(alpha, xs[..t.count]);
    }
  }

  /** The dual of MaxTallyResult for simpleFindMin, with INFTY. */
  lemma MinTallyResult(xs: seq<int>, alpha: int, beta: int)
    requires forall i | 0 <= i < |xs| :: xs[i] < INFTY
    ensures var t := MinTally(xs, INFTY, alpha, beta);
      && t.count <= |xs| && (xs != [] <==> t.count >= 1)
      && (t.count == 0 ==> t.value == INFTY)
      && (forall i | 0 <= i < t.count :: t.value <= xs[i])
      && (t.count >= 1 ==> exists i | 0 <= i < t.count :: xs[i] == t.value)
      && (t.count < |xs| ==> Min(beta, t.value) <= alpha)
      && (forall j | 1 <= j < t.count :: alpha < RunMin(beta, xs[..j]))
  {
    var t := MinTally(xs, INFTY, alpha, beta);
    MinTallyFacts(xs, INFTY, alpha, beta);
    RunMinIsMin(INFTY, xs[..t.count]);
    if t.count >= 1 {
      assert xs[0] == xs[..t.count][0];
    }
    if t.count < |xs| {
      MinOfRuns(beta, xs[..t.count]);
    }
  }

  /**
   * simpleFindMax on an undecided board: it makes the first `count` of
   * legalMoves(me) in place, one after another, and returns the largest
   * static score seen after them, or -INFTY when there is no move; it
   * stops before the end only at the first score that lifts alpha to beta.
   */
  lemma SimpleMaxResult(s: State, me: Side, live: Option<Side>, alpha: int, beta: int)
    requires s.winner != Some(White) && live != Some(Black)
    ensures var r := SimpleMax(s, me, live, alpha, beta);
      var moves := LegalMovesOf(s.cells, me);
      var xs := Scores(s, moves);
      && r.count <= |moves| && (moves != [] <==> r.count >= 1)
      && r.board == Applied(s, moves[..r.count])
      && (r.count == 0 ==> r.value == -INFTY)
      && (forall i | 0 <= i < r.count :: xs[i] <= r.value)
      && (r.count >= 1 ==> exists i | 0 <= i < r.count :: xs[i] == r.value)
      && (r.count < |moves| ==> beta <= Max(alpha, r.value))
      && (forall j | 1 <= j < r.count :: RunMax(alpha, xs[..j]) < beta)
  {
    var moves := LegalMovesOf(s.cells, me);
    MaxTallyResult(Scores(s, moves), alpha, beta);
  }

  /** simpleFindMin on an undecided board: the dual of SimpleMaxResult, with INFTY. */
  lemma SimpleMinResult(s: State, me: Side, live: Option<Side>, alpha: int, beta: int)
    requires s.winner != Some(White) && live != Some(Black)
    ensures var r := SimpleMin(s, me, live, alpha, beta);
      var moves := LegalMovesOf(s.cells, me);
      var xs := Scores(s, moves);
      && r.count <= |moves| && (moves != [] <==> r.count >= 1)
      && r.board == Applied(s, moves[..r.count])
      && (r.count == 0 ==> r.value == INFTY)
      && (forall i | 0 <= i < r.count :: r.value <= xs[i])
      && (r.count >= 1 ==> exists i | 0 <= i < r.count :: xs[i] == r.value)
      && (r.count < |moves| ==> Min(beta, r.value) <= alpha)
      && (forall j | 1 <= j < r.count :: alpha < RunMin(beta, xs[..j]))
  {
    var moves := LegalMovesOf(s.cells, me);
    MinTallyResult(Scores(s, moves), alpha, beta);
  }

  /** Folding from a is folding from the lowest value and then taking a into account. */
  lemma {:induction false} MaxOfRuns(a: int, xs: seq<int>)
    ensures xs != [] && xs[0] >= -INFTY ==> RunMax(a, xs) == Max(a, RunMax(-INFTY, xs))
    decreases |xs|
  {
    if xs != [] && xs[0] >= -INFTY {
      MaxOfRunsFrom(Max(a, xs[0]), Max(-INFTY, xs[0]), a, xs[1..]);
    }
  }

  /** Two folds whose starts differ only by a stay that way. */
  lemma {:induction false} MaxOfRunsFrom(x: int, y: int, a: int, xs: seq<int>)
    requires x == Max(a, y)
    ensures RunMax(x, xs) == Max(a, RunMax(y, xs))
    decreases |xs|
  {
    if xs != [] {
      MaxOfRunsFrom(Max(x, xs[0]), Max(y, xs[0]), a, xs[1..]);
    }
  }

  /** The dual of MaxOfRuns. */
  lemma {:induction false} MinOfRuns(b: int, xs: seq<int>)
    ensures xs != [] && xs[0] <= INFTY ==> RunMin(b, xs) == Min(b, RunMin(INFTY, xs))
    decreases |xs|
  {
    if xs != [] && xs[0] <= INFTY {
      MinOfRunsFrom(Min(b, xs[0]), Min(INFTY, xs[0]), b, xs[1..]);
    }
  }

  /** The dual of MaxOfRunsFrom. */
  lemma {:induction false} MinOfRunsFrom(x: int, y: int, b: int, xs: seq<int>)
    requires x == Min(b, y)
    ensures RunMin(x, xs) == Min(b, RunMin(y, xs))
    decreases |xs|
  {
    if xs != [] {
      MinOfRunsFrom(Min(x, xs[0]), Min(y, xs[0]), b, xs[1..]);
    }
  }

  // ---------------------------------------------------------------------
  // findMove(board, depth, saveMove, sense, alpha, beta)

  /**
   * What a findMove call yields: its value, the best move it holds at the
   * end, whether it reached the final `if (saveMove)` (so that a saving call
   * records that move), the child responses its loop examined, in order,
   * and the searched board afterwards (only the depth-0 scans change it).
   */
  datatype Reply = Reply(value: int, move: Option<Move>, recorded: bool, examined: seq<int>, board: State)

  /** The child of a search node: `new Board()`, copy(board), then makeMove(m). */
  ghost function Child(s: State, m: Move): State
  {
    MakeMoveSpec(FreshCopy(s), m.from, m.to)
  }

  /** findMove(board, depth, _, sense, alpha, beta); both plies expand legalMoves(me). */
  ghost function Search(s: State, depth: nat, sense: int, alpha: int, beta: int, me: Side, live: Option<Side>): (r: Reply)
    ensures -INFTY <= r.value <= INFTY
    decreases depth, 1, 0
  {
    if sense == 1 then
      if s.winner.Some? then Reply(Sentinel(s.winner.value), None, false, [], s)
      else if depth == 0 then
        var r := SimpleMax(s, me, live, alpha, beta);
        Reply(r.value, None, false, [], r.board)
      else MaxLoop(s, depth, LegalMovesOf(s.cells, me), -INFTY, None, alpha, beta, me, live)
    else if sense == -1 then
      if s.winner.Some? then Reply(Sentinel(s.winner.value), None, false, [], s)
      else if depth == 0 then
        var r := SimpleMin(s, me, live, alpha, beta);
        Reply(r.value, None, false, [], r.board)
      else MinLoop(s, depth, LegalMovesOf(s.cells, me), INFTY, None, alpha, beta, me, live)
    else Reply(0, None, true, [], s)
  }

  /** The loop of a maximizing node over the moves still to come. */
  ghost function MaxLoop(s: State, depth: nat, rest: seq<Move>, best: int, bestMove: Option<Move>,
                         alpha: int, beta: int, me: Side, live: Option<Side>): (r: Reply)
    requires depth >= 1
    ensures r.value == best || -INFTY <= r.value <= INFTY
    decreases depth, 0, |rest|
  {
    if rest == [] then Reply(best, bestMove, true, [], s)
    else
      var v := Response(s, depth, rest[0], -1, alpha, beta, me, live);
      if v >= best then
        var a := Max(alpha, v);
        if beta <= a then Reply(v, Some(rest[0]), true, [v], s)
        else Examined(v, MaxLoop(s, depth, rest[1..], v, Some(rest[0]), a, beta, me, live))
      else Examined(v, MaxLoop(s, depth, rest[1..], best, bestMove, alpha, beta, me, live))
  }

  /** The loop of a minimizing node over the moves still to come. */
  ghost function MinLoop(s: State, depth: nat, rest: seq<Move>, best: int, bestMove: Option<Move>,
                         alpha: int, beta: int, me: Side, live: Option<Side>): (r: Reply)
    requires depth >= 1
    ensures r.value == best || -INFTY <= r.value <= INFTY
    decreases depth, 0, |rest|
  {
    if rest == [] then Reply(best, bestMove, true, [], s)
    else
      var v := Response(s, depth, rest[0], 1, alpha, beta, me, live);
      if v <= best then
        var b := Min(beta, v);
        if b <= alpha then Reply(v, Some(rest[0]), true, [v], s)
        else Examined(v, MinLoop(s, depth, rest[1..], v, Some(rest[0]), alpha, b, me, live))
      else Examined(v, MinLoop(s, depth, rest[1..], best, bestMove, alpha, beta, me, live))
  }

  /** The value findMove gives the child of s after m, one level down with the given sense. */
  ghost function Response(s: State, depth: nat, m: Move, sense: int, alpha: int, beta: int, me: Side, live: Option<Side>): (v: int)
    requires depth >= 1
    ensures -INFTY <= v <= INFTY
    decreases depth, 0, 0
  {
    ChildSearch(s, m, depth - 1, sense, alpha, beta, me, live).value
  }

  /** The reply of searching the child of s after m to the given depth. */
  ghost function ChildSearch(s: State, m: Move, depth: nat, sense: int, alpha: int, beta: int, me: Side, live: Option<Side>): (r: Reply)
    ensures -INFTY <= r.value <= INFTY
    decreases depth, 2, 0
  {
    Search(Child(s, m), depth, sense, alpha, beta, me, live)
  }

  /** r with the response v examined before its own. */
  function Examined(v: int, r: Reply): Reply
  {
    r.(examined := [v] + r.examined)
  }

  /** A decided board is valued by its winner at any depth and either sense, without expansion. */
  lemma SearchDecided(s: State, depth: nat, sense: int, alpha: int, beta: int, me: Side, live: Option<Side>)
    requires sense == 1 || sense == -1
    requires s.winner.Some?
    ensures var r := Search(s, depth, sense, alpha, beta, me, live);
      r.value == Sentinel(s.winner.value) && r.move == None && !r.recorded && r.examined == [] && r.board == s
  {
  }

  /** The best value and move a loop holds after the responses xs to the moves ms. */
  datatype Pick = Pick(value: int, move: Option<Move>)

  /** A maximizing loop's bookkeeping: a response at least the best so far replaces it. */
  function PickMax(xs: seq<int>, ms: seq<Move>, best: int, bestMove: Option<Move>): Pick
    requires |xs| <= |ms|
    decreases |xs|
  {
    if xs == [] then Pick(best, bestMove)
    else if xs[0] >= best then PickMax(xs[1..], ms[1..], xs[0], Some(ms[0]))
    else PickMax(xs[1..], ms[1..], best, bestMove)
  }

  /** A minimizing loop's bookkeeping: a response at most the best so far replaces it. */
  function PickMin(xs: seq<int>, ms: seq<Move>, best: int, bestMove: Option<Move>): Pick
    requires |xs| <= |ms|
    decreases |xs|
  {
    if xs == [] then Pick(best, bestMove)
    else if xs[0] <= best then PickMin(xs[1..], ms[1..], xs[0], Some(ms[0]))
    else PickMin(xs[1..], ms[1..], best, bestMove)
  }

  /**
   * A maximizing loop, from any point: it examines at least one response
   * when a move remains and never more than remain, leaves the board as it
   * was, reaches the final `if (saveMove)`, and holds the value and move
   * its bookkeeping gives on the responses it examined.
   */
  lemma {:induction false} MaxLoopPicks(s: State, depth: nat, rest: seq<Move>, best: int, bestMove: Option<Move>,
                                        alpha: int, beta: int, me: Side, live: Option<Side>)
    requires depth >= 1
    ensures var r := MaxLoop(s, depth, rest, best, bestMove, alpha, beta, me, live);
      && |r.examined| <= |rest| && (rest != [] ==> |r.examined| >= 1)
      && r.recorded && r.board == s
      && Pick(r.value, r.move) == PickMax(r.examined, rest, best, bestMove)
    decreases |rest|
  {
    if rest != [] {
      var v := Response(s, depth, rest[0], -1, alpha, beta, me, live);
      if !(v >= best && beta <= Max(alpha, v)) {
        var b := if v >= best then v else best;
        var m := if v >= best then Some(rest[0]) else bestMove;
        var a := if v >= best then Max(alpha, v) else alpha;
        MaxLoopPicks(s, depth, rest[1..], b, m, a, beta, me, live);
        var r' := MaxLoop(s, depth, rest[1..], b, m, a, beta, me, live);
        assert ([v] + r'.examined)[1..] == r'.examined;
      } else {
        assert [v][1..] == [];
      }
    }
  }

  /** The dual of MaxLoopPicks for a minimizing loop. */
  lemma {:induction false} MinLoopPicks(s: State, depth: nat, rest: seq<Move>, best: int, bestMove: Option<Move>,
                                        alpha: int, beta: int, me: Side, live: Option<Side>)
    requires depth >= 1
    ensures var r := MinLoop(s, depth, rest, best, bestMove, alpha, beta, me, live);
      && |r.examined| <= |rest| && (rest != [] ==> |r.examined| >= 1)
      && r.recorded && r.board == s
      && Pick(r.value, r.move) == PickMin(r.examined, rest, best, bestMove)
    decreases |rest|
  {
    if rest != [] {
      var v := Response(s, depth, rest[0], 1, alpha, beta, me, live);
      if !(v <= best && Min(beta, v) <= alpha) {
        var w := if v <= best then v else best;
        var m := if v <= best then Some(rest[0]) else bestMove;
        var b := if v <= best then Min(beta, v) else beta;
        MinLoopPicks(s, depth, rest[1..], w, m, alpha, b, me, live);
        var r' := MinLoop(s, depth, rest[1..], w, m, alpha, b, me, live);
        assert ([v] + r'.examined)[1..] == r'.examined;
      } else {
        assert [v][1..] == [];
      }
    }
  }

  /**
   * The bookkeeping of a maximizing loop keeps the largest of best and the
   * responses, and ties go to the last equal response: the move held is
   * that of the last response equal to the value, or the earlier best move
   * when no response came up to best.
   */
  lemma {:induction false} PickMaxFacts(xs: seq<int>, ms: seq<Move>, best: int, bestMove: Option<Move>)
    requires |xs| <= |ms|
    ensures var p := PickMax(xs, ms, best, bestMove);
      && p.value == RunMax(best, xs)
      && (|| (p.move == bestMove && p.value == best && forall i | 0 <= i < |xs| :: xs[i] < best)
          || exists k | 0 <= k < |xs| :: p.value == xs[k] && p.move == Some(ms[k]) && forall j | k < j < |xs| :: xs[j] < p.value)
    decreases |xs|
  {
    if xs != [] {
      var b := if xs[0] >= best then xs[0] else best;
      var bm := if xs[0] >= best then Some(ms[0]) else bestMove;
      PickMaxFacts(xs[1..], ms[1..], b, bm);
      assert Max(best, xs[0]) == b;
      var p := PickMax(xs, ms, best, bestMove);
      var ys := xs[1..];
      assert forall j | 0 < j < |xs| :: xs[j] == ys[j - 1];
      if exists k | 0 <= k < |ys| :: p.value == ys[k] && p.move == Some(ms[1..][k]) && forall j | k < j < |ys| :: ys[j] < p.value {
        var k :| 0 <= k < |ys| && p.value == ys[k] && p.move == Some(ms[1..][k]) && forall j | k < j < |ys| :: ys[j] < p.value;
        assert p.value == xs[k + 1] && p.move == Some(ms[k + 1]);
      } else if xs[0] >= best {
        assert p.value == xs[0] && p.move == Some(ms[0]);
      }
    }
  }

  /** The dual of PickMaxFacts for a minimizing loop. */
  lemma {:induction false} PickMinFacts(xs: seq<int>, ms: seq<Move>, best: int, bestMove: Option<Move>)
    requires |xs| <= |ms|
    ensures var p := PickMin(xs, ms, best, bestMove);
      && p.value == RunMin(best, xs)
      && (|| (p.move == bestMove && p.value == best && forall i | 0 <= i < |xs| :: xs[i] > best)
          || exists k | 0 <= k < |xs| :: p.value == xs[k] && p.move == Some(ms[k]) && forall j | k < j < |xs| :: xs[j] > p.value)
    decreases |xs|
  {
    if xs != [] {
      var w := if xs[0] <= best then xs[0] else best;
      var bm := if xs[0] <= best then Some(ms[0]) else bestMove;
      PickMinFacts(xs[1..], ms[1..], w, bm);
      assert Min(best, xs[0]) == w;
      var p := PickMin(xs, ms, best, bestMove);
      var ys := xs[1..];
      assert forall j | 0 < j < |xs| :: xs[j] == ys[j - 1];
      if exists k | 0 <= k < |ys| :: p.value == ys[k] && p.move == Some(ms[1..][k]) && forall j | k < j < |ys| :: ys[j] > p.value {
        var k :| 0 <= k < |ys| && p.value == ys[k] && p.move == Some(ms[1..][k]) && forall j | k < j < |ys| :: ys[j] > p.value;
        assert p.value == xs[k + 1] && p.move == Some(ms[k + 1]);
      } else if xs[0] <= best {
        assert p.value == xs[0] && p.move == Some(ms[0]);
      }
    }
  }

  /** Folding over a prefix of [v] + ys is folding over the shorter prefix of ys from the next start. */
  lemma RunCons(a: int, v: int, ys: seq<int>, i: nat)
    requires i <= |ys|
    ensures RunMax(a, ([v] + ys)[..i + 1]) == RunMax(Max(a, v), ys[..i])
    ensures RunMin(a, ([v] + ys)[..i + 1]) == RunMin(Min(a, v), ys[..i])
  {
    assert ([v] + ys)[..i + 1] == [v] + ys[..i];
    assert ([v] + ys[..i])[1..] == ys[..i];
  }

  /**
   * Alpha at a maximizing loop, from any point where no response was seen
   * yet (best is -INFTY) or alpha is at least best and below beta: each
   * response is the child's value searched with alpha raised to the
   * largest response before it.
   */
  lemma {:induction false} MaxLoopAlpha(s: State, depth: nat, rest: seq<Move>, best: int, bestMove: Option<Move>,
                                        alpha: int, beta: int, me: Side, live: Option<Side>)
    requires depth >= 1
    requires best <= -INFTY || best <= alpha < beta
    ensures var r := MaxLoop(s, depth, rest, best, bestMove, alpha, beta, me, live);
      var xs := r.examined;
      && |xs| <= |rest|
      && (forall i | 0 <= i < |xs| ::
            xs[i] == Response(s, depth, rest[i], -1, RunMax(alpha, xs[..i]), beta, me, live))
    decreases |rest|
  {
    MaxLoopPicks(s, depth, rest, best, bestMove, alpha, beta, me, live);
    if rest != [] {
      var v := Response(s, depth, rest[0], -1, alpha, beta, me, live);
      var r := MaxLoop(s, depth, rest, best, bestMove, alpha, beta, me, live);
      var xs := r.examined;
      if v >= best && beta <= Max(alpha, v) {
        assert xs == [v];
        assert xs[..0] == [] && xs[..1] == xs;
      } else {
        var b := if v >= best then v else best;
        var m := if v >= best then Some(rest[0]) else bestMove;
        var a := if v >= best then Max(alpha, v) else alpha;
        assert a == Max(alpha, v) && a < beta;
        MaxLoopAlpha(s, depth, rest[1..], b, m, a, beta, me, live);
        var r' := MaxLoop(s, depth, rest[1..], b, m, a, beta, me, live);
        var ys := r'.examined;
        assert xs == [v] + ys;
        forall i | 0 <= i <= |ys|
          ensures RunMax(alpha, xs[..i + 1]) == RunMax(a, ys[..i])
        {
          RunCons(alpha, v, ys, i);
        }
        assert xs[..|xs|] == xs && ys[..|ys|] == ys;
        forall i | 0 <= i < |xs|
          ensures xs[i] == Response(s, depth, rest[i], -1, RunMax(alpha, xs[..i]), beta, me, live)
        {
          if i == 0 {
            assert xs[..0] == [];
          } else {
            assert xs[i] == ys[i - 1] && rest[i] == rest[1..][i - 1];
          }
        }
      }
    }
  }


  /** The dual of MaxLoopAlpha: beta at a minimizing loop falls to the smallest response so far. */
  lemma {:induction false} MinLoopBeta(s: State, depth: nat, rest: seq<Move>, best: int, bestMove: Option<Move>,
                                       alpha: int, beta: int, me: Side, live: Option<Side>)
    requires depth >= 1
    requires best >= INFTY || alpha < beta <= best
    ensures var r := MinLoop(s, depth, rest, best, bestMove, alpha, beta, me, live);
      var xs := r.examined;
      && |xs| <= |rest|
      && (forall i | 0 <= i < |xs| ::
            xs[i] == Response(s, depth, rest[i], 1, alpha, RunMin(beta, xs[..i]), me, live))
    decreases |rest|
  {
    MinLoopPicks(s, depth, rest, best, bestMove, alpha, beta, me, live);
    if rest != [] {
      var v := Response(s, depth, rest[0], 1, alpha, beta, me, live);
      var r := MinLoop(s, depth, rest, best, bestMove, alpha, beta, me, live);
      var xs := r.examined;
      if v <= best && Min(beta, v) <= alpha {
        assert xs == [v];
        assert xs[..0] == [] && xs[..1] == xs;
      } else {
        var w := if v <= best then v else best;
        var m := if v <= best then Some(rest[0]) else bestMove;
        var b := if v <= best then Min(beta, v) else beta;
        assert b == Min(beta, v) && alpha < b;
        MinLoopBeta(s, depth, rest[1..], w, m, alpha, b, me, live);
        var r' := MinLoop(s, depth, rest[1..], w, m, alpha, b, me, live);
        var ys := r'.examined;
        assert xs == [v] + ys;
        forall i | 0 <= i <= |ys|
          ensures RunMin(beta, xs[..i + 1]) == RunMin(b, ys[..i])
        {
          RunCons(beta, v, ys, i);
        }
        assert xs[..|xs|] == xs && ys[..|ys|] == ys;
        forall i | 0 <= i < |xs|
          ensures xs[i] == Response(s, depth, rest[i], 1, alpha, RunMin(beta, xs[..i]), me, live)
        {
          if i == 0 {
            assert xs[..0] == [];
          } else {
            assert xs[i] == ys[i - 1] && rest[i] == rest[1..][i - 1];
          }
        }
      }
    }
  }


  /**
   * The control flow of a maximizing loop over n moves that saw the
   * responses xs, each between -INFTY and INFTY: without moves nothing is
   * examined; a response at least best that brings alpha up to beta is the
   * last; any other response is followed by the rest of the loop.
   */
  ghost predicate MaxStops(xs: seq<int>, best: int, alpha: int, beta: int, n: nat)
    decreases n
  {
    if n == 0 then xs == []
    else
      && xs != [] && -INFTY <= xs[0] <= INFTY
      && var v := xs[0];
      if v >= best && beta <= Max(alpha, v) then xs == [v]
      else MaxStops(xs[1..], if v >= best then v else best, if v >= best then Max(alpha, v) else alpha, beta, n - 1)
  }

  /** The control flow of a minimizing loop, the dual of MaxStops. */
  ghost predicate MinStops(xs: seq<int>, best: int, alpha: int, beta: int, n: nat)
    decreases n
  {
    if n == 0 then xs == []
    else
      && xs != [] && -INFTY <= xs[0] <= INFTY
      && var v := xs[0];
      if v <= best && Min(beta, v) <= alpha then xs == [v]
      else MinStops(xs[1..], if v <= best then v else best, alpha, if v <= best then Min(beta, v) else beta, n - 1)
  }

  /** A maximizing loop follows MaxStops on the responses it examined. */
  lemma {:induction false} MaxLoopStops(s: State, depth: nat, rest: seq<Move>, best: int, bestMove: Option<Move>,
                                        alpha: int, beta: int, me: Side, live: Option<Side>)
    requires depth >= 1
    ensures MaxStops(MaxLoop(s, depth, rest, best, bestMove, alpha, beta, me, live).examined, best, alpha, beta, |rest|)
    decreases |rest|
  {
    if rest != [] {
      var v := Response(s, depth, rest[0], -1, alpha, beta, me, live);
      if !(v >= best && beta <= Max(alpha, v)) {
        var b := if v >= best then v else best;
        var m := if v >= best then Some(rest[0]) else bestMove;
        var a := if v >= best then Max(alpha, v) else alpha;
        MaxLoopStops(s, depth, rest[1..], b, m, a, beta, me, live);
        var r' := MaxLoop(s, depth, rest[1..], b, m, a, beta, me, live);
        assert ([v] + r'.examined)[1..] == r'.examined;
      }
    }
  }

  /** A minimizing loop follows MinStops on the responses it examined. */
  lemma {:induction false} MinLoopStops(s: State, depth: nat, rest: seq<Move>, best: int, bestMove: Option<Move>,
                                        alpha: int, beta: int, me: Side, live: Option<Side>)
    requires depth >= 1
    ensures MinStops(MinLoop(s, depth, rest, best, bestMove, alpha, beta, me, live).examined, best, alpha, beta, |rest|)
    decreases |rest|
  {
    if rest != [] {
      var v := Response(s, depth, rest[0], 1, alpha, beta, me, live);
      if !(v <= best && Min(beta, v) <= alpha) {
        var w := if v <= best then v else best;
        var m := if v <= best then Some(rest[0]) else bestMove;
        var b := if v <= best then Min(beta, v) else beta;
        MinLoopStops(s, depth, rest[1..], w, m, alpha, b, me, live);
        var r' := MinLoop(s, depth, rest[1..], w, m, alpha, b, me, live);
        assert ([v] + r'.examined)[1..] == r'.examined;
      }
    }
  }

  /**
   * The cut-off of a maximizing loop, from any point where no response was
   * seen yet (best is -INFTY) or alpha is at least best and below beta:
   * the loop goes on while alpha, raised to the largest response so far,
   * stays below beta, and stops before its last move only once it reaches
   * beta.
   */
  lemma {:induction false} MaxStopsCutoff(xs: seq<int>, best: int, alpha: int, beta: int, n: nat)
    requires MaxStops(xs, best, alpha, beta, n)
    requires best <= -INFTY || best <= alpha < beta
    ensures |xs| <= n
    ensures |xs| < n ==> beta <= RunMax(alpha, xs)
    ensures forall j | 1 <= j < |xs| :: RunMax(alpha, xs[..j]) < beta
    decreases n
  {
    if n > 0 {
      var v := xs[0];
      var a := if v >= best then Max(alpha, v) else alpha;
      if v >= best && beta <= a {
        assert xs[..1] == xs;
      } else {
        var ys := xs[1..];
        var b := if v >= best then v else best;
        assert a == Max(alpha, v) && a < beta;
        MaxStopsCutoff(ys, b, a, beta, n - 1);
        assert xs == [v] + ys;
        forall j | 1 <= j < |xs|
          ensures RunMax(alpha, xs[..j]) < beta
        {
          RunCons(alpha, v, ys, j - 1);
          if j == 1 {
            assert ys[..0] == [];
          }
        }
        if |xs| < n {
          RunCons(alpha, v, ys, |ys|);
          assert xs[..|ys| + 1] == xs && ys[..|ys|] == ys;
        }
      }
    }
  }

  /** The dual of MaxStopsCutoff: a minimizing loop stops early only once beta falls to alpha. */
  lemma {:induction false} MinStopsCutoff(xs: seq<int>, best: int, alpha: int, beta: int, n: nat)
    requires MinStops(xs, best, alpha, beta, n)
    requires best >= INFTY || alpha < beta <= best
    ensures |xs| <= n
    ensures |xs| < n ==> RunMin(beta, xs) <= alpha
    ensures forall j | 1 <= j < |xs| :: alpha < RunMin(beta, xs[..j])
    decreases n
  {
    if n > 0 {
      var v := xs[0];
      var b := if v <= best then Min(beta, v) else beta;
      if v <= best && b <= alpha {
        assert xs[..1] == xs;
      } else {
        var ys := xs[1..];
        var w := if v <= best then v else best;
        assert b == Min(beta, v) && alpha < b;
        MinStopsCutoff(ys, w, alpha, b, n - 1);
        assert xs == [v] + ys;
        forall j | 1 <= j < |xs|
          ensures alpha < RunMin(beta, xs[..j])
        {
          RunCons(beta, v, ys, j - 1);
          if j == 1 {
            assert ys[..0] == [];
          }
        }
        if |xs| < n {
          RunCons(beta, v, ys, |ys|);
          assert xs[..|ys| + 1] == xs && ys[..|ys|] == ys;
        }
      }
    }
  }

  /**
   * The choice a maximizing loop started at -INFTY with no move makes over
   * `rest`: it examines at least one response when there is a move, keeps
   * the largest, held with the move of the last equal response, and yields
   * -INFTY and no move when there is none.
   */
  lemma MaxLoopChoice(s: State, depth: nat, rest: seq<Move>, alpha: int, beta: int, me: Side, live: Option<Side>)
    requires depth >= 1
    ensures var r := MaxLoop(s, depth, rest, -INFTY, None, alpha, beta, me, live);
      var xs := r.examined;
      && r.recorded && r.board == s
      && |xs| <= |rest| && (rest != [] <==> xs != [])
      && (rest == [] ==> r.value == -INFTY && r.move == None)
      && (forall i | 0 <= i < |xs| :: xs[i] <= r.value)
      && (xs != [] ==> exists k | 0 <= k < |xs| ::
            r.value == xs[k] && r.move == Some(rest[k]) && forall j | k < j < |xs| :: xs[j] < r.value)
  {
    var r := MaxLoop(s, depth, rest, -INFTY, None, alpha, beta, me, live);
    MaxLoopPicks(s, depth, rest, -INFTY, None, alpha, beta, me, live);
    PickMaxFacts(r.examined, rest, -INFTY, None);
    RunMaxIsMax(-INFTY, r.examined);
    MaxLoopStops(s, depth, rest, -INFTY, None, alpha, beta, me, live);
  }

  /** The dual of MaxLoopChoice for a minimizing loop started at INFTY. */
  lemma MinLoopChoice(s: State, depth: nat, rest: seq<Move>, alpha: int, beta: int, me: Side, live: Option<Side>)
    requires depth >= 1
    ensures var r := MinLoop(s, depth, rest, INFTY, None, alpha, beta, me, live);
      var xs := r.examined;
      && r.recorded && r.board == s
      && |xs| <= |rest| && (rest != [] <==> xs != [])
      && (rest == [] ==> r.value == INFTY && r.move == None)
      && (forall i | 0 <= i < |xs| :: r.value <= xs[i])
      && (xs != [] ==> exists k | 0 <= k < |xs| ::
            r.value == xs[k] && r.move == Some(rest[k]) && forall j | k < j < |xs| :: xs[j] > r.value)
  {
    var r := MinLoop(s, depth, rest, INFTY, None, alpha, beta, me, live);
    MinLoopPicks(s, depth, rest, INFTY, None, alpha, beta, me, live);
    PickMinFacts(r.examined, rest, INFTY, None);
    RunMinIsMin(INFTY, r.examined);
    MinLoopStops(s, depth, rest, INFTY, None, alpha, beta, me, live);
  }

  /**
   * The window of a maximizing loop started at -INFTY: each response is
   * searched with alpha raised to the largest response before it, the loop
   * goes on while that stays below beta, and stops early only at beta.
   */
  lemma MaxLoopWindow(s: State, depth: nat, rest: seq<Move>, alpha: int, beta: int, me: Side, live: Option<Side>)
    requires depth >= 1
    ensures var xs := MaxLoop(s, depth, rest, -INFTY, None, alpha, beta, me, live).examined;
      && |xs| <= |rest|
      && (forall i | 0 <= i < |xs| :: xs[i] == Response(s, depth, rest[i], -1, RunMax(alpha, xs[..i]), beta, me, live))
      && (|xs| < |rest| ==> beta <= RunMax(alpha, xs))
      && (forall j | 1 <= j < |xs| :: RunMax(alpha, xs[..j]) < beta)
  {
    var r := MaxLoop(s, depth, rest, -INFTY, None, alpha, beta, me, live);
    MaxLoopAlpha(s, depth, rest, -INFTY, None, alpha, beta, me, live);
    MaxLoopStops(s, depth, rest, -INFTY, None, alpha, beta, me, live);
    MaxStopsCutoff(r.examined, -INFTY, alpha, beta, |rest|);
  }

  /** The dual of MaxLoopWindow: beta falls to the smallest response so far. */
  lemma MinLoopWindow(s: State, depth: nat, rest: seq<Move>, alpha: int, beta: int, me: Side, live: Option<Side>)
    requires depth >= 1
    ensures var xs := MinLoop(s, depth, rest, INFTY, None, alpha, beta, me, live).examined;
      && |xs| <= |rest|
      && (forall i | 0 <= i < |xs| :: xs[i] == Response(s, depth, rest[i], 1, alpha, RunMin(beta, xs[..i]), me, live))
      && (|xs| < |rest| ==> RunMin(beta, xs) <= alpha)
      && (forall j | 1 <= j < |xs| :: alpha < RunMin(beta, xs[..j]))
  {
    var r := MinLoop(s, depth, rest, INFTY, None, alpha, beta, me, live);
    MinLoopBeta(s, depth, rest, INFTY, None, alpha, beta, me, live);
    MinLoopStops(s, depth, rest, INFTY, None, alpha, beta, me, live);
    MinStopsCutoff(r.examined, INFTY, alpha, beta, |rest|);
  }

  /**
   * A findMove node at depth > 0 on an undecided board runs the maximizing
   * loop over legalMoves(me) for sense 1 and the minimizing one for sense
   * -1, each with the full window it was given and no move yet.
   */
  lemma NodeLoops(s: State, depth: nat, alpha: int, beta: int, me: Side, live: Option<Side>)
    requires depth >= 1 && s.winner.None?
    ensures Search(s, depth, 1, alpha, beta, me, live)
         == MaxLoop(s, depth, LegalMovesOf(s.cells, me), -INFTY, None, alpha, beta, me, live)
    ensures Search(s, depth, -1, alpha, beta, me, live)
         == MinLoop(s, depth, LegalMovesOf(s.cells, me), INFTY, None, alpha, beta, me, live)
  {
  }

  /**
   * findMove at depth > 0 on an undecided board. With sense 1 the value is
   * at least every response examined. It is one of them, held with the move
   * of the last equal response, when legalMoves(me) is not empty, and it is
   * -INFTY with no move when it is empty. Sense -1 is the dual, with INFTY.
   */
  lemma SearchNode(s: State, depth: nat, sense: int, alpha: int, beta: int, me: Side, live: Option<Side>)
    requires depth >= 1 && s.winner.None? && (sense == 1 || sense == -1)
    ensures var r := Search(s, depth, sense, alpha, beta, me, live);
      var moves := LegalMovesOf(s.cells, me);
      var xs := r.examined;
      && r.recorded && r.board == s
      && |xs| <= |moves| && (moves != [] <==> xs != [])
      && (moves == [] ==> r.move == None && r.value == if sense == 1 then -INFTY else INFTY)
      && (sense == 1 ==> forall i | 0 <= i < |xs| :: xs[i] <= r.value)
      && (sense == -1 ==> forall i | 0 <= i < |xs| :: r.value <= xs[i])
      && (sense == 1 && xs != [] ==> exists k | 0 <= k < |xs| ::
            r.value == xs[k] && r.move == Some(moves[k]) && forall j | k < j < |xs| :: xs[j] < r.value)
      && (sense == -1 && xs != [] ==> exists k | 0 <= k < |xs| ::
            r.value == xs[k] && r.move == Some(moves[k]) && forall j | k < j < |xs| :: xs[j] > r.value)
  {
    NodeLoops(s, depth, alpha, beta, me, live);
    if sense == 1 {
      MaxLoopChoice(s, depth, LegalMovesOf(s.cells, me), alpha, beta, me, live);
    } else {
      MinLoopChoice(s, depth, LegalMovesOf(s.cells, me), alpha, beta, me, live);
    }
  }

  // ---------------------------------------------------------------------
  // findMove()

  /** The sense of the root search: 1 for WHITE, -1 for BLACK. */
  function SenseOf(me: Side): (sense: int)
    ensures sense == 1 <==> me == White
    ensures sense == -1 <==> me == Black
  {
    if me == Black then -1 else 1
  }

  /**
   * findMove(): search a fresh copy of the game board s to maxDepth with
   * the full window and saving on, and return the move it recorded, the
   * field having been cleared first.
   */
  ghost function RootMove(s: State, me: Side): Option<Move>
  {
    var b := FreshCopy(s);
    var r := Search(b, MaxDepth(b), SenseOf(me), -INFTY, INFTY, me, s.winner);
    if r.recorded then r.move else None
  }

  /**
   * findMove() returns a move exactly when `me` has one on the game board,
   * and then one of legalMoves(me).
   */
  lemma RootMoveLegal(s: State, me: Side)
    ensures RootMove(s, me).Some? <==> LegalMovesOf(s.cells, me) != []
    ensures RootMove(s, me).Some? ==> RootMove(s, me).value in LegalMovesOf(s.cells, me)
  {
    var b := FreshCopy(s);
    assert b.cells == s.cells && b.winner.None?;
    NodeLoops(b, 2, -INFTY, INFTY, me, s.winner);
    if me == White {
      MaxLoopChoice(b, 2, LegalMovesOf(b.cells, me), -INFTY, INFTY, me, s.winner);
    } else {
      MinLoopChoice(b, 2, LegalMovesOf(b.cells, me), -INFTY, INFTY, me, s.winner);
    }
  }
}
