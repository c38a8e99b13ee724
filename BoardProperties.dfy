/**
 * Properties of the board model: the capture rules stated as conditions on
 * the position, the cells a move may touch, the winner decision, the
 * encoding round trip, undo after a move, move legality and the initial
 * layout.
 */
module BoardProperties {
  import opened Wrappers
  import opened Squares
  import opened Pieces
  import opened Moves
  import opened BoardModel

  // ---------------------------------------------------------------------
  // Captures

  /** No two squares hold a KING. */
  ghost predicate AtMostOneKing(c: Cells)
  {
    forall s: Square, t: Square :: PieceAt(c, s) == King && PieceAt(c, t) == King ==> s == t
  }

  /**
   * The capture rules, read off the position: the neighbour of `to` in
   * direction d is taken when (rule 1) it holds the opponent and the square
   * beyond holds the mover's side, or is the empty throne, or (BLACK moving)
   * is the throne holding the KING with the throne hostile; or when (rule 2)
   * BLACK moves next to the KING, which on the throne or a defender square
   * needs BLACK on every non-throne neighbour, elsewhere a plain sandwich.
   */
  ghost predicate Captures(c: Cells, to: Square, turn: Side, d: Dir)
  {
    && 2 <= Reach(to, d)
    && var mid := Step(to, d, 1);
       var other := Step(to, d, 2);
       if PieceAt(c, mid) == Opponent(turn) then
         || SideOf(PieceAt(c, other)) == turn
         || (other == THRONE && PieceAt(c, THRONE) == Empty)
         || (turn == Black && other == THRONE && PieceAt(c, THRONE) == King && ThroneHostile(c))
       else if turn == Black && PieceAt(c, mid) == King then
         if mid in INITIAL_DEFENDERS || mid == THRONE then KingSurrounded(c, mid)
         else PieceAt(c, other) == Black
       else false
  }

  /** With a single KING, KING at s means kingPosition() is s. */
  lemma KingAt(c: Cells, s: Square)
    requires AtMostOneKing(c) && PieceAt(c, s) == King
    ensures KingOf(c) == Some(s)
  {
    assert c[s.Index()] == King;
  }

  /** One pass of ifCapture empties the neighbour in direction d exactly when the rules say so. */
  lemma CaptureDirRule(c: Cells, to: Square, turn: Side, d: Dir)
    requires AtMostOneKing(c)
    ensures Captures(c, to, turn, d) ==> CaptureDir(c, to, turn, d) == Placed(c, Step(to, d, 1), Empty)
    ensures !Captures(c, to, turn, d) ==> CaptureDir(c, to, turn, d) == c
  {
    if 2 <= Reach(to, d) {
      var mid := Step(to, d, 1);
      var other := Step(to, d, 2);
      BetweenOfLine(to, d);
      assert Between(other, to) == mid;
      assert other != mid;
      if PieceAt(c, mid) == Opponent(turn) {
        var c1 := if SideOf(PieceAt(c, other)) == turn then Placed(c, mid, Empty) else c;
        assert PieceAt(c1, THRONE) == PieceAt(c, THRONE) || THRONE == mid;
        if other == THRONE {
          assert PieceAt(c1, THRONE) == PieceAt(c, THRONE);
        }
        var c2 := if other == THRONE && PieceAt(c1, THRONE) == Empty then Placed(c1, mid, Empty) else c1;
        if turn == Black && other == THRONE && PieceAt(c2, THRONE) == King {
          SameBlackHostile(c, c2);
        }
      } else if turn == Black && PieceAt(c, mid) == King {
        KingAt(c, mid);
      }
    }
  }

  /** Two positions agree on where BLACK stands. */
  ghost predicate SameBlack(c: Cells, r: Cells)
  {
    forall s: Square :: PieceAt(c, s) == Black <==> PieceAt(r, s) == Black
  }

  lemma {:induction false} SameBlackCount(c: Cells, r: Cells, sqs: seq<Square>)
    requires SameBlack(c, r)
    ensures BlackCount(c, sqs) == BlackCount(r, sqs)
    decreases |sqs|
  {
    if sqs != [] {
      SameBlackCount(c, r, sqs[..|sqs| - 1]);
    }
  }

  lemma SameBlackHostile(c: Cells, r: Cells)
    requires SameBlack(c, r)
    ensures ThroneHostile(c) == ThroneHostile(r)
  {
    SameBlackCount(c, r, INITIAL_DEFENDERS);
  }

  /**
   * The state after the first n passes of ifCapture from c: squares that are
   * not neighbours of `to` are untouched, and the neighbour in each direction
   * below n is EMPTY exactly when the rules say so on c.
   */
  ghost predicate CapturedUpTo(c: Cells, r: Cells, to: Square, turn: Side, n: nat)
  {
    && (forall s: Square :: !Adjacent(to, s) ==> PieceAt(r, s) == PieceAt(c, s))
    && (forall d: Dir :: 1 <= Reach(to, d) ==>
          PieceAt(r, Step(to, d, 1)) ==
            if d < n && Captures(c, to, turn, d) then Empty else PieceAt(c, Step(to, d, 1)))
  }

  /** What the first passes leave: only emptied neighbours, so one KING at most and, for BLACK, the same BLACK pieces. */
  lemma CapturedFacts(c: Cells, r: Cells, to: Square, turn: Side, n: nat)
    requires AtMostOneKing(c) && CapturedUpTo(c, r, to, turn, n)
    ensures forall s: Square :: PieceAt(r, s) != PieceAt(c, s) ==> PieceAt(r, s) == Empty && Adjacent(to, s)
    ensures AtMostOneKing(r)
    ensures turn == Black ==> SameBlack(c, r)
  {
    forall s: Square | PieceAt(r, s) != PieceAt(c, s)
      ensures PieceAt(r, s) == Empty && Adjacent(to, s)
      ensures turn == Black ==> PieceAt(c, s) != Black
    {
      var d := AdjacentStep(to, s);
    }
  }

  /** The test of pass n reads the same on c and on the state after the earlier passes. */
  lemma CapturesStable(c: Cells, r: Cells, to: Square, turn: Side, n: Dir)
    requires AtMostOneKing(c) && CapturedUpTo(c, r, to, turn, n)
    ensures Captures(r, to, turn, n) == Captures(c, to, turn, n)
  {
    CapturedFacts(c, r, to, turn, n);
    if 2 <= Reach(to, n) {
      SecondStepNotAdjacent(to, n);
      if turn == Black {
        SameBlackHostile(c, r);
      }
    }
  }

  lemma {:induction false} CaptureUpToRule(c: Cells, to: Square, turn: Side, n: nat)
    requires AtMostOneKing(c) && n <= 4
    ensures CapturedUpTo(c, CaptureUpTo(c, to, turn, n), to, turn, n)
  {
    if n > 0 {
      CaptureUpToRule(c, to, turn, n - 1);
      var r := CaptureUpTo(c, to, turn, n - 1);
      CapturedFacts(c, r, to, turn, n - 1);
      CapturesStable(c, r, to, turn, n - 1);
      CaptureDirRule(r, to, turn, n - 1);
      var r' := CaptureUpTo(c, to, turn, n);
      forall d: Dir | 1 <= Reach(to, d)
        ensures PieceAt(r', Step(to, d, 1)) ==
          if d < n && Captures(c, to, turn, d) then Empty else PieceAt(c, Step(to, d, 1))
      {
        if 1 <= Reach(to, n - 1) {
          FirstStepsDistinct(to, d, n - 1);
        }
      }
      forall s: Square | !Adjacent(to, s)
        ensures PieceAt(r', s) == PieceAt(c, s)
      {
        if 1 <= Reach(to, n - 1) {
          FirstStepsDistinct(to, n - 1, n - 1);
        }
      }
    }
  }

  /**
   * ifCapture(to) as a whole: with at most one KING on the board, it empties
   * exactly the neighbours of `to` that the capture rules name, judged on the
   * position before any capture, and changes nothing else.
   */
  lemma CaptureAllRule(c: Cells, to: Square, turn: Side)
    requires AtMostOneKing(c)
    ensures forall s: Square :: !Adjacent(to, s) ==> PieceAt(CaptureAll(c, to, turn), s) == PieceAt(c, s)
    ensures forall d: Dir :: 1 <= Reach(to, d) ==>
      PieceAt(CaptureAll(c, to, turn), Step(to, d, 1)) ==
        if Captures(c, to, turn, d) then Empty else PieceAt(c, Step(to, d, 1))
  {
    CaptureUpToRule(c, to, turn, 4);
  }

  // ---------------------------------------------------------------------
  // makeMove

  /**
   * The cells a move touches: `to` receives the moving piece, `from` is left
   * EMPTY, and any other square that changes is a neighbour of `to` that
   * becomes EMPTY, the neighbours being judged by the capture rules on the
   * position after the slide.
   */
  lemma MakeMoveFrame(s: State, from: Square, to: Square)
    requires from != to && AtMostOneKing(s.cells)
    ensures var r := MakeMoveSpec(s, from, to).cells;
      && PieceAt(r, to) == PieceAt(s.cells, from)
      && PieceAt(r, from) == Empty
      && (forall q: Square :: q != from && q != to && PieceAt(r, q) != PieceAt(s.cells, q) ==>
            Adjacent(to, q) && PieceAt(r, q) == Empty)
      && (forall d: Dir :: 1 <= Reach(to, d) && Step(to, d, 1) != from ==>
            PieceAt(r, Step(to, d, 1)) ==
              if Captures(MovePiece(s.cells, from, to), to, s.turn, d) then Empty else PieceAt(s.cells, Step(to, d, 1)))
  {
    var m := MovePiece(s.cells, from, to);
    MovePieceOneKing(s.cells, from, to);
    CaptureAllRule(m, to, s.turn);
    var r := MakeMoveSpec(s, from, to).cells;
    assert r == CaptureAll(m, to, s.turn);
    if Adjacent(to, from) {
      var d := AdjacentStep(to, from);
      assert PieceAt(r, from) == Empty;
    }
    forall q: Square | q != from && q != to && PieceAt(r, q) != PieceAt(s.cells, q)
      ensures Adjacent(to, q) && PieceAt(r, q) == Empty
    {
      if Adjacent(to, q) {
        var d := AdjacentStep(to, q);
      }
    }
  }

  /** Sliding a piece never adds a KING. */
  lemma MovePieceOneKing(c: Cells, from: Square, to: Square)
    requires AtMostOneKing(c)
    ensures AtMostOneKing(MovePiece(c, from, to))
  {
    var m := MovePiece(c, from, to);
    forall a: Square, b: Square | PieceAt(m, a) == King && PieceAt(m, b) == King
      ensures a == b
    {
      var a' := if a == to then from else a;
      var b' := if b == to then from else b;
      assert PieceAt(c, a') == King && PieceAt(c, b') == King;
    }
  }

  /** No unblocked rook move exists for any piece of side. */
  ghost predicate NoMoves(c: Cells, side: Piece)
  {
    forall m: Move :: !(OnSide(PieceAt(c, m.from), side) && Unblocked(c, m.from, m.to))
  }

  /** legalMoves(side) is empty exactly when side has no unblocked rook move. */
  lemma NoLegalMoves(c: Cells, side: Piece)
    ensures LegalMovesOf(c, side) == [] <==> NoMoves(c, side)
  {
    if LegalMovesOf(c, side) != [] {
      LegalMovesMembership(c, side, LegalMovesOf(c, side)[0]);
    }
    forall m: Move
      ensures !(OnSide(PieceAt(c, m.from), side) && Unblocked(c, m.from, m.to)) || LegalMovesOf(c, side) != []
    {
      LegalMovesMembership(c, side, m);
    }
  }

  /**
   * The winner after a move by `turn`, on the cells after the captures, in
   * order of precedence: a KING on the edge gives WHITE, no KING gives BLACK,
   * an opponent without moves gives the mover; only otherwise does the move
   * count rise, the opponent winning once it reaches the limit.
   */
  lemma WinnerPrecedence(c: Cells, turn: Side, w: Option<Side>, n: int, lim: int)
    requires AtMostOneKing(c)
    ensures var (w', n') := Decide(c, turn, w, n, lim);
      && ((exists k: Square :: PieceAt(c, k) == King && IsEdge(k)) ==> w' == Some(White) && n' == n)
      && ((forall k: Square :: PieceAt(c, k) != King) ==> w' == Some(Black) && n' == n)
      && ((exists k: Square :: PieceAt(c, k) == King && !IsEdge(k)) && NoMoves(c, Opponent(turn)) ==>
            w' == Some(turn) && n' == n)
      && ((exists k: Square :: PieceAt(c, k) == King && !IsEdge(k)) && !NoMoves(c, Opponent(turn)) ==>
            n' == n + 1 && w' == if n + 1 >= lim then Some(Opponent(turn)) else w)
  {
    KingOfCases(c);
    if KingOf(c).Some? {
      var k: Square :| PieceAt(c, k) == King;
      assert KingOf(c) == Some(k);
      if !IsEdge(k) {
        NoLegalMoves(c, Opponent(turn));
      }
    }
  }

  /** With at most one KING, kingPosition() finds it, and finds nothing exactly when there is none. */
  lemma KingOfCases(c: Cells)
    requires AtMostOneKing(c)
    ensures KingOf(c).None? <==> forall k: Square :: PieceAt(c, k) != King
    ensures forall k: Square :: PieceAt(c, k) == King ==> KingOf(c) == Some(k)
  {
    forall k: Square | PieceAt(c, k) == King
      ensures KingOf(c) == Some(k)
    {
      KingAt(c, k);
    }
    if forall k: Square :: PieceAt(c, k) != King {
      forall i | 0 <= i < 81 ensures c[i] != King {
        assert PieceAt(c, SquareAt(i)) != King;
      }
    }
  }

  /**
   * What makeMove leaves besides the cells: the turn flips, the position
   * reached is appended to the history, and a position already in the
   * history sets the repetition flag and gives the win to the side now to
   * move, whatever was decided before.
   */
  lemma MakeMoveRecord(s: State, from: Square, to: Square)
    ensures var r := MakeMoveSpec(s, from, to);
      var e := Encode(r.turn, r.cells);
      var (w, n) := Decide(r.cells, s.turn, s.winner, s.moveCount, s.moveLim);
      && r.turn == Opponent(s.turn)
      && r.cells == CaptureAll(MovePiece(s.cells, from, to), to, s.turn)
      && r.history == s.history + [e]
      && r.moveLim == s.moveLim && r.moveCount == n
      && (e in s.history ==> r.repeated && r.winner == Some(r.turn))
      && (e !in s.history ==> r.repeated == s.repeated && r.winner == w)
  {
  }

  // ---------------------------------------------------------------------
  // Encoding and undo

  /** charToPiece inverts the piece letters. */
  lemma CharToPieceInverts(p: Piece)
    ensures CharToPiece(PieceChar(p)) == p
  {
  }

  /** Decoding an encodedBoard() string with charToPiece gives back the turn and the cells. */
  lemma DecodeEncode(turn: Side, c: Cells)
    ensures DecodeTurn(Encode(turn, c)) == turn
    ensures DecodeCells(Encode(turn, c)) == c
  {
    var e := Encode(turn, c);
    forall i | 0 <= i < 81
      ensures DecodeCells(e)[i] == c[i]
    {
      CharToPieceInverts(c[i]);
    }
  }

  /** Equal encodings mean equal positions, so checkRepeated detects exactly a repeated position. */
  lemma EncodeInjective(t1: Side, c1: Cells, t2: Side, c2: Cells)
    ensures Encode(t1, c1) == Encode(t2, c2) <==> t1 == t2 && c1 == c2
  {
    if Encode(t1, c1) == Encode(t2, c2) {
      DecodeEncode(t1, c1);
      DecodeEncode(t2, c2);
    }
  }

  /**
   * Undo after a move that neither repeated a position nor was stopped by
   * the first three winner tests (so the count rose) restores the cells,
   * the turn, the count and the history; the winner stays as the move left it.
   */
  lemma UndoAfterMove(s: State, from: Square, to: Square)
    requires HistoryOk(s.history) && |s.history| >= 1
    requires s.history[|s.history| - 1] == Encode(s.turn, s.cells)
    requires !s.repeated && s.moveCount >= 0
    requires !MakeMoveSpec(s, from, to).repeated
    requires MakeMoveSpec(s, from, to).moveCount == s.moveCount + 1
    ensures HistoryOk(MakeMoveSpec(s, from, to).history) && CanUndo(MakeMoveSpec(s, from, to))
    ensures UndoSpec(MakeMoveSpec(s, from, to)) == s.(winner := MakeMoveSpec(s, from, to).winner)
  {
    MakeMoveRecord(s, from, to);
    UndoRestores(s, MakeMoveSpec(s, from, to));
  }

  /** The step of UndoAfterMove that only looks at the record a move leaves. */
  lemma UndoRestores(s: State, t: State)
    requires HistoryOk(s.history) && |s.history| >= 1
    requires s.history[|s.history| - 1] == Encode(s.turn, s.cells)
    requires !s.repeated && !t.repeated && s.moveCount >= 0 && t.moveCount == s.moveCount + 1
    requires t.history == s.history + [Encode(t.turn, t.cells)] && t.moveLim == s.moveLim
    ensures HistoryOk(t.history) && CanUndo(t)
    ensures UndoSpec(t) == s.(winner := t.winner)
  {
    assert t.history[..|t.history| - 1] == s.history;
    DecodeEncode(s.turn, s.cells);
  }

  // ---------------------------------------------------------------------
  // At most one KING

  /**
   * The invariant of a board: at most one KING on it and on every position
   * its history records, so that undo also restores a board with one KING.
   */
  ghost predicate OneKingState(s: State)
  {
    && AtMostOneKing(s.cells)
    && forall e | e in s.history :: |e| == 82 && AtMostOneKing(DecodeCells(e))
  }

  /** The starting layout has its single KING on the throne, and a new board keeps the invariant. */
  lemma InitialOneKing()
    ensures forall k: Square :: PieceAt(InitialCells(), k) == King <==> k == THRONE
    ensures AtMostOneKing(InitialCells())
    ensures OneKingState(InitialState())
  {
    forall k: Square
      ensures PieceAt(InitialCells(), k) == King <==> k == THRONE
    {
      InitialLayout(k);
    }
  }

  /** makeMove keeps at most one KING, on the board and in the position it records. */
  lemma MakeMoveKeepsOneKing(s: State, from: Square, to: Square)
    requires OneKingState(s)
    ensures OneKingState(MakeMoveSpec(s, from, to))
  {
    var m := MovePiece(s.cells, from, to);
    MovePieceOneKing(s.cells, from, to);
    CaptureUpToRule(m, to, s.turn, 4);
    CapturedFacts(m, CaptureAll(m, to, s.turn), to, s.turn, 4);
    var r := MakeMoveSpec(s, from, to);
    MakeMoveRecord(s, from, to);
    DecodeEncode(r.turn, r.cells);
  }

  /** undo restores a recorded position, so it keeps the invariant. */
  lemma UndoKeepsOneKing(s: State)
    requires HistoryOk(s.history) && CanUndo(s) && OneKingState(s)
    ensures OneKingState(UndoSpec(s))
  {
    if s.moveCount > 0 {
      var h := if s.repeated then s.history else s.history[..|s.history| - 1];
      assert h[|h| - 1] in s.history;
      assert forall e | e in h :: e in s.history;
    }
  }

  /**
   * init and clearUndo keep the invariant, and so does copy from a board
   * with at most one KING: copy takes the model's cells but keeps its own history.
   */
  lemma ResetsKeepOneKing(s: State, model: State)
    requires OneKingState(s)
    ensures OneKingState(InitSpec(s))
    ensures OneKingState(ClearUndoSpec(s))
    ensures AtMostOneKing(model.cells) ==> OneKingState(CopySpec(s, model))
  {
    InitialOneKing();
  }

  // ---------------------------------------------------------------------
  // Legality

  /** A path is clear exactly when every step from 1 to the distance is EMPTY. */
  lemma UnblockedSteps(c: Cells, from: Square, to: Square)
    requires IsRookMove(from, to)
    ensures Distance(from, to) <= Reach(from, Direction(from, to))
    ensures Unblocked(c, from, to) <==>
      forall k | 1 <= k <= Distance(from, to) :: PieceAt(c, Step(from, Direction(from, to), k)) == Empty
  {
    StepOfDistance(from, to);
    if forall k | 1 <= k <= Distance(from, to) :: PieceAt(c, Step(from, Direction(from, to), k)) == Empty {
      forall s: Square | OnPath(from, to, s)
        ensures PieceAt(c, s) == Empty
      {
        PathIsSteps(from, to, s);
      }
    }
    if Unblocked(c, from, to) {
      forall k | 1 <= k <= Distance(from, to)
        ensures PieceAt(c, Step(from, Direction(from, to), k)) == Empty
      {
        StepOnPath(from, to, k);
      }
    }
  }

  /**
   * isLegal(from, to) against legalMoves(turn): a legal move is listed, and
   * a listed move is legal once the throne ban, which legalMoves does not
   * apply, is added.
   */
  lemma LegalIffListed(c: Cells, turn: Side, from: Square, to: Square)
    ensures MoveIsLegal(c, turn, from, to) <==>
      Move(from, to) in LegalMovesOf(c, turn) && (PieceAt(c, from) == King || to != THRONE)
  {
    LegalMovesMembership(c, turn, Move(from, to));
  }

  // ---------------------------------------------------------------------
  // Initial layout

  /** init(): KING on the throne, WHITE on the defender squares, BLACK on the attacker squares, all else EMPTY. */
  lemma InitialLayout(s: Square)
    ensures PieceAt(InitialCells(), s) ==
      if s == THRONE then King
      else if s in INITIAL_DEFENDERS then White
      else if s in INITIAL_ATTACKERS then Black
      else Empty
  {
    SquareAtIndex(s);
  }

  // ---------------------------------------------------------------------
  // setMoveLimit as written

  /** A Java int result: x reduced into [-2^31, 2^31). */
  function Wrap32(x: int): (r: int)
    ensures -0x8000_0000 <= r < 0x8000_0000
    ensures (r - x) % 0x1_0000_0000 == 0
  {
    var m := x % 0x1_0000_0000;
    if m >= 0x8000_0000 then m - 0x1_0000_0000 else m
  }

  /** setMoveLimit's refusal test as the source computes it: 2 * n in 32-bit arithmetic. */
  predicate LimitRefusedAsWritten(n: int, moveCount: int)
  {
    Wrap32(2 * n) <= moveCount
  }

  /** The test agrees with 2 * n <= moveCount while 2 * n fits in an int. */
  lemma LimitTestAgreesInRange(n: int, moveCount: int)
    requires -0x4000_0000 <= n < 0x4000_0000
    ensures LimitRefusedAsWritten(n, moveCount) <==> 2 * n <= moveCount
  {
    assert Wrap32(2 * n) == 2 * n;
  }

  /** A limit of 2^30 is refused on a fresh board, although twice it exceeds the count of 0. */
  lemma LimitOverflow()
    ensures LimitRefusedAsWritten(0x4000_0000, 0)
    ensures 2 * 0x4000_0000 > 0
  {
    assert Wrap32(0x8000_0000) == -0x8000_0000;
  }
}
