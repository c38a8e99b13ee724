/**
 * The mutable Tablut board: a 9x9 array of pieces indexed [row, col], the
 * side to move, the move counter and limit, the cached winner, the
 * repetition flag and the history of encoded positions. Every method is
 * proved to change the state exactly as the matching function of
 * BoardModel says.
 */
module TablutBoard {
  import opened Wrappers
  import opened Squares
  import opened Pieces
  import opened Moves
  import opened BoardModel

  /** The contents of a 9x9 array as cells, indexed by Square.Index(). */
  ghost function View(a: array2<Piece>): Cells
    reads a
    requires a.Length0 == 9 && a.Length1 == 9
  {
    seq(81, (i: int) requires 0 <= i < 81 reads a => a[i / 9, i % 9])
  }

  class Board {
    var cells: array2<Piece>
    var turn: Side
    var winner: Option<Side>
    var moveCount: int
    var repeated: bool
    var moveLim: int
    var history: seq<string>

    ghost predicate Valid()
      reads this
    {
      cells.Length0 == 9 && cells.Length1 == 9 && HistoryOk(history)
    }

    /** The cells as a value, indexed by Square.Index(). */
    ghost function Cells(): Cells
      reads this, cells
      requires Valid()
    {
      View(cells)
    }

    /** The whole state as a value. */
    ghost function Abs(): State
      reads this, cells
      requires Valid()
    {
      State(Cells(), turn, winner, moveCount, moveLim, repeated, history)
    }

    /** Board(): the initial position. */
    constructor ()
      ensures Valid() && fresh(cells)
      ensures Abs() == InitialState()
    {
      cells := new Piece[9, 9];
      turn, winner, moveLim := Black, None, INT_MAX;
      moveCount, repeated, history := 0, false, [];
      new;
      Init();
    }

    /** Board(model): a copy of model. */
    constructor Of(model: Board)
      requires model.Valid()
      ensures Valid() && fresh(cells)
      ensures Abs() == FreshCopy(model.Abs())
    {
      cells := new Piece[9, 9];
      turn, winner, moveLim := Black, None, INT_MAX;
      moveCount, repeated, history := 0, false, [];
      new;
      Copy(model);
    }

    /** copy(model): init(), then the model's turn and cells; a self-copy does nothing. */
    method Copy(model: Board)
      requires Valid() && model.Valid()
      modifies this
      ensures Valid() && model.Valid()
      ensures model == this ==> cells == old(cells) && Abs() == old(Abs())
      ensures model != this ==> fresh(cells) && Abs() == CopySpec(old(Abs()), old(model.Abs()))
      ensures model.Abs() == old(model.Abs())
    {
      if model == this {
        return;
      }
      Init();
      turn := model.turn;
      ghost var target := model.Cells();
      for i := 0 to 9
        modifies cells
        invariant Valid() && model.Valid() && model.Cells() == target
        invariant forall m | 0 <= m < 9 * i :: Cells()[m] == target[m]
      {
        for j := 0 to 9
          modifies cells
          invariant Valid() && model.Valid() && model.Cells() == target
          invariant forall m | 0 <= m < 9 * i + j :: Cells()[m] == target[m]
        {
          Put(model.GetAt(j, i), Sq(j, i));
        }
      }
      assert Cells() == target;
    }

    /** init(): the starting layout; move count, flag and history are kept. */
    method Init()
      requires Valid()
      modifies this
      ensures Valid() && fresh(cells)
      ensures Abs() == InitSpec(old(Abs()))
    {
      winner := None;
      turn := Black;
      cells := new Piece[9, 9];
      moveLim := INT_MAX;
      Layout();
    }

    /** init()'s writes to the fresh cells: all EMPTY, then the KING, the defenders and the attackers. */
    method Layout()
      requires Valid()
      modifies cells
      ensures Valid() && Cells() == InitialCells()
    {
      for i := 0 to 9
        modifies cells
        invariant forall r, c | 0 <= r < i && 0 <= c < 9 :: cells[r, c] == Empty
      {
        for j := 0 to 9
          modifies cells
          invariant forall r, c | 0 <= r < i && 0 <= c < 9 :: cells[r, c] == Empty
          invariant forall c | 0 <= c < j :: cells[i, c] == Empty
        {
          cells[i, j] := Empty;
        }
      }
      assert Cells() == NO_PIECES;
      Put(King, THRONE);
      PutAll(White, INITIAL_DEFENDERS);
      PutAll(Black, INITIAL_ATTACKERS);
      InitialLayers();
    }

    /** The for-each loops of init(): put p on each square of sqs in turn. */
    method PutAll(p: Piece, sqs: seq<Square>)
      requires Valid()
      modifies cells
      ensures Valid()
      ensures Cells() == Layer(old(Cells()), sqs, p)
    {
      for k := 0 to |sqs|
        invariant Valid()
        invariant Cells() == Layer(old(Cells()), sqs[..k], p)
      {
        assert sqs[..k + 1][..k] == sqs[..k];
        Put(p, sqs[k]);
      }
      assert sqs[..|sqs|] == sqs;
    }

    /** setMoveLimit(n): refused (ok false, nothing changes) when 2n <= moveCount. */
    method SetMoveLimit(n: int) returns (ok: bool)
      requires Valid()
      requires -0x8000_0000 <= n < 0x8000_0000
      modifies this
      ensures Valid() && cells == old(cells)
      ensures ok <==> 2 * n > old(moveCount)
      ensures Abs() == if ok then old(Abs()).(moveLim := n) else old(Abs())
    {
      if 2 * n <= moveCount {
        return false;
      }
      moveLim := n;
      return true;
    }

    /** get(s). */
    function Get(s: Square): (p: Piece)
      reads this, cells
      requires Valid()
      ensures p == PieceAt(Cells(), s)
    {
      cells[s.row, s.col]
    }

    /** get(col, row), for coordinates on the board. */
    function GetAt(col: int, row: int): (p: Piece)
      reads this, cells
      requires Valid()
      requires 0 <= col < 9 && 0 <= row < 9
      ensures p == PieceAt(Cells(), Sq(col, row))
    {
      cells[row, col]
    }

    /** put(p, s). */
    method Put(p: Piece, s: Square)
      requires Valid()
      modifies cells
      ensures Valid()
      ensures Cells() == Placed(old(Cells()), s, p)
    {
      cells[s.row, s.col] := p;
      CellsEqual(Cells(), Placed(old(Cells()), s, p));
    }

    /** kingPosition(): the first KING in row-major order. */
    method KingPosition() returns (k: Option<Square>)
      requires Valid()
      ensures k == KingOf(Cells())
      ensures k.Some? ==> Get(k.value) == King
      ensures k.None? <==> forall s: Square :: Get(s) != King
    {
      ghost var c := Cells();
      for i := 0 to 9
        invariant FirstKing(c, 9 * i) == KingOf(c)
      {
        for j := 0 to 9
          invariant FirstKing(c, 9 * i + j) == KingOf(c)
        {
          assert Sq(j, i).Index() == 9 * i + j;
          if cells[i, j] == King {
            assert SquareAt(9 * i + j) == Sq(j, i);
            return Some(Sq(j, i));
          }
        }
      }
      forall s: Square ensures Get(s) != King {
        assert c[s.Index()] != King;
      }
      return None;
    }

    /** isUnblockedMove(from, to): a rook move whose path is all EMPTY. */
    method IsUnblockedMove(from: Square, to: Square) returns (r: bool)
      requires Valid()
      ensures r <==> Unblocked(Cells(), from, to)
    {
      if !IsRookMove(from, to) {
        return false;
      }
      var direction := Direction(from, to);
      var distance := Distance(from, to);
      StepOfDistance(from, to);
      for steps := 1 to distance + 1
        invariant forall s: Square :: OnPath(from, to, s) && Distance(from, s) < steps ==> Get(s) == Empty
      {
        StepOnPath(from, to, steps);
        var square := RookMove(from, direction, steps).value;
        if Get(square) != Empty {
          return false;
        }
        forall s: Square | OnPath(from, to, s) && Distance(from, s) < steps + 1
          ensures Get(s) == Empty
        {
          PathIsSteps(from, to, s);
        }
      }
      forall s: Square | OnPath(from, to, s)
        ensures Get(s) == Empty
      {
        PathIsSteps(from, to, s);
      }
      return true;
    }

    /** isLegal(from): from holds a piece of the side to move. */
    function IsLegalFrom(from: Square): (r: bool)
      reads this, cells
      requires Valid()
      ensures r <==> SideOf(PieceAt(Cells(), from)) == turn
    {
      SideOf(Get(from)) == turn
    }

    /** isLegal(from, to): the side to move, an unblocked rook move, and the throne ban. */
    method IsLegal(from: Square, to: Square) returns (r: bool)
      requires Valid()
      ensures r <==> MoveIsLegal(Cells(), turn, from, to)
    {
      var u := IsUnblockedMove(from, to);
      if !IsLegalFrom(from) || !u {
        return false;
      }
      if Get(from) != King {
        return to != THRONE;
      }
      return true;
    }

    /** isLegal(move). */
    method IsLegalMove(move: Move) returns (r: bool)
      requires Valid()
      ensures r <==> MoveIsLegal(Cells(), turn, move.from, move.to)
    {
      r := IsLegal(move.from, move.to);
    }

    /** makeMove(from, to): move, capture, decide the winner, flip the turn, record. */
    method MakeMove(from: Square, to: Square)
      requires Valid()
      modifies this, cells
      ensures Valid() && cells == old(cells)
      ensures Abs() == MakeMoveSpec(old(Abs()), from, to)
    {
      Put(Get(from), to);
      Put(Empty, from);
      IfCapture(to);
      DecideWinner();
      turn := Opponent(turn);
      CheckRepeated();
    }

    /** The winner tests of makeMove, made after the captures and before the turn changes. */
    method DecideWinner()
      requires Valid()
      modifies this
      ensures Valid() && cells == old(cells)
      ensures (winner, moveCount) == Decide(Cells(), turn, old(winner), old(moveCount), moveLim)
      ensures Abs() == old(Abs()).(winner := winner, moveCount := moveCount)
    {
      var w, n := TestWinner();
      winner, moveCount := w, n;
    }

    /** What the winner tests of makeMove set the winner and the move count to, on the present cells. */
    method TestWinner() returns (w: Option<Side>, n: int)
      requires Valid()
      ensures (w, n) == Decide(Cells(), turn, winner, moveCount, moveLim)
    {
      w, n := winner, moveCount;
      var k := KingPosition();
      if k.Some? && IsEdge(k.value) {
        w := Some(White);
      } else if k.None? {
        w := Some(Black);
      } else {
        var opp := LegalMoves(Opponent(turn));
        if |opp| == 0 {
          w := Some(turn);
        } else {
          n := n + 1;
          if n >= moveLim {
            w := Some(Opponent(turn));
          }
        }
      }
    }

    /** makeMove(move). */
    method MakeMoveOf(move: Move)
      requires Valid()
      modifies this, cells
      ensures Valid() && cells == old(cells)
      ensures Abs() == MakeMoveSpec(old(Abs()), move.from, move.to)
    {
      MakeMove(move.from, move.to);
    }

    /** ifCapture(to): the four capture tests around the destination. */
    method IfCapture(to: Square)
      requires Valid()
      modifies cells
      ensures Valid()
      ensures Cells() == CaptureAll(old(Cells()), to, turn)
    {
      for i := 0 to 4
        invariant Valid()
        invariant Cells() == CaptureUpTo(old(Cells()), to, turn, i)
      {
        ghost var before := Cells();
        CaptureTowards(to, i);
        assert Cells() == CaptureDir(before, to, turn, i);
      }
    }

    /** One pass of ifCapture's loop: the capture tests in direction i from to. */
    method CaptureTowards(to: Square, i: Dir)
      requires Valid()
      modifies cells
      ensures Valid()
      ensures Cells() == CaptureDir(old(Cells()), to, turn, i)
    {
      var line := RookLine(to, i);
      if |line| > 1 {
        var other := line[1];
        if Exists(other.col, other.row) {
          var mid := Between(other, to);
          if Get(mid) == Opponent(turn) {
            if SideOf(Get(other)) == turn {
              Capture(to, other);
            }
            if other == THRONE && Get(THRONE) == Empty {
              Capture(to, other);
            }
            if turn == Black && other == THRONE && Get(THRONE) == King {
              var hostile := ThroneWhiteHostile();
              if hostile {
                Capture(to, other);
              }
            }
          } else if turn == Black && Get(mid) == King {
            var kp := KingPosition();
            if kp.value in INITIAL_DEFENDERS || kp.value == THRONE {
              var flag := KingHemmed(kp.value);
              if flag {
                Capture(to, other);
              }
            } else {
              if SideOf(Get(other)) == turn {
                Capture(to, other);
              }
            }
          }
        }
      }
    }

    /** The inner loop of ifCapture: every neighbour of the king k but the throne is BLACK. */
    method KingHemmed(k: Square) returns (flag: bool)
      requires Valid()
      requires k in INITIAL_DEFENDERS || k == THRONE
      ensures flag <==> KingSurrounded(Cells(), k)
    {
      ThroneAreaInterior(k);
      flag := true;
      for j := 0 to 4
        invariant flag <==> forall d: int | 0 <= d < j && 1 <= Reach(k, d) ::
          RookLine(k, d)[0] == THRONE || Get(RookLine(k, d)[0]) == Black
      {
        var s := RookLine(k, j)[0];
        if s != THRONE {
          if Get(s) != Black {
            flag := false;
          }
        }
      }
    }

    /** throneWhiteHostile(): exactly three defender squares hold BLACK. */
    method ThroneWhiteHostile() returns (h: bool)
      requires Valid()
      ensures h <==> ThroneHostile(Cells())
    {
      var i := 0;
      for k := 0 to |INITIAL_DEFENDERS|
        invariant i == BlackCount(Cells(), INITIAL_DEFENDERS[..k])
      {
        assert INITIAL_DEFENDERS[..k + 1][..k] == INITIAL_DEFENDERS[..k];
        if Get(INITIAL_DEFENDERS[k]) == Black {
          i := i + 1;
        }
      }
      assert INITIAL_DEFENDERS[..|INITIAL_DEFENDERS|] == INITIAL_DEFENDERS;
      if i == 3 {
        return true;
      }
      return false;
    }

    /** capture(sq0, sq2): empty the square halfway between them. */
    method Capture(sq0: Square, sq2: Square)
      requires Valid()
      modifies cells
      ensures Valid()
      ensures Cells() == Placed(old(Cells()), Between(sq0, sq2), Empty)
    {
      var square := Between(sq0, sq2);
      Put(Empty, square);
    }

    /** checkRepeated(): a repeated encoding hands the win to the side to move; always record. */
    method CheckRepeated()
      requires Valid()
      modifies this
      ensures Valid() && cells == old(cells)
      ensures Abs() == RecordPosition(old(Abs()))
    {
      var e := EncodedBoard();
      if e in history {
        repeated := true;
        winner := Some(turn);
      }
      var e2 := EncodedBoard();
      history := history + [e2];
    }

    /** undo(): nothing at move count 0; else restore the previous recorded position. */
    method Undo()
      requires Valid() && CanUndo(Abs())
      modifies this, cells
      ensures Valid() && cells == old(cells)
      ensures Abs() == UndoSpec(old(Abs()))
    {
      if moveCount > 0 {
        UndoPosition();
        var last := |history| - 1;
        var prev := history[last];
        assert prev in history;
        var t := prev[0];
        turn := CharToPiece(t);
        ghost var target := DecodeCells(prev);
        for i := 1 to |prev|
          modifies cells
          invariant Valid()
          invariant forall m | 0 <= m < i - 1 :: Cells()[m] == target[m]
        {
          var s := SquareAt(i - 1);
          Put(CharToPiece(prev[i]), s);
        }
        assert Cells() == target;
        moveCount := moveCount - 1;
      }
    }

    /** undoPosition(): drop the top history entry unless the position repeated. */
    method UndoPosition()
      requires Valid() && (!repeated ==> |history| >= 1)
      modifies this
      ensures Valid() && cells == old(cells)
      ensures Abs() == old(Abs()).(history := if old(repeated) then old(history) else old(history)[..|old(history)| - 1])
    {
      if !repeated {
        history := history[..|history| - 1];
      }
    }

    /** clearUndo(): forget the history and the move count; position and winner stay. */
    method ClearUndo()
      requires Valid()
      modifies this
      ensures Valid() && cells == old(cells)
      ensures Abs() == ClearUndoSpec(old(Abs()))
    {
      history := [];
      moveCount := 0;
    }

    /** legalMoves(side): every unblocked rook move of every piece of side. */
    method LegalMoves(side: Piece) returns (moves: seq<Move>)
      requires Valid() && side != Empty
      ensures moves == LegalMovesOf(Cells(), side)
    {
      ghost var c := Cells();
      ghost var all := SquareList();
      moves := [];
      var locations := PieceLocations(side);
      for k := 0 to 81
        invariant moves == MovesAmong(c, side, all[..k])
      {
        var s := SquareAt(k);
        assert all[..k + 1][..k] == all[..k];
        if s in locations {
          var targets := TargetMoves(s);
          moves := moves + targets;
        }
      }
      assert all[..81] == all;
    }

    /** The two inner loops of legalMoves: the unblocked rook moves from s, by target square. */
    method TargetMoves(s: Square) returns (moves: seq<Move>)
      requires Valid()
      ensures moves == TargetsAmong(Cells(), s, SquareList())
    {
      ghost var c := Cells();
      ghost var all := SquareList();
      moves := [];
      for i := 0 to 9
        invariant moves == TargetsAmong(c, s, all[..9 * i])
      {
        for j := 0 to 9
          invariant moves == TargetsAmong(c, s, all[..9 * i + j])
        {
          SquareListAt(i, j);
          var move := Mv(s, Sq(j, i));
          if move.Some? {
            var u := IsUnblockedMove(move.value.from, move.value.to);
            if u {
              moves := moves + [move.value];
            }
          }
        }
      }
      assert all[..81] == all;
    }

    /** hasMove(side). */
    method HasMove(side: Piece) returns (b: bool)
      requires Valid() && side != Empty
      ensures b <==> LegalMovesOf(Cells(), side) != []
    {
      var moves := LegalMoves(side);
      if |moves| > 0 {
        return true;
      }
      return false;
    }

    /** pieceLocations(side): the squares of side's pieces, the KING counting for WHITE. */
    method PieceLocations(side: Piece) returns (locations: set<Square>)
      requires Valid() && side != Empty
      ensures locations == PieceLocationsOf(Cells(), side)
    {
      ghost var c := Cells();
      locations := {};
      for i := 0 to 9
        invariant forall s: Square :: s in locations <==> s.Index() < 9 * i && OnSide(PieceAt(c, s), side)
      {
        for j := 0 to 9
          invariant forall s: Square :: s in locations <==> s.Index() < 9 * i + j && OnSide(PieceAt(c, s), side)
        {
          assert cells[i, j] == PieceAt(c, Sq(j, i));
          if cells[i, j] == side {
            locations := locations + {Sq(j, i)};
          } else if cells[i, j] == King && side == White {
            locations := locations + {Sq(j, i)};
          }
        }
      }
    }

    /** encodedBoard(): the turn letter and the 81 cell letters in square order. */
    method EncodedBoard() returns (e: string)
      requires Valid()
      ensures e == Encode(turn, Cells())
    {
      ghost var c := Cells();
      var result := new char[82];
      result[0] := PieceChar(turn);
      for k := 0 to 81
        invariant result[0] == PieceChar(turn)
        invariant forall m | 0 <= m < k :: result[m + 1] == PieceChar(c[m])
      {
        var sq := SquareAt(k);
        var p := Get(sq);
        assert p == c[k];
        result[k + 1] := PieceChar(p);
      }
      e := result[..];
      ghost var spec := Encode(turn, c);
      assert forall m | 0 <= m < 82 :: e[m] == spec[m];
    }
  }
}
