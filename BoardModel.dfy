/**
 * A value-level model of the Tablut board engine: the 81 cells, the
 * position state, and one pure function per state change the engine makes.
 * The class TablutBoard.Board is proved to behave as these functions say.
 */
module BoardModel {
  import opened Wrappers
  import opened Squares
  import opened Pieces
  import opened Moves

  /** Integer.MAX_VALUE, the default move limit. */
  const INT_MAX: int := 0x7fff_ffff

  /** The throne and its four neighbours. */
  const THRONE: Square := Sq(4, 4)
  const NTHRONE: Square := Sq(4, 5)
  const STHRONE: Square := Sq(4, 3)
  const WTHRONE: Square := Sq(3, 4)
  const ETHRONE: Square := Sq(5, 4)

  /** Initial positions of the attackers (BLACK). */
  const INITIAL_ATTACKERS: seq<Square> := [
    Sq(0, 3), Sq(0, 4), Sq(0, 5), Sq(1, 4),
    Sq(8, 3), Sq(8, 4), Sq(8, 5), Sq(7, 4),
    Sq(3, 0), Sq(4, 0), Sq(5, 0), Sq(4, 1),
    Sq(3, 8), Sq(4, 8), Sq(5, 8), Sq(4, 7)
  ]

  /** Initial positions of the defenders (WHITE). */
  const INITIAL_DEFENDERS: seq<Square> := [
    NTHRONE, ETHRONE, STHRONE, WTHRONE,
    Sq(4, 6), Sq(4, 2), Sq(2, 4), Sq(6, 4)
  ]

  /** The contents of the board, indexed by Square.Index(). */
  type Cells = c: seq<Piece> | |c| == 81 witness seq(81, _ => Empty)

  function PieceAt(c: Cells, s: Square): Piece
  {
    c[s.Index()]
  }

  function Placed(c: Cells, s: Square, p: Piece): (r: Cells)
    ensures PieceAt(r, s) == p
    ensures forall t: Square :: t != s ==> PieceAt(r, t) == PieceAt(c, t)
  {
    c[s.Index() := p]
  }

  /** Two cell contents that agree on every square are equal. */
  lemma CellsEqual(c1: Cells, c2: Cells)
    requires forall s: Square :: PieceAt(c1, s) == PieceAt(c2, s)
    ensures c1 == c2
  {
    forall i | 0 <= i < 81
      ensures c1[i] == c2[i]
    {
      assert PieceAt(c1, SquareAt(i)) == PieceAt(c2, SquareAt(i));
    }
  }

  /** The throne and the defender squares lie two or more squares from every edge. */
  lemma ThroneAreaInterior(k: Square)
    requires k in INITIAL_DEFENDERS || k == THRONE
    ensures 2 <= k.col <= 6 && 2 <= k.row <= 6
  {
  }

  // ---------------------------------------------------------------------
  // Initial layout

  /** What init() leaves on s; later writes win, as in init(). */
  function InitialPiece(s: Square): Piece
  {
    if s in INITIAL_ATTACKERS then Black
    else if s in INITIAL_DEFENDERS then White
    else if s == THRONE then King
    else Empty
  }

  /** A board with no pieces. */
  const NO_PIECES: Cells := seq(81, _ => Empty)

  /** c with p put on the squares sqs one after another. */
  function Layer(c: Cells, sqs: seq<Square>, p: Piece): (r: Cells)
    ensures forall s: Square :: PieceAt(r, s) == if s in sqs then p else PieceAt(c, s)
  {
    if sqs == [] then c
    else
      assert sqs == sqs[..|sqs| - 1] + [sqs[|sqs| - 1]];
      Placed(Layer(c, sqs[..|sqs| - 1], p), sqs[|sqs| - 1], p)
  }

  /** init()'s writes: the KING on the throne, then the defenders, then the attackers. */
  lemma InitialLayers()
    ensures InitialCells() ==
      Layer(Layer(Placed(NO_PIECES, THRONE, King), INITIAL_DEFENDERS, White), INITIAL_ATTACKERS, Black)
  {
    var c := Layer(Layer(Placed(NO_PIECES, THRONE, King), INITIAL_DEFENDERS, White), INITIAL_ATTACKERS, Black);
    forall s: Square
      ensures PieceAt(InitialCells(), s) == PieceAt(c, s)
    {
      SquareAtIndex(s);
    }
    CellsEqual(InitialCells(), c);
  }

  function InitialCells(): (c: Cells)
  {
    seq(81, (i: int) requires 0 <= i < 81 => InitialPiece(SquareAt(i)))
  }

  // ---------------------------------------------------------------------
  // Queries

  /** The condition pieceLocations(side) uses: the piece, or the KING for WHITE. */
  predicate OnSide(p: Piece, side: Piece)
  {
    p == side || (p == King && side == White)
  }

  /** The locations of side's pieces among the squares of index k and above. */
  function LocationsFrom(c: Cells, side: Piece, k: nat): (r: set<Square>)
    decreases 81 - k
    ensures k <= 81 ==> |r| <= 81 - k
    ensures forall s: Square :: s in r <==> k <= s.Index() && OnSide(PieceAt(c, s), side)
  {
    if k >= 81 then {}
    else
      var rest := LocationsFrom(c, side, k + 1);
      var here: set<Square> := if OnSide(c[k], side) then {SquareAt(k)} else {};
      assert |here + rest| <= |here| + |rest| by { CardUnion(here, rest); }
      here + rest
  }

  lemma CardUnion<T>(a: set<T>, b: set<T>)
    ensures |a + b| <= |a| + |b|
  {
    assert |a + b| + |a * b| == |a| + |b|;
  }

  /** pieceLocations(side). */
  function PieceLocationsOf(c: Cells, side: Piece): (r: set<Square>)
    ensures |r| <= 81
    ensures forall s: Square :: s in r <==> OnSide(PieceAt(c, s), side)
  {
    LocationsFrom(c, side, 0)
  }

  /** The first KING at index k or above, in index (row-major) order. */
  function FirstKing(c: Cells, k: nat): (r: Option<Square>)
    decreases 81 - k
    ensures r.Some? ==> k <= r.value.Index() && PieceAt(c, r.value) == King
    ensures r.Some? ==> forall i | k <= i < r.value.Index() :: c[i] != King
    ensures r.None? <==> forall i | k <= i < 81 :: c[i] != King
  {
    if k >= 81 then None
    else if c[k] == King then Some(SquareAt(k))
    else FirstKing(c, k + 1)
  }

  /** kingPosition(): the first KING in row-major order, or None. */
  function KingOf(c: Cells): Option<Square>
  {
    FirstKing(c, 0)
  }

  /** Every square of the path of from-to is EMPTY. */
  ghost predicate PathClear(c: Cells, from: Square, to: Square)
  {
    forall s: Square :: OnPath(from, to, s) ==> PieceAt(c, s) == Empty
  }

  /** isUnblockedMove(from, to). */
  ghost predicate Unblocked(c: Cells, from: Square, to: Square)
  {
    IsRookMove(from, to) && PathClear(c, from, to)
  }

  /** isLegal(from, to), with the throne ban for every piece but the KING. */
  ghost predicate MoveIsLegal(c: Cells, turn: Side, from: Square, to: Square)
  {
    && SideOf(PieceAt(c, from)) == turn
    && Unblocked(c, from, to)
    && (PieceAt(c, from) != King ==> to != THRONE)
  }

  /** The move from-to when it is an unblocked rook move (the test in legalMoves' inner loop). */
  ghost function Target(c: Cells, from: Square, to: Square): seq<Move>
  {
    if Mv(from, to).Some? && Unblocked(c, from, to) then [Move(from, to)] else []
  }

  /** The unblocked moves from `from` to the squares tos, in the order of tos. */
  ghost function TargetsAmong(c: Cells, from: Square, tos: seq<Square>): (r: seq<Move>)
    ensures forall m: Move :: m in r <==> m.from == from && m.to in tos && Unblocked(c, from, m.to)
  {
    if tos == [] then []
    else
      assert tos == tos[..|tos| - 1] + [tos[|tos| - 1]];
      TargetsAmong(c, from, tos[..|tos| - 1]) + Target(c, from, tos[|tos| - 1])
  }

  /** The moves of side's pieces standing on the squares sqs, piece by piece in the order of sqs. */
  ghost function MovesAmong(c: Cells, side: Piece, sqs: seq<Square>): (r: seq<Move>)
    ensures forall m: Move :: m in r <==>
      m.from in sqs && OnSide(PieceAt(c, m.from), side) && m.to in SquareList() && Unblocked(c, m.from, m.to)
  {
    if sqs == [] then []
    else
      assert sqs == sqs[..|sqs| - 1] + [sqs[|sqs| - 1]];
      MovesAmong(c, side, sqs[..|sqs| - 1])
      + (if sqs[|sqs| - 1] in PieceLocationsOf(c, side) then TargetsAmong(c, sqs[|sqs| - 1], SquareList()) else [])
  }

  /**
   * legalMoves(side): the unblocked rook moves of side's pieces, the pieces
   * taken in square order (the source takes them in hash-set order).
   */
  ghost function LegalMovesOf(c: Cells, side: Piece): seq<Move>
  {
    MovesAmong(c, side, SquareList())
  }

  /** legalMoves(side) lists exactly the unblocked rook moves of side's pieces. */
  lemma LegalMovesMembership(c: Cells, side: Piece, m: Move)
    ensures m in LegalMovesOf(c, side) <==> OnSide(PieceAt(c, m.from), side) && Unblocked(c, m.from, m.to)
  {
    AllSquaresListed();
  }

  /** The number of BLACK pieces on the squares sqs. */
  function BlackCount(c: Cells, sqs: seq<Square>): (n: nat)
    ensures n <= |sqs|
    ensures n == 0 <==> forall i | 0 <= i < |sqs| :: PieceAt(c, sqs[i]) != Black
    ensures n == |sqs| <==> forall i | 0 <= i < |sqs| :: PieceAt(c, sqs[i]) == Black
  {
    if sqs == [] then 0
    else BlackCount(c, sqs[..|sqs| - 1]) + (if PieceAt(c, sqs[|sqs| - 1]) == Black then 1 else 0)
  }

  /** throneWhiteHostile(): exactly three of the defender squares hold BLACK. */
  predicate ThroneHostile(c: Cells)
  {
    BlackCount(c, INITIAL_DEFENDERS) == 3
  }

  // ---------------------------------------------------------------------
  // Captures

  /** Every neighbour of k except the throne holds BLACK. */
  predicate KingSurrounded(c: Cells, k: Square)
  {
    forall d: int | 0 <= d < 4 && 1 <= Reach(k, d) ::
      RookLine(k, d)[0] == THRONE || PieceAt(c, RookLine(k, d)[0]) == Black
  }

  /** One turn of ifCapture's loop: the direction d from `to`. */
  function CaptureDir(c: Cells, to: Square, turn: Side, d: Dir): Cells
  {
    var line := RookLine(to, d);
    if |line| <= 1 then c
    else
      var other := line[1];
      var mid := Between(other, to);
      if PieceAt(c, mid) == Opponent(turn) then
        var c1 := if SideOf(PieceAt(c, other)) == turn then Placed(c, mid, Empty) else c;
        var c2 := if other == THRONE && PieceAt(c1, THRONE) == Empty then Placed(c1, mid, Empty) else c1;
        if turn == Black && other == THRONE && PieceAt(c2, THRONE) == King && ThroneHostile(c2)
        then Placed(c2, mid, Empty) else c2
      else if turn == Black && PieceAt(c, mid) == King then
        var k := KingOf(c);
        if k.Some? && (k.value in INITIAL_DEFENDERS || k.value == THRONE) then
          (if KingSurrounded(c, k.value) then Placed(c, mid, Empty) else c)
        else if SideOf(PieceAt(c, other)) == turn then Placed(c, mid, Empty)
        else c
      else c
  }

  /** ifCapture after its first n directions. */
  function CaptureUpTo(c: Cells, to: Square, turn: Side, n: nat): Cells
    requires n <= 4
  {
    if n == 0 then c else CaptureDir(CaptureUpTo(c, to, turn, n - 1), to, turn, n - 1)
  }

  /** ifCapture(to), run by `turn`. */
  function CaptureAll(c: Cells, to: Square, turn: Side): Cells
  {
    CaptureUpTo(c, to, turn, 4)
  }

  /** The first two statements of makeMove: to gets from's piece, from becomes EMPTY. */
  function MovePiece(c: Cells, from: Square, to: Square): Cells
  {
    Placed(Placed(c, to, PieceAt(c, from)), from, Empty)
  }

  // ---------------------------------------------------------------------
  // Positions and their encoding

  /** The state of a Board object. */
  datatype State = State(
    cells: Cells,
    turn: Side,
    winner: Option<Side>,
    moveCount: int,
    moveLim: int,
    repeated: bool,
    history: seq<string>)

  /** encodedBoard(): the turn letter, then the 81 cell letters in square order. */
  function Encode(turn: Side, c: Cells): (e: string)
    ensures IsEncoding(e)
  {
    [PieceChar(turn)] + seq(81, (i: int) requires 0 <= i < 81 => PieceChar(c[i]))
  }

  /** charToPiece(ch). */
  function CharToPiece(ch: char): Piece
  {
    if ch == '-' then Empty
    else if ch == 'K' then King
    else if ch == 'W' then White
    else Black
  }

  /** A history entry as encodedBoard() writes it (what undo() relies on). */
  predicate IsEncoding(e: string)
  {
    |e| == 82 && (e[0] == 'W' || e[0] == 'B')
  }

  predicate HistoryOk(h: seq<string>)
  {
    forall e | e in h :: IsEncoding(e)
  }

  function DecodeTurn(e: string): Side
    requires IsEncoding(e)
  {
    CharToPiece(e[0])
  }

  /** The cells undo() writes from an entry: square i gets charToPiece(e[i + 1]). */
  function DecodeCells(e: string): Cells
    requires |e| == 82
  {
    seq(81, (i: int) requires 0 <= i < 81 => CharToPiece(e[i + 1]))
  }

  // ---------------------------------------------------------------------
  // State changes

  /** init(): the starting layout; the move count, flag and history stay. */
  function InitSpec(s: State): State
  {
    s.(cells := InitialCells(), turn := Black, winner := None, moveLim := INT_MAX)
  }

  /** A new Board(): init() on the field defaults. */
  function InitialState(): State
  {
    State(InitialCells(), Black, None, 0, INT_MAX, false, [])
  }

  /** copy(model) on a distinct board: init(), then the model's turn and cells. */
  function CopySpec(self: State, model: State): State
  {
    InitSpec(self).(cells := model.cells, turn := model.turn)
  }

  /** What `new Board(); copy(model)` yields. */
  function FreshCopy(model: State): State
  {
    CopySpec(InitialState(), model)
  }

  /**
   * The winner decision of makeMove, on the cells after the captures, for
   * the side `turn` that moved: the new winner and the new move count.
   */
  ghost function Decide(c: Cells, turn: Side, winner: Option<Side>, moveCount: int, moveLim: int): (Option<Side>, int)
  {
    var k := KingOf(c);
    if k.Some? && IsEdge(k.value) then (Some(White), moveCount)
    else if k.None? then (Some(Black), moveCount)
    else if LegalMovesOf(c, Opponent(turn)) == [] then (Some(turn), moveCount)
    else if moveCount + 1 >= moveLim then (Some(Opponent(turn)), moveCount + 1)
    else (winner, moveCount + 1)
  }

  /** checkRepeated(): record the position; a repeat hands the win to the side to move. */
  function RecordPosition(s: State): State
  {
    var e := Encode(s.turn, s.cells);
    if e in s.history then s.(repeated := true, winner := Some(s.turn), history := s.history + [e])
    else s.(history := s.history + [e])
  }

  /** makeMove(from, to). */
  ghost function MakeMoveSpec(s: State, from: Square, to: Square): State
  {
    var c := CaptureAll(MovePiece(s.cells, from, to), to, s.turn);
    var (w, n) := Decide(c, s.turn, s.winner, s.moveCount, s.moveLim);
    RecordPosition(State(c, Opponent(s.turn), w, n, s.moveLim, s.repeated, s.history))
  }

  /** The history entries undo() reads exist (the source fails otherwise). */
  predicate CanUndo(s: State)
  {
    s.moveCount > 0 ==> |s.history| >= (if s.repeated then 1 else 2)
  }

  /** undo(): drop the top entry unless repeated, restore the new top, count down. */
  function UndoSpec(s: State): State
    requires HistoryOk(s.history) && CanUndo(s)
  {
    if s.moveCount <= 0 then s
    else
      var h := if s.repeated then s.history else s.history[..|s.history| - 1];
      var prev := h[|h| - 1];
      assert prev in s.history;
      s.(history := h, turn := DecodeTurn(prev), cells := DecodeCells(prev), moveCount := s.moveCount - 1)
  }

  /** clearUndo(). */
  function ClearUndoSpec(s: State): State
  {
    s.(history := [], moveCount := 0)
  }
}
