/** The four kinds of cell content and the two sides of the game. */
module Pieces {

  datatype Piece = Empty | King | White | Black

  /** WHITE or BLACK: the values the turn and the winner take. */
  type Side = p: Piece | p == White || p == Black witness White

  /** side(): KING plays on the WHITE side; EMPTY belongs to neither side. */
  function SideOf(p: Piece): Piece
  {
    match p
    case King => White
    case White => White
    case Black => Black
    case Empty => Empty
  }

  /** opponent() of a side. */
  function Opponent(s: Side): (o: Side)
    ensures o != s
  {
    if s == White then Black else White
  }

  /** The one-letter text of a piece: - K W B. */
  function PieceChar(p: Piece): char
  {
    match p
    case Empty => '-'
    case King => 'K'
    case White => 'W'
    case Black => 'B'
  }
}
