/** Moves: an ordered pair of squares forming a rook move. */
module Moves {
  import opened Wrappers
  import opened Squares

  datatype Move = Move(from: Square, to: Square)

  /** mv(from, to): the move from-to, or None when it is not a rook move. */
  function Mv(from: Square, to: Square): (m: Option<Move>)
    ensures m.Some? <==> IsRookMove(from, to)
    ensures m.Some? ==> m.value.from == from && m.value.to == to
  {
    if IsRookMove(from, to) then Some(Move(from, to)) else None
  }
}
