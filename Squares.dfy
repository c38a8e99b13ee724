/**
 * The squares of the 9x9 Tablut board and the rook geometry on them:
 * the part of the game's Square class that the board engine uses.
 */
module Squares {
  import opened Wrappers

  /** Number of squares on a side of the board. */
  const SIZE: int := 9

  /** A column or row number. */
  type Coord = i: int | 0 <= i < 9

  /** A square, identified by its column and row (both 0..8). */
  datatype Square = Sq(col: Coord, row: Coord) {
    /** The dense index used for array lookup and for the position encoding. */
    function Index(): (i: int)
      ensures 0 <= i < 81
      ensures i / 9 == row && i % 9 == col
    {
      row * 9 + col
    }
  }

  /** SQUARE_LIST.get(i): the square whose index is i. */
  function SquareAt(i: int): (s: Square)
    requires 0 <= i < 81
    ensures s.Index() == i
  {
    Sq(i % 9, i / 9)
  }

  /** SQUARE_LIST: every square, in index order. */
  function SquareList(): (r: seq<Square>)
    ensures |r| == 81 && forall i | 0 <= i < 81 :: r[i] == SquareAt(i)
    ensures forall i, j | 0 <= i < j < 81 :: r[i] != r[j]
  {
    seq(81, (i: int) requires 0 <= i < 81 => SquareAt(i))
  }

  lemma AllSquaresListed()
    ensures forall s: Square :: s in SquareList()
  {
    forall s: Square
      ensures s in SquareList()
    {
      assert SquareList()[s.Index()] == s;
    }
  }

  /** The entry 9i+j of SQUARE_LIST is sq(j, i), and one more entry extends the prefix by it. */
  lemma SquareListAt(i: int, j: int)
    requires 0 <= i < 9 && 0 <= j < 9
    ensures SquareList()[9 * i + j] == Sq(j, i)
    ensures SquareList()[..9 * i + j + 1][..9 * i + j] == SquareList()[..9 * i + j]
  {
    assert Sq(j, i).Index() == 9 * i + j;
  }

  lemma IndexInjective(a: Square, b: Square)
    ensures a.Index() == b.Index() <==> a == b
  {
  }

  lemma SquareAtIndex(s: Square)
    ensures SquareAt(s.Index()) == s
  {
  }

  /** The four directions: 0 north (rows up), 1 east, 2 south, 3 west. */
  type Dir = d: int | 0 <= d < 4

  /** Whether (col, row) lies on the board. */
  predicate Exists(col: int, row: int)
  {
    0 <= col < SIZE && 0 <= row < SIZE
  }

  /** Number of steps that stay on the board when moving from s in direction d. */
  function Reach(s: Square, d: Dir): (n: nat)
    ensures n <= 8
  {
    match d
    case 0 => 8 - s.row
    case 1 => 8 - s.col
    case 2 => s.row
    case 3 => s.col
  }

  /** The square k steps from s in direction d. */
  function Step(s: Square, d: Dir, k: nat): (t: Square)
    requires k <= Reach(s, d)
  {
    match d
    case 0 => Sq(s.col, s.row + k)
    case 1 => Sq(s.col + k, s.row)
    case 2 => Sq(s.col, s.row - k)
    case 3 => Sq(s.col - k, s.row)
  }

  /** rookMove(dir, steps): the square reached, or None if it is off the board. */
  function RookMove(s: Square, d: Dir, steps: nat): (r: Option<Square>)
    ensures r.Some? <==> steps <= Reach(s, d)
    ensures r.Some? ==> r.value == Step(s, d, steps)
  {
    if steps <= Reach(s, d) then Some(Step(s, d, steps)) else None
  }

  /**
   * The target squares of ROOK_MOVES[s.index()][d], nearest first:
   * every square north (east, south, west) of s up to the edge.
   */
  function RookLine(s: Square, d: Dir): (line: seq<Square>)
    ensures |line| == Reach(s, d)
    ensures forall k | 0 <= k < |line| :: line[k] == Step(s, d, k + 1)
    ensures forall i, j | 0 <= i < j < |line| :: line[i] != line[j] && line[i] != s
    ensures forall t: Square :: t in line <==> t != s && OnRay(s, d, t)
  {
    var line := seq(Reach(s, d), (k: int) requires 0 <= k < Reach(s, d) => Step(s, d, k + 1));
    assert forall t: Square :: t != s && OnRay(s, d, t) ==> t in line by {
      forall t: Square | t != s && OnRay(s, d, t)
        ensures t in line
      {
        var k := if d == 0 || d == 2 then Abs(t.row - s.row) else Abs(t.col - s.col);
        assert line[k - 1] == t;
      }
    }
    line
  }

  /** t lies on the half-line from s in direction d, s included. */
  predicate OnRay(s: Square, d: Dir, t: Square)
  {
    match d
    case 0 => t.col == s.col && t.row >= s.row
    case 1 => t.row == s.row && t.col >= s.col
    case 2 => t.col == s.col && t.row <= s.row
    case 3 => t.row == s.row && t.col <= s.col
  }

  /** isRookMove: distinct squares on one row or one column. */
  predicate IsRookMove(a: Square, b: Square)
  {
    a != b && (a.col == b.col || a.row == b.row)
  }

  /** direction(): the direction of the rook move a-b. */
  function Direction(a: Square, b: Square): Dir
    requires IsRookMove(a, b)
  {
    if a.col == b.col then (if b.row > a.row then 0 else 2)
    else (if b.col > a.col then 1 else 3)
  }

  function Abs(x: int): nat
  {
    if x < 0 then -x else x
  }

  /** The distance max(|drow|, |dcol|) that the source computes for a rook move. */
  function Distance(a: Square, b: Square): nat
  {
    var dr := Abs(a.row - b.row);
    var dc := Abs(a.col - b.col);
    if dr < dc then dc else dr
  }

  /** between(): the square halfway between a and b. */
  function Between(a: Square, b: Square): Square
  {
    Sq((a.col + b.col) / 2, (a.row + b.row) / 2)
  }

  /** isEdge(): on the outermost ring of the board. */
  predicate IsEdge(s: Square)
  {
    s.row == 0 || s.row == 8 || s.col == 0 || s.col == 8
  }

  /** Orthogonally adjacent squares. */
  predicate Adjacent(a: Square, b: Square)
  {
    Abs(a.col - b.col) + Abs(a.row - b.row) == 1
  }

  /**
   * Reference definition of the path of a rook move: the squares other
   * than `from` on the straight segment from `from` to `to`, `to` included.
   */
  predicate OnPath(from: Square, to: Square, s: Square)
  {
    && IsRookMove(from, to)
    && s != from
    && (if from.row == to.row
        then s.row == from.row && Between3(from.col, s.col, to.col)
        else s.col == from.col && Between3(from.row, s.row, to.row))
  }

  /** y lies in the closed interval between x and z. */
  predicate Between3(x: int, y: int, z: int)
  {
    (x <= y <= z) || (z <= y <= x)
  }

  /** The squares on the path are exactly the steps 1..Distance in the move's direction. */
  lemma StepOnPath(from: Square, to: Square, k: nat)
    requires IsRookMove(from, to) && 1 <= k <= Distance(from, to)
    ensures k <= Reach(from, Direction(from, to))
    ensures OnPath(from, to, Step(from, Direction(from, to), k))
  {
  }

  lemma PathIsSteps(from: Square, to: Square, s: Square)
    requires OnPath(from, to, s)
    ensures 1 <= Distance(from, s) <= Distance(from, to)
    ensures Distance(from, s) <= Reach(from, Direction(from, to))
    ensures s == Step(from, Direction(from, to), Distance(from, s))
  {
  }

  lemma StepOfDistance(from: Square, to: Square)
    requires IsRookMove(from, to)
    ensures Distance(from, to) <= Reach(from, Direction(from, to))
    ensures Step(from, Direction(from, to), Distance(from, to)) == to
  {
  }

  /** The second square of a rook line minus its first is the midpoint one. */
  lemma BetweenOfLine(s: Square, d: Dir)
    requires Reach(s, d) > 1
    ensures Between(Step(s, d, 2), s) == Step(s, d, 1)
    ensures Between(s, Step(s, d, 2)) == Step(s, d, 1)
  {
  }

  /** The first steps in the four directions are distinct neighbours. */
  lemma FirstStepsDistinct(s: Square, d: Dir, e: Dir)
    requires 1 <= Reach(s, d) && 1 <= Reach(s, e)
    ensures Adjacent(s, Step(s, d, 1))
    ensures Step(s, d, 1) == Step(s, e, 1) <==> d == e
  {
  }

  /** A second step is never adjacent to the origin, nor equal to any first step. */
  lemma SecondStepNotAdjacent(s: Square, d: Dir)
    requires 2 <= Reach(s, d)
    ensures !Adjacent(s, Step(s, d, 2)) && Step(s, d, 2) != s
  {
  }

  /** Every neighbour of s is its first step in some direction. */
  lemma AdjacentStep(s: Square, t: Square) returns (d: Dir)
    requires Adjacent(s, t)
    ensures 1 <= Reach(s, d) && Step(s, d, 1) == t
  {
    if t.row == s.row + 1 { d := 0; }
    else if t.col == s.col + 1 { d := 1; }
    else if t.row + 1 == s.row { d := 2; }
    else { d := 3; }
  }
}
