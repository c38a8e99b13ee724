# Tablut board engine and search, in Dafny

A model of the rules engine and the automated player of a Tablut game (the
9×9 asymmetric capture game: sixteen BLACK attackers try to capture a KING
that, with eight WHITE defenders, tries to reach the edge of the board).

* `Squares.dfy`, `Pieces.dfy`, `Moves.dfy`, `Wrappers.dfy` — the collaborators
  the engine uses: squares `Sq(col, row)` with the dense index `9*row + col`,
  rook geometry (`RookMove`, `RookLine` as the `ROOK_MOVES` lists, `Between`,
  `IsEdge`), the pieces `- K W B` with `side()` and `opponent()`, and `mv`.
* `BoardModel.dfy` — the board as a value: 81 cells, the `State` of a board
  object, and one function per state change (`InitSpec`, `CopySpec`,
  `MakeMoveSpec` built from `MovePiece`, `CaptureAll` and `Decide`,
  `RecordPosition`, `UndoSpec`, `ClearUndoSpec`), with the queries
  `PieceLocationsOf`, `KingOf`, `LegalMovesOf`, `ThroneHostile` and the
  82-letter position encoding.
* `TablutBoard.dfy` — the class `Board`: a `Piece` 2-D array and the fields
  turn, winner, move count, repetition flag, move limit and history. Every
  method is proved to change the abstract state `Abs()` exactly as the
  matching `BoardModel` function says.
* `BoardProperties.dfy` — the rules proved of the model: the capture rules
  read off the position, the cells a move may touch, the winner precedence,
  repetition, the encode/decode round trip, undo after a move, legality
  against move enumeration, and the initial layout.
* `SearchModel.dfy` — the search as functions: `Score` (staticScore), the
  in-place one-ply scans `SimpleMax`/`SimpleMin`, and the alpha-beta
  `Search` with its loops `MaxLoop`/`MinLoop`, each recording the child
  responses it examined; lemmas on sentinels, bounds, tie-breaking and
  cut-offs.
* `TablutAI.dfy` — the class `AI`, whose methods run on real `Board`
  objects and are proved to compute what `SearchModel` specifies.

Where the design description of the game and the code disagree, the model
follows the code:

* `throneWhiteHostile` holds when exactly three defender squares are BLACK,
  not "at least three".
* The king-surround rule applies when the KING stands on the throne or on
  any of the eight `INITIAL_DEFENDERS` squares, not only the four
  throne-adjacent ones.
* `legalMoves` does not apply the throne ban, and `makeMove` does not check
  legality; only `isLegal` has the throne ban.
* `undo` resets neither the winner nor the repetition flag.

## Model

| member | source | states |
|---|---|---|
| `Pieces.Opponent` | Board.java:227-235 | the opponent of a side is the other side |
| `Moves.Mv` | Board.java:370-371 | `mv(from, to)` gives a move exactly for a rook move, with those ends |
| `Squares.Square.Index` | Board.java:437-446 | the dense index is a bijection onto 0..80 with row `i / 9` and column `i % 9` |
| `Squares.SquareAt` | Board.java:327-329 | `SQUARE_LIST.get(i)` is the square of index i |
| `Squares.SquareList` | Board.java:440-444 | `SQUARE_LIST` lists the 81 squares in index order, each once |
| `Squares.AllSquaresListed` | Board.java:442-444 | every square appears in `SQUARE_LIST` |
| `Squares.SquareListAt` | Board.java:368-370 | entry `9i + j` of the list is `sq(j, i)`, so the nested loops walk the list in order |
| `Squares.RookMove` | Board.java:186 | `rookMove(dir, steps)` is on the board exactly within the reach of that direction |
| `Squares.RookLine` | Board.java:245-246 | `ROOK_MOVES[s][d]` lists the squares 1, 2, … steps away, each once and nearest first, and holds exactly the squares other than s on the half-line from s in direction d |
| `Squares.StepOnPath` | Board.java:182-190 | each step 1..distance of the loop lies on the move's path |
| `Squares.PathIsSteps` | Board.java:182-190 | each square of the path is one of the loop's steps |
| `Squares.StepOfDistance` | Board.java:183-186 | the last step of the loop is `to` |
| `Squares.BetweenOfLine` | Board.java:246-248 | `between` of `to` and its second step is the first step, the captured square |
| `Squares.FirstStepsDistinct` | Board.java:244-248 | the four first steps are distinct neighbours of `to` |
| `Squares.SecondStepNotAdjacent` | Board.java:246-249 | the flanking square is never a neighbour of `to` |
| `Squares.AdjacentStep` | Board.java:244-248 | every neighbour of `to` is the first step in some direction |
| `BoardModel.Placed` | Board.java:165-168 | `put` changes square s to p and no other square |
| `BoardModel.Layer` | Board.java:85-90 | a for-each loop of `init` puts p on exactly the listed squares |
| `BoardModel.InitialLayers` | Board.java:79-90 | the starting layout is the throne KING, then the defenders, then the attackers written over EMPTY |
| `BoardModel.ThroneAreaInterior` | Board.java:26-45 | the throne and the defender squares lie at least two squares from every edge |
| `BoardModel.LocationsFrom` | Board.java:420-435 | the scan from index k finds exactly the side's squares at k or above |
| `BoardModel.PieceLocationsOf` | Board.java:420-435 | `pieceLocations(side)` holds exactly the squares of side's pieces, the KING counting for WHITE |
| `BoardModel.FirstKing` | Board.java:135-145 | the scan returns the first KING in row-major order, or nothing when there is none |
| `BoardModel.TargetsAmong` | Board.java:368-376 | the inner loops keep exactly the unblocked rook moves from one square |
| `BoardModel.MovesAmong` | Board.java:365-379 | the outer loop keeps exactly the unblocked moves of side's pieces on the scanned squares |
| `BoardModel.LegalMovesMembership` | Board.java:363-379 | a move is in `legalMoves(side)` iff it starts on a piece of side and is an unblocked rook move |
| `BoardModel.BlackCount` | Board.java:291-297 | the count of BLACK pieces on a list of squares is at most its length, is 0 iff none of them holds BLACK, and equals the length iff all do |
| `BoardModel.Encode` | Board.java:437-446 | `encodedBoard()` is 82 letters starting with the turn letter W or B |
| `BoardProperties.KingAt` | Board.java:135-145 | with a single KING, `kingPosition()` is its square |
| `BoardProperties.KingOfCases` | Board.java:135-145 | with at most one KING, `kingPosition()` finds it, and finds nothing exactly when there is none |
| `BoardProperties.CaptureDirRule` | Board.java:244-285 | one pass of `ifCapture` empties the neighbour exactly when capture rule 1 or 2 holds, else changes nothing |
| `BoardProperties.SameBlackCount` | Board.java:291-297 | boards with the same BLACK squares have the same BLACK counts |
| `BoardProperties.SameBlackHostile` | Board.java:291-302 | boards with the same BLACK squares agree on throne hostility |
| `BoardProperties.CapturedFacts` | Board.java:241-287 | captures only empty neighbours of `to`, keep at most one KING and, for BLACK, the BLACK pieces |
| `BoardProperties.CapturesStable` | Board.java:244-286 | an earlier capture does not change a later direction's rule test |
| `BoardProperties.CaptureUpToRule` | Board.java:244-286 | after n passes, each of the first n neighbours is empty exactly when its rule held on the starting cells |
| `BoardProperties.CaptureAllRule` | Board.java:239-287 | `ifCapture(to)` empties exactly the neighbours the capture rules name, judged before any capture, and nothing else |
| `BoardProperties.MakeMoveFrame` | Board.java:217-220 | after a move, `to` holds the moved piece, `from` is EMPTY, and any other change is a neighbour of `to` becoming EMPTY |
| `BoardProperties.NoLegalMoves` | Board.java:381-387 | `legalMoves(side)` is empty iff side has no unblocked rook move |
| `BoardProperties.WinnerPrecedence` | Board.java:223-234 | the winner is KING on edge → WHITE, no KING → BLACK, opponent stuck → mover; only otherwise does the count rise, the opponent winning at the limit |
| `BoardProperties.MakeMoveRecord` | Board.java:223-237 | the turn flips, the position is appended to the history, and a repeated position sets the flag and gives the win to the side now to move |
| `BoardProperties.CharToPieceInverts` | Board.java:335-346 | `charToPiece` inverts the piece letters |
| `BoardProperties.DecodeEncode` | Board.java:318-346 | decoding an encoded position gives back its turn and its 81 cells |
| `BoardProperties.EncodeInjective` | Board.java:119-127 | two encodings are equal iff turn and cells are, so `checkRepeated` detects exactly a repeated position |
| `BoardProperties.UndoRestores` | Board.java:317-354 | undoing a record that extended the history by one position restores the earlier state except the winner |
| `BoardProperties.UndoAfterMove` | Board.java:317-333 | `undo` after a counted, non-repeating move restores cells, turn, move count and history |
| `BoardProperties.MovePieceOneKing` | Board.java:218-219 | sliding a piece never adds a KING |
| `BoardProperties.InitialOneKing` | Board.java:73-91 | the starting layout holds exactly one KING, on the throne, and a new board keeps the one-KING invariant |
| `BoardProperties.MakeMoveKeepsOneKing` | Board.java:217-237 | `makeMove` keeps at most one KING on the board and on every recorded position |
| `BoardProperties.UndoKeepsOneKing` | Board.java:318-333 | `undo` restores a recorded position, so it keeps the one-KING invariant |
| `BoardProperties.ResetsKeepOneKing` | Board.java:59-91 | `init` and `clearUndo` keep the one-KING invariant, and so does `copy` from a board with at most one KING |
| `BoardProperties.UnblockedSteps` | Board.java:178-192 | the path is clear iff every step from 1 to the distance is EMPTY |
| `BoardProperties.LegalIffListed` | Board.java:199-208 | `isLegal(from, to)` iff the move is in `legalMoves(turn)` and obeys the throne ban |
| `BoardProperties.InitialLayout` | Board.java:72-91 | `init` puts the KING on the throne, WHITE on the defender squares, BLACK on the attacker squares, EMPTY elsewhere |
| `BoardProperties.Wrap32` | Board.java:95-96 | a Java `int` result lies in the 32-bit range and is congruent to the exact one |
| `BoardProperties.LimitTestAgreesInRange` | Board.java:95-101 | the 32-bit test agrees with `2n <= moveCount` while `2n` fits in an `int` |
| `BoardProperties.LimitOverflow` | Board.java:96 | a limit of 2^30 is refused on a fresh board although twice it exceeds 0 |
| `TablutBoard.Board.constructor` | Board.java:47-51 | a new board is in the initial state: starting layout, BLACK to move, no winner, no history |
| `TablutBoard.Board.Of` | Board.java:53-56 | `Board(model)` is a fresh board with the model's cells and turn |
| `TablutBoard.Board.Copy` | Board.java:58-70 | copying re-initialises and takes only the model's cells and turn; copying onto itself changes nothing |
| `TablutBoard.Board.Init` | Board.java:72-91 | `init` sets the starting layout, BLACK to move, no winner, the maximal limit, and keeps count and history |
| `TablutBoard.Board.Layout` | Board.java:79-90 | the loops of `init` leave exactly the starting layout |
| `TablutBoard.Board.PutAll` | Board.java:85-90 | a for-each loop of `init` puts p on the listed squares |
| `TablutBoard.Board.SetMoveLimit` | Board.java:93-101 | refused exactly when `2n <= moveCount`, changing nothing; else only the limit becomes n |
| `TablutBoard.Board.Get` | Board.java:146-149 | `get(s)` is the piece on s |
| `TablutBoard.Board.GetAt` | Board.java:151-158 | `get(col, row)` is the piece on `sq(col, row)` |
| `TablutBoard.Board.Put` | Board.java:165-168 | `put(p, s)` sets s to p and no other cell |
| `TablutBoard.Board.KingPosition` | Board.java:135-145 | the first KING in row-major order, and nothing exactly when no square holds a KING |
| `TablutBoard.Board.IsUnblockedMove` | Board.java:175-192 | true iff a rook move whose path, `to` included, is all EMPTY |
| `TablutBoard.Board.IsLegalFrom` | Board.java:194-197 | true iff the piece on `from` belongs to the side to move |
| `TablutBoard.Board.IsLegal` | Board.java:199-208 | true iff side to move, unblocked rook move, and no non-KING piece landing on the throne |
| `TablutBoard.Board.IsLegalMove` | Board.java:210-214 | `isLegal(move)` is `isLegal(from, to)` |
| `TablutBoard.Board.MakeMove` | Board.java:216-237 | the new state is `MakeMoveSpec`: slide, capture, decide the winner, flip the turn, record the position |
| `TablutBoard.Board.DecideWinner` | Board.java:223-234 | sets the winner and count as the precedence decides, nothing else |
| `TablutBoard.Board.TestWinner` | Board.java:223-234 | computes the winner and count of the precedence on the present cells |
| `TablutBoard.Board.MakeMoveOf` | Board.java:305-308 | `makeMove(move)` is `makeMove(from, to)` |
| `TablutBoard.Board.IfCapture` | Board.java:239-287 | the cells become `CaptureAll` of the old cells |
| `TablutBoard.Board.CaptureTowards` | Board.java:245-285 | one direction's capture tests, as `CaptureDir` |
| `TablutBoard.Board.KingHemmed` | Board.java:262-277 | true iff every neighbour of the KING other than the throne is BLACK |
| `TablutBoard.Board.ThroneWhiteHostile` | Board.java:289-302 | true iff exactly three defender squares hold BLACK |
| `TablutBoard.Board.Capture` | Board.java:310-315 | empties the square between the two squares, nothing else |
| `TablutBoard.Board.CheckRepeated` | Board.java:119-127 | a position already in the history sets the flag and the winner to the side to move; the position is always appended |
| `TablutBoard.Board.Undo` | Board.java:317-333 | nothing at move count 0; else drops the top entry unless repeated, decodes turn and cells from the new top, counts down |
| `TablutBoard.Board.UndoPosition` | Board.java:348-354 | drops the top history entry unless the position repeated |
| `TablutBoard.Board.ClearUndo` | Board.java:356-361 | empties the history and zeroes the count, keeping position and winner |
| `TablutBoard.Board.LegalMoves` | Board.java:363-379 | returns `LegalMovesOf` the cells for side |
| `TablutBoard.Board.TargetMoves` | Board.java:368-376 | the unblocked rook moves from one square, by target square |
| `TablutBoard.Board.HasMove` | Board.java:381-387 | true iff `legalMoves(side)` is not empty |
| `TablutBoard.Board.PieceLocations` | Board.java:420-435 | exactly the squares of side's pieces, the KING counting for WHITE |
| `TablutBoard.Board.EncodedBoard` | Board.java:437-446 | the turn letter followed by the 81 cell letters in square order |
| `SearchModel.SentinelsOrdered` | AI.java:10-17 | INFTY > WINNING_VALUE > WILL_WIN_VALUE, all above every material score |
| `SearchModel.Score` | AI.java:188-203 | the static score lies within ±WILL_WIN_VALUE |
| `SearchModel.ScoreCases` | AI.java:188-203 | no KING → −WILL_WIN_VALUE; KING on edge → WILL_WIN_VALUE; else WHITE+KING count + 7 − BLACK count, strictly inside the sentinels |
| `SearchModel.MaxDepth` | AI.java:182-186 | the search depth is always 2 |
| `SearchModel.RunMaxIsMax` | AI.java:92-97 | the running maximum is the largest of its start and the values |
| `SearchModel.RunMinIsMin` | AI.java:118-123 | the running minimum is the smallest of its start and the values |
| `SearchModel.Scores` | AI.java:141-143 | one score per move, each within ±WILL_WIN_VALUE |
| `SearchModel.SimpleMax` | AI.java:133-153 | the value of `simpleFindMax` is a sentinel, −INFTY, or a static score |
| `SearchModel.SimpleMin` | AI.java:155-177 | the value of `simpleFindMin` is a sentinel, INFTY, or a static score |
| `SearchModel.AppliedTail` | AI.java:141-142 | making k + 1 moves in place is making the first and then k more |
| `SearchModel.AppliedConcat` | AI.java:141-142 | making a + b in place is making a, then b |
| `SearchModel.AppliedSnoc` | AI.java:141-142 | making i + 1 moves is making i and then the next |
| `SearchModel.Trail` | AI.java:141-142 | the boards passed through start with the given board, one per move after it |
| `SearchModel.TrailIsApplied` | AI.java:141-142 | the k-th board passed through is the board after the first k moves |
| `SearchModel.ScoresAlongTrail` | AI.java:141-143 | the i-th score is that of the board after move i |
| `SearchModel.ScoresAreAfterMoves` | AI.java:141-143 | each score is taken after the cumulative moves up to and including its own |
| `SearchModel.TrailSteps` | AI.java:141-143 | the boards and scores follow each other move by move |
| `SearchModel.MaxTally` | AI.java:140-152 | the max scan makes at least one move iff there is one, and its value is −INFTY or a score |
| `SearchModel.MinTally` | AI.java:162-176 | the min scan makes at least one move iff there is one, and its value is INFTY or a score |
| `SearchModel.MaxTallyFacts` | AI.java:140-152 | the max scan's value is the running maximum of the scores it saw; it stops early only once alpha reaches beta |
| `SearchModel.MinTallyFacts` | AI.java:162-176 | the min scan's value is the running minimum; it stops early only once beta falls to alpha |
| `SearchModel.MaxOfRuns` | AI.java:146 | a running maximum from alpha is alpha maxed with the running maximum from −INFTY |
| `SearchModel.MaxOfRunsFrom` | AI.java:146 | running maxima whose starts differ by a max with a differ by it throughout |
| `SearchModel.MinOfRuns` | AI.java:170 | a running minimum from beta is beta min the running minimum from INFTY |
| `SearchModel.MinOfRunsFrom` | AI.java:170 | running minima whose starts differ by a min with b differ by it throughout |
| `SearchModel.MaxTallyResult` | AI.java:140-152 | from −INFTY: value is the largest score seen or −INFTY with none; stop before the end only at a cut-off |
| `SearchModel.MinTallyResult` | AI.java:162-176 | from INFTY: value is the smallest score seen or INFTY with none; stop before the end only at a cut-off |
| `SearchModel.SimpleMaxResult` | AI.java:134-153 | `simpleFindMax` makes a prefix of `legalMoves(me)` in place, returns the largest score seen after them or −INFTY with no move, and stops early only when alpha reaches beta |
| `SearchModel.SimpleMinResult` | AI.java:156-177 | the dual for `simpleFindMin`, with INFTY |
| `SearchModel.Search` | AI.java:72-132 | the value of `findMove` lies within ±INFTY |
| `SearchModel.MaxLoop` | AI.java:86-99 | the loop value is its starting best or lies within ±INFTY |
| `SearchModel.MinLoop` | AI.java:112-125 | the loop value is its starting best or lies within ±INFTY |
| `SearchModel.Response` | AI.java:88-91 | a child response lies within ±INFTY |
| `SearchModel.ChildSearch` | AI.java:88-91 | a child search's value lies within ±INFTY |
| `SearchModel.SearchDecided` | AI.java:77-83 | a board with a winner is valued WINNING_VALUE (WHITE) or −WINNING_VALUE (BLACK) at any depth and sense, without expanding or saving a move |
| `SearchModel.MaxLoopPicks` | AI.java:87-99 | the max loop examines one to all of its moves, leaves the board, and holds the best of what it examined |
| `SearchModel.MinLoopPicks` | AI.java:113-125 | the dual for the min loop |
| `SearchModel.PickMaxFacts` | AI.java:92-93 | the held value is the running maximum and the held move is that of the last response equal to it |
| `SearchModel.PickMinFacts` | AI.java:118-119 | the held value is the running minimum and the held move is that of the last response equal to it |
| `SearchModel.RunCons` | AI.java:94 | folding over a longer prefix is folding from the next start |
| `SearchModel.MaxLoopAlpha` | AI.java:94 | each child is searched with alpha raised to the largest response before it |
| `SearchModel.MinLoopBeta` | AI.java:120 | each child is searched with beta lowered to the smallest response before it |
| `SearchModel.MaxLoopStops` | AI.java:92-97 | the max loop's control flow follows `MaxStops` on what it examined |
| `SearchModel.MinLoopStops` | AI.java:118-123 | the min loop's control flow follows `MinStops` |
| `SearchModel.MaxStopsCutoff` | AI.java:94-97 | the max loop goes on while alpha stays below beta and stops early only once beta <= alpha |
| `SearchModel.MinStopsCutoff` | AI.java:120-123 | the min loop goes on while beta stays above alpha and stops early only once beta <= alpha |
| `SearchModel.MaxLoopChoice` | AI.java:86-99 | the max node's value bounds every examined response, is one of them with the last equal move, or −INFTY with no move |
| `SearchModel.MinLoopChoice` | AI.java:112-125 | the dual for the min node, with INFTY |
| `SearchModel.MaxLoopWindow` | AI.java:87-99 | at a max node alpha only grows with the responses and the loop stops exactly once it reaches beta |
| `SearchModel.MinLoopWindow` | AI.java:113-125 | at a min node beta only shrinks with the responses and the loop stops exactly once it falls to alpha |
| `SearchModel.NodeLoops` | AI.java:84-126 | an undecided node at depth > 0 runs its loop over `legalMoves(me)` with the given window |
| `SearchModel.SearchNode` | AI.java:74-126 | at depth > 0 the value bounds every examined response and is one of them with the last equal move, or ∓INFTY when `me` has no move |
| `SearchModel.SenseOf` | AI.java:52-57 | the root sense is 1 exactly for WHITE and −1 exactly for BLACK |
| `SearchModel.RootMoveLegal` | AI.java:49-60 | `findMove()` returns a move iff `me` has one, and then one of `legalMoves(me)` |
| `TablutAI.AI.constructor` | AI.java:25-28 | a player for a side, with no move found yet |
| `TablutAI.AI.FindMoveRoot` | AI.java:47-60 | searches a fresh copy of the game board and returns the move it saved, as `RootMove` |
| `TablutAI.AI.FindMove` | AI.java:72-132 | returns `Search`'s value, leaves the board as `Search` says, and writes the saved move only when `saveMove` is set |
| `TablutAI.AI.MaximizeOver` | AI.java:87-99 | the max loop over fresh child copies computes `MaxLoop`'s value and move and saves nothing |
| `TablutAI.AI.MinimizeOver` | AI.java:113-125 | the min loop computes `MinLoop`'s value and move and saves nothing |
| `TablutAI.AI.Respond` | AI.java:88-91 | a child response: copy, make the move, search one ply down without saving |
| `TablutAI.AI.SimpleFindMax` | AI.java:134-153 | returns `SimpleMax`'s value and leaves the board after its in-place moves |
| `TablutAI.AI.ScanForMax` | AI.java:140-152 | the max scan loop returns `MaxTally`'s value and leaves the board after its count of moves |
| `TablutAI.AI.SimpleFindMin` | AI.java:156-177 | returns `SimpleMin`'s value and leaves the board after its in-place moves |
| `TablutAI.AI.ScanForMin` | AI.java:162-176 | the min scan loop returns `MinTally`'s value and leaves the board after its count of moves |
| `TablutAI.AI.MoveAndScore` | AI.java:142-143 | makes the next move in place and returns its static score |
| `TablutAI.AI.StaticScore` | AI.java:189-203 | returns `Score` of the board's cells |

## Left out

- Text rendering (`toString`, Board.java:389-418): display only.
- The player and controller plumbing (`create`, `myMove`, `isManual`, the
  template constructor, AI.java:19-45): orchestration through classes that
  are not part of this model; `Player`, `Controller`, `Square`, `Move`,
  `Piece` and `Utils` are not part of this model beyond the operations used.
- The character accessors `get(char, char)` and `put(char, char)`
  (Board.java:160-173): not used by the engine.
- TablutBoard.Board.GetAt: requires coordinates 0..8; the source's bounds
  test admits 9, which then fails on the array access.
- Direction numbering is assumed to be 0 north (row up), 1 east, 2 south,
  3 west, and `Square.index()` to be `9*row + col`.
- The iteration order of `pieceLocations`' hash set: `legalMoves` takes the
  pieces in square-index order. The search lemmas (`SearchNode`,
  `MaxLoopChoice`, `MaxLoopWindow`, `SimpleMaxResult`, `RootMoveLegal` and
  their duals) hold for whatever list `legalMoves` gives. The move chosen
  does depend on the order, and so do the values: `simpleFindMax` and
  `simpleFindMin` make their moves one after another on the same board.
- `board().winner()` in `simpleFindMax`/`simpleFindMin` (AI.java:137,
  AI.java:159) reads the game board the player holds: it is the parameter
  `live`, and the root search passes the game board's winner.
- Java exceptions become requirements or results: `setMoveLimit`'s refusal
  is the result `ok == false`.
- TablutBoard.Board.Undo: requires the history entries `undo` reads
  (`CanUndo`); the source fails with an index error without them. The
  initial position is never recorded.
- TablutBoard.Board.SetMoveLimit: computes `2 * n` exactly, not in 32-bit
  arithmetic (see Findings).
- The move counter is an unbounded integer; its 32-bit overflow after 2^31
  moves is not modelled.
- TablutAI.AI.FindMove: the depth is a natural number; a negative depth,
  which the source never passes, is not modelled.
- BoardProperties.MakeMoveFrame: stated for boards with at most one KING.
  `InitialOneKing`, `MakeMoveKeepsOneKing`, `UndoKeepsOneKing` and
  `ResetsKeepOneKing` prove that every board reached by the board's
  operations is such a board. With two kings the source's surround test
  looks at the first one.
- BoardProperties.CaptureAllRule: stated for boards with at most one KING,
  as for MakeMoveFrame.
- BoardProperties.CaptureDirRule: stated for boards with at most one KING,
  as for MakeMoveFrame.
- BoardProperties.WinnerPrecedence: stated for boards with at most one KING,
  as for MakeMoveFrame.
- SearchModel.ScoreCases: stated for boards with at most one KING, as for
  MakeMoveFrame.
- BoardProperties.KingAt, BoardProperties.KingOfCases,
  BoardProperties.CapturedFacts, BoardProperties.CapturesStable and
  BoardProperties.CaptureUpToRule: these steps of the proofs above are
  stated for boards with at most one KING too.
- BoardProperties.UndoAfterMove: stated for a move that neither repeated a
  position nor ended the game before the count rose, and for a history whose
  top is the current position; the winner is not restored.

## Findings

| source | as written | input that shows it | evidently intended | confidence | as-written member | corrected member |
|---|---|---|---|---|---|---|
| Board.java:96 | `2 * n <= moveCount()` in 32-bit `int` arithmetic | `setMoveLimit(1073741824)` on a fresh board: `2 * n` wraps to −2147483648, so the limit is refused | refuse exactly when twice the limit does not exceed the move count | not executed; medium | `BoardProperties.LimitOverflow` | `TablutBoard.Board.SetMoveLimit` |
