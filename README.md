# Checkers rules engine

A Dafny model of the rules engine of a browser checkers (draughts) game, `src/script.js`.
Two players, white and black, move men diagonally forward on the dark squares of an 8x8
board. Each move is one step, or a two-step jump over an enemy piece, which removes it.
Captures are mandatory for the whole side. A capture continues while the moved piece can
capture again. A man that reaches the far row becomes a king and may move in all four
diagonal directions. The side left without pieces loses.

The page keeps the board in the DOM and the game state in three globals: the colour to move,
the selected piece and the highlighted cells. The model replaces the DOM cell lookups with
a 64-cell array indexed `8 * row + col`. Each cell is empty or holds a `Piece(colour, king)`.

Modules:

- `BoardModel` (`board.dfy`): cells, positions, the board, the opening layout and piece
  counting.
- `MoveGenerator` (`moves.dfy`): `getAvailableMoves` as a pure function. It is proved equal to
  reference definitions of a simple move (`IsStep`) and a capture (`IsJump`) stated by geometry.
- `TurnArbiter` (`arbiter.dfy`): the board-wide mandatory-capture filter (`playerHasCaptures`
  with `showMoves`), promotion (`checkKing`), the board update of `movePiece`, and the
  win decision of `checkWin`.
- `GameMachine` (`machine.dfy`): the game as values. It has a `State`, the click transition,
  and an invariant `Consistent` that every click preserves.
- `Checkers` (`game.dfy`): the engine as the page runs it, imperatively.
  - The read-only routines are methods over the cell array. `getAvailableMoves` is a
    direction loop, `playerHasCaptures` an early-return loop, and the piece count of
    `checkWin` a counting loop.
  - A class `Game` holds the array and the fields the click handler changes.
  - Each method is proved to produce exactly the state the value model prescribes.
- `Scenarios` (`scenarios.dfy`): concrete positions worked through the rules. They cover a
  forced capture and the lockout it causes, a capture chain that keeps the turn, and a last
  capture that crowns the man and wins.

The model's `targets` field holds the highlighted cells with the capture cell stored on each
(`dataset.captureRow/captureCol`). The model's `winner` field means the victory message is shown.

The code has no forced piece during a capture chain. Its click handler
(`src/script.js:218-222`) lets any piece of the colour to move be selected mid-chain, and only
the mandatory-capture filter restricts it; `GameMachine.ClickOwnPiece` states exactly that. Any
other click, one that hits neither a piece of the colour to move nor a highlighted cell while a
piece is selected, clears the selection (`src/script.js:231`), and
`GameMachine.ClickElsewhere` states that; `GameMachine.ClickMoves` states that a click on a
highlighted cell plays the move landing there. Clicks are not guarded after a win, and
`GameMachine.GameOverAbsorbing` shows they change nothing: the loser is to move and has no
piece to select.

## Model

| member | source | states |
|---|---|---|
| BoardModel.OpeningCell | src/script.js:18-22 | The piece createBoard puts on a cell; its properties are stated by OpeningLayout |
| BoardModel.Opening | src/script.js:8-22 | The opening layout, cell by cell from OpeningCell; stated by OpeningLayout and OpeningCount |
| BoardModel.Count | src/script.js:187-188 | The number of pieces of a colour (the length of `querySelectorAll(".piece.c")`); stated by CountUpdate, CountZero, CountPositive and CountAppend |
| MoveGenerator.StepAlong | src/script.js:76-81 | The simple move one step along a direction, if on the board and empty; stated by SimpleSound, SimpleComplete and SimpleExactly |
| MoveGenerator.JumpAlong | src/script.js:82-87 | The capture along a direction; stated by JumpAlongIsJump, IsJumpAlong and JumpsExactly |
| MoveGenerator.Simple | src/script.js:75-81 | The `moves` array after scanning some directions in order; stated by SimpleSound, SimpleComplete, SimpleExactly and SimpleDistinct |
| MoveGenerator.Jumps | src/script.js:75-89 | The `captures` array after scanning some directions in order; stated by JumpsSound, JumpsComplete, JumpsExactly and JumpsDistinct |
| MoveGenerator.AvailableMoves | src/script.js:64-92 | getAvailableMoves; stated by AvailableMovesExactly, AvailableMoveGeometry and AvailableDestinationsDistinct, and implemented by Checkers.GetAvailableMoves |
| TurnArbiter.PlayerCanCapture | src/script.js:94-100 | playerHasCaptures; implemented by Checkers.PlayerHasCaptures and used by LegalMovesExactly and MandatoryCaptureLockout |
| TurnArbiter.LegalMoves | src/script.js:102-105 | The moves showMoves highlights; stated by LegalMovesExactly, MandatoryCaptureLockout, LegalMoveShape and LegalDestinationsDistinct, and implemented by Checkers.ShowMoves |
| GameMachine.Deselect | src/script.js:56-62 | deselectPiece: the selection and the highlights are cleared and nothing else changes; the result of ClickOpponentPiece, ClickElsewhere and GameOverAbsorbing |
| GameMachine.Select | src/script.js:219-222 | The selection branch of the click handler: the piece is selected with the moves showMoves computes; stated by ClickOwnPiece |
| GameMachine.Initial | src/script.js:2-4 | The page-load state; stated by InitialConsistent, implemented by Checkers.Game.constructor and Checkers.Game.Restart |
| GameMachine.Play | src/script.js:163-183 | The callback of movePiece; stated by PlayBoard, PlayTurnRule, PlayWinRule, MoverSurvives and PlayConsistent, and implemented by Checkers.Game.MovePiece |
| GameMachine.Click | src/script.js:215-232 | The click handler; stated by ClickConsistent, ClickOwnPiece, ClickMoves, ClickOpponentPiece, ClickElsewhere and GameOverAbsorbing, and implemented by Checkers.Game.HandleClick |
| GameMachine.Handle | src/script.js:206-232 | One input, a click or the restart button; stated by HandleConsistent, Run and Replay |
| BoardModel.OpeningLayout | src/script.js:8-22 | In the opening layout every piece stands on a dark square; rows 3 and 4 are empty; the dark squares of rows 0-2 hold black men and those of rows 5-7 white men; light squares are empty |
| BoardModel.OpeningCount | src/script.js:8-22 | Each side starts with exactly twelve men |
| BoardModel.CountUpdate | src/script.js:187-188 | Overwriting one cell changes a colour's piece count only by the piece that left and the piece that arrived |
| BoardModel.CountPositive | src/script.js:187-188 | A colour with a piece on some cell has a positive count |
| BoardModel.CountZero | src/script.js:187-188 | A colour with no piece on any cell has a zero count |
| BoardModel.CountAppend | src/script.js:187-188 | The count over two runs of cells is the sum of their counts |
| MoveGenerator.Directions | src/script.js:69-71 | A direction is in the set exactly when it is diagonal and, for a man, goes towards the opponent (row-1 for white, row+1 for black); a king has all four diagonals, a man two |
| MoveGenerator.SimpleExactly | src/script.js:75-81 | The scan over the direction set finds exactly the one-step moves to an empty in-bounds cell along an allowed diagonal |
| MoveGenerator.JumpsExactly | src/script.js:75-88 | The scan finds exactly the jumps over an adjacent opponent's piece along an allowed diagonal onto the empty in-bounds cell beyond it |
| MoveGenerator.SimpleSound | src/script.js:75-81 | Every simple move found comes from one of the scanned directions |
| MoveGenerator.SimpleComplete | src/script.js:75-81 | Every scanned direction with an empty in-bounds next cell yields its simple move |
| MoveGenerator.JumpsSound | src/script.js:82-87 | Every capture found comes from one of the scanned directions |
| MoveGenerator.JumpsComplete | src/script.js:82-87 | Every scanned direction with a capture available yields that capture |
| MoveGenerator.AvailableMovesExactly | src/script.js:64-92 | hasCapture holds exactly when the piece has some capture; its moves are then exactly its captures, otherwise exactly its simple moves |
| MoveGenerator.AvailableMoveGeometry | src/script.js:75-91 | Every move offered lands in bounds on an empty cell of the same square colour; a simple move is one allowed diagonal step; a capture is two steps along an allowed diagonal over an opponent's piece in the intermediate cell; the move is a capture exactly when hasCapture is set |
| MoveGenerator.AvailableDestinationsDistinct | src/script.js:75-89 | No two moves offered to a piece share a destination |
| Checkers.GetAvailableMoves | src/script.js:64-92 | The direction loop over the cell array returns exactly the moves and the hasCapture flag of the pure definition |
| TurnArbiter.LegalMovesExactly | src/script.js:94-105 | When some piece of the mover's colour can capture, a piece's highlighted moves are exactly its captures; otherwise they are exactly its simple moves |
| TurnArbiter.MandatoryCaptureLockout | src/script.js:94-105 | A piece without a capture gets no move at all when another piece of its colour has one |
| TurnArbiter.LegalMoveShape | src/script.js:102-105 | Every highlighted move is offered by getAvailableMoves, lands on an empty in-bounds cell of the same square colour, and a capture's jumped cell holds an opponent's piece |
| TurnArbiter.LegalDestinationsDistinct | src/script.js:106-113 | A highlighted cell stands for exactly one move of the selected piece |
| Checkers.PlayerHasCaptures | src/script.js:94-100 | The early-return loop answers true exactly when some piece of the colour has a capture |
| Checkers.ShowMoves | src/script.js:102-115 | The moves highlighted for a piece are exactly the legal moves of the filter |
| TurnArbiter.Promote | src/script.js:130-134 | A piece keeps its colour and is a king afterwards exactly when it was one or it is white on row 0 or black on row 7 |
| TurnArbiter.PromoteMonotoneIdempotent | src/script.js:130-134 | A king stays a king, and crowning twice is crowning once |
| TurnArbiter.Execute | src/script.js:160-173 | After a move the destination holds the mover, crowned on its new row; the origin and the jumped cell are empty; a capture is recorded exactly when the jumped cell held a piece; no other cell changes |
| TurnArbiter.ExecuteCounts | src/script.js:160-173 | A move onto an empty cell takes exactly one piece from the colour of a removed piece and keeps every other count, so no count grows |
| TurnArbiter.Decide | src/script.js:186-191 | Black wins exactly when white has no piece; white wins exactly when white has pieces and black has none; otherwise play goes on |
| Checkers.CountPieces | src/script.js:187-188 | The loop counts exactly the pieces of the colour on the board |
| GameMachine.TargetAt | src/script.js:226-227 | The move found for a clicked cell is highlighted and lands on that cell; none is found only when no highlighted move lands there |
| GameMachine.TargetAtUnique | src/script.js:106-113 | In a reachable state the clicked cell names at most one highlighted move |
| GameMachine.InitialConsistent | src/script.js:2-4 | The new game, white to move with the opening layout and nothing selected, satisfies the invariant |
| GameMachine.PlayBoard | src/script.js:155-173 | A move puts the crowned mover on the destination (a king stays a king), empties the origin and the jumped cell, and changes no other cell; the mover's side keeps all its pieces, and the other side loses one piece on a capture and none otherwise |
| GameMachine.PlayTurnRule | src/script.js:173-182 | The same colour stays to move, with the moved piece selected and its legal moves highlighted, exactly when the move captured and the moved piece, crowned first, has another capture; otherwise the turn passes and nothing is selected |
| GameMachine.MoverSurvives | src/script.js:160-173 | After its move the mover's side still has a piece |
| GameMachine.CaptureNeedsVictim | src/script.js:82-87 | A piece with a capture faces an opponent that still has a piece |
| GameMachine.PlayWinRule | src/script.js:124-127 | The side that moved is declared the winner exactly when its move captured and left the other side without pieces; the side that did not move is never declared the winner by that move |
| GameMachine.PlayConsistent | src/script.js:155-191 | A move from a reachable state leads to a state satisfying the invariant (pieces on dark squares, at most twelve per side, the selection a piece of the colour to move with its legal moves highlighted, a winner only against a side to move without pieces) |
| GameMachine.ClickConsistent | src/script.js:215-232 | Every click keeps the invariant |
| GameMachine.HandleConsistent | src/script.js:206-232 | Every click and every use of the restart button keeps the invariant |
| GameMachine.Run | src/script.js:215-232 | Any sequence of inputs from a reachable state ends in a state satisfying the invariant |
| GameMachine.Replay | src/script.js:206-234 | Every state reached from the new game keeps its pieces on dark squares and satisfies the invariant |
| GameMachine.GameOverAbsorbing | src/script.js:189-190 | Once a winner is declared, every click leaves the state exactly as it was: the loser is to move with no piece, so nothing is selected or highlighted and nothing can be selected |
| GameMachine.ClickOpponentPiece | src/script.js:218 | A click on a piece of the colour not to move selects nothing and moves nothing |
| GameMachine.ClickElsewhere | src/script.js:226-231 | A click that is not on a piece of the colour to move, and that falls on an occupied cell, or comes while nothing is selected, or falls on a cell no highlighted move lands on, only clears the selection and highlights; the board, the turn and the winner stay as they are |
| GameMachine.ClickMoves | src/script.js:226-228 | A click on a highlighted cell while a piece is selected plays exactly the highlighted move that lands on that cell |
| GameMachine.ClickOwnPiece | src/script.js:218-224 | A click on any piece of the colour to move, even in the middle of a capture chain, selects it with exactly the moves the mandatory-capture rule leaves it, and changes neither the board nor the turn |
| Checkers.Game.constructor | src/script.js:2-4 | The page starts with the opening layout, white to move, nothing selected and no winner |
| Checkers.Game.CreateBoard | src/script.js:6-27 | The nested loops leave the array holding exactly the opening layout |
| Checkers.Game.DeselectPiece | src/script.js:56-62 | Nothing is selected and nothing is highlighted afterwards |
| Checkers.Game.RemovePiece | src/script.js:117-119 | Only the captured piece's cell changes, and it becomes empty |
| Checkers.Game.CheckKing | src/script.js:130-134 | Only the piece's cell changes, to the piece crowned on its row |
| Checkers.Game.CheckWin | src/script.js:186-191 | The winner becomes the decision on the two piece counts when there is one and is left as it was otherwise |
| Checkers.Game.MovePiece | src/script.js:155-184 | The in-place move leaves the object in exactly the state the value model's move prescribes, and keeps the invariant |
| Checkers.Game.HandleClick | src/script.js:215-232 | The click handler leaves the object in exactly the state the value model's click prescribes, and keeps the invariant |
| Checkers.Game.Restart | src/script.js:206-212 | The restart button brings back the new game |
| Scenarios.AdvancedBlackCounts | src/script.js:8-22 | The opening layout with the black man of (2,1) moved on to (4,1) still has twelve men per side |
| Scenarios.OpeningCapture | src/script.js:82-91 | With the black man of (2,1) moved on to (4,1), the white man at (5,0) has exactly one legal move, the capture to (3,2) |
| Scenarios.OpeningLockout | src/script.js:103-105 | In that position the white man at (5,4), which has two free steps, gets no move because its side must capture |
| Scenarios.EndgameConsistent | src/script.js:215-224 | A white man on (2,3) facing the last black man on (1,2), selected with its one capture highlighted, is a consistent state |
| Scenarios.ChainConsistent | src/script.js:215-224 | A white man on (5,0) selected with its one capture over (4,1) highlighted, a second black man on (2,3), is a consistent state |
| Scenarios.ChainFirstBoard | src/script.js:160-173 | After the first capture the man stands on (3,2), black has one man left on (2,3), and (1,4) behind it is empty |
| Scenarios.CaptureChainContinues | src/script.js:175-180 | After that capture white stays to move with the same man selected, its second capture is highlighted and nobody has won yet |
| Scenarios.LastCaptureWins | src/script.js:166-191 | Taking the last black man crowns the white man on row 0, declares white the winner and passes the turn to black |

## Left out

- Rendering: the DOM construction, the CSS classes, the highlight markers and the piece element
  (`src/script.js:7-16`, `29-36`, `47-54`, `108-112`) have no logical content beyond what the
  state holds.
- The DOM lookups `getCell` and `getPieceAt` (`src/script.js:38-45`) are replaced by indexing
  the cell array.
- The animation and the `pointerEvents` lock (`src/script.js:136-153`, `162-164`) are left
  out. The model applies a move at once, so a click during the 0.3 s animation is not modelled.
- The explosion image and the 800 ms timer in `removePiece` (`src/script.js:120-127`) are left
  out. The win check runs synchronously after a removal, so a click between a capture and the
  delayed check is not modelled.
- The victory overlay, its Russian text and the restart button wiring
  (`src/script.js:193-213`) are left out. Only their effect is kept: the winner is recorded and
  the restart input resets the game. Whether the overlay blocks clicks on the board depends on
  styling outside the script; the model lets clicks through, and
  `GameMachine.GameOverAbsorbing` shows they change nothing.
- `parseInt` over the data attributes is left out: rows and columns are integers throughout.
- Stalemate (a side with pieces but no move) is not detected, exactly as in the source.
- A forced piece during a capture chain is not modelled, exactly as in the source.
- Event dispatch is modelled by the clicked cell. A click on an occupied cell outside its piece
  deselects in the page (its target is the cell, neither a piece nor highlighted,
  `src/script.js:231`); the model treats it as a click on the piece.
