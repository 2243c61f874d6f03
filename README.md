# Checkers engine in Dafny

This project models the game logic of a WinForms checkers program, following its
source as written. The modelled parts are:

- the `GameBoard` control: restart, move generation, mandatory capture, applying a
  move, chaining jumps, handing over the turn, and the `SpaceClick` state machine;
- the `BoardSpace` cells it owns;
- the `CheckerMarker` pieces on those cells.

The model follows the program's rules, not standard draughts:

- **Playable cells.** A cell is selectable, and can hold a piece, when `row + col` is even.
- **Directions.** Black deals onto rows 0-2 and moves towards higher rows. Red deals
  onto rows 5-7 and moves towards lower rows. A king moves both ways.
- **Captures.** A non-king may not jump a king. Each jump takes a single piece.
- **Mandatory capture.** When the side to move has a jump anywhere on the board, no
  piece of that side is offered a simple step.
- **Promotion.** A piece is crowned inside `SwapPieces`, when it lands on its
  promotion row. This happens before the check for a further jump, so a piece crowned
  in the middle of a chain carries on jumping as a king.
- **Restart.** A restart re-deals the pieces but keeps the previous selection and the
  cells' highlight flags.
- **Selection.** A piece can be selected even when it has no move.

## Modules

| file | module | what it holds |
|---|---|---|
| `player.dfy` | `Players` | the `Player` enum and `NextPlayer` |
| `checker_marker.dfy` | `Markers` | the piece value `Piece(owner, isKing)` and the mutable `CheckerMarker` class |
| `board_space.dfy` | `Spaces` | the `Occupant` and `CanKing` types, the swap-with-crowning rule `Swapped`, and the `BoardSpace` class |
| `move_rules.dfy` | `MoveRules` | the `Differences` table, `ValidMove`, the move list of a piece, and jump detection, all as functions, with soundness and completeness lemmas |
| `turns.dfy` | `Turns` | the game state `Game` and the invariant `Inv`; restart, move and click as functions on `Game`; lemmas that each transition keeps the invariant and does what the program promises |
| `game_board.dfy` | `Engine` | the `GameBoard` class over an 8x8 `array2<BoardSpace>` |

The `GameBoard` class keeps three ghost fields:

- `board` mirrors the occupants of the cells;
- `lit` mirrors the cells' `isSelected` flags;
- `Cells` is the set of cell objects.

`Mirrors()` ties these ghost fields to the cells and to the array. The game-level
methods are proved against the matching `Turns` function, in the form
`State() == Turns.F(old(State()))`: `SelectPiece` against `Select`, `Deselect` against
`Deselected`, `PassTurn` against `Passed`, `ApplyAndClear` against `Applied`,
`MakeMove` against `Moved`, `TryToMakeMove` against `TryMove` and `SpaceClick`
against `Click`. `RestartGame` is proved against `Restarted` of the old selection
and highlights. The properties proved of those functions therefore carry over to
the class. The helpers below them (`CreateRow`, `CreateSpaces`, `PlaceAt`, `DealRow`,
`DealPieces`, `ResetTurn`, `GetValidMoves`, `NextPlayer`, `HighlightAt`,
`HighlightMoves`, `SwapAt`, `JumpAt`, `Decrement`, `Capture`, `ApplyMove`,
`ClearHighlights`, `EndTurn` and `SelectAt`) state their effects field by field, some through `Spaces.Swapped`
or `Turns.MovedBoard`. The loops of `RestartGame`, `JumpAvailable`,
`GetValidMoveList`, `PiecesCanBeJumped` and `TryToMakeMove`'s search are kept as
loops, with invariants.

A piece on a cell is a value, `Occupant = Vacant | Occupied(Piece)`. The program stores
a `CheckerMarker` reference or null instead. Every marker is held by exactly one cell,
and `SwapPieces` only exchanges references, so the value carries the same information.

Three details of the code that the model keeps:

- the playable (selectable) cells are those with `row + col` even (`GameBoard.cs` lines 171 and 174);
- a restart keeps the old selection and the old highlight flags;
- the promotion zones are set only on selectable cells of rows 0 and 7 (`BoardSpace.IsAbleToKing`).

## Model

| member | source | states |
|---|---|---|
| Players.NextPlayer | Checkers/GameBoard.cs:410-418 | the side to move next is never None and never the side that just moved |
| Players.NextPlayerInvolution | Checkers/GameBoard.cs:410-418 | two turn changes give the turn back to Red or Black |
| Markers.KingedIdempotent | Checkers/CheckerMarker.cs:99-103 | crowning sets the king flag, keeps the owner, and crowning twice is crowning once |
| Markers.NewPiece | Checkers/CheckerMarker.cs:27-41 | the state of a new marker: the given owner, not a king; `Spaces.Placed` states it for the two sides |
| Markers.Kinged | Checkers/CheckerMarker.cs:99-103 | the state after KingMe; `KingedIdempotent` states that it keeps the owner, sets the king flag and is idempotent |
| Markers.CheckerMarker.constructor | Checkers/CheckerMarker.cs:27-41 | a new marker belongs to the given side and is not a king |
| Markers.CheckerMarker.SetOwner | Checkers/CheckerMarker.cs:12-16 | the Owner setter changes the owner and leaves the king flag alone |
| Markers.CheckerMarker.SetIsKing | Checkers/CheckerMarker.cs:21-25 | the IsKing setter changes the king flag and leaves the owner alone |
| Markers.CheckerMarker.KingMe | Checkers/CheckerMarker.cs:99-103 | the marker becomes a king of the same owner |
| Spaces.OwnerNoneIffVacant | Checkers/BoardSpace.cs:108-118 | a cell's owner is None exactly when it is empty, and otherwise is its piece's owner |
| Spaces.OwnerOf | Checkers/BoardSpace.cs:108-118 | GetOwner on an occupant value; `OwnerNoneIffVacant` states that it is None exactly on an empty cell and the piece's owner otherwise |
| Spaces.Crowned | Checkers/BoardSpace.cs:159-168 | KingContainedPiece on an occupant value; `Swapped` and `Turns.MovedBoardEnds` state that it keeps the owner and crowns only a piece on its promotion row |
| Spaces.Placed | Checkers/BoardSpace.cs:120-133 | placing for Black or Red gives a non-king piece of that side; placing for None empties the cell |
| Spaces.Swapped | Checkers/BoardSpace.cs:225-252 | the two occupants trade places with their owners kept; at most one of them is crowned, and only on a cell whose zone crowns its side |
| Spaces.BoardSpace.constructor | Checkers/BoardSpace.cs:73-90 | a new cell has the given row, column and selectability, the placed occupant, no promotion zone, and no highlight |
| Spaces.BoardSpace.IsAbleToKing | Checkers/BoardSpace.cs:92-96 | the promotion zone changes on selectable cells only |
| Spaces.BoardSpace.Highlight | Checkers/BoardSpace.cs:98-106 | the highlight flag changes on selectable cells only |
| Spaces.BoardSpace.GetOwner | Checkers/BoardSpace.cs:108-118 | the owner is None exactly when the cell is empty |
| Spaces.BoardSpace.Empty | Checkers/BoardSpace.cs:67-71 | the IsEmpty property (its body at lines 135-143): no marker on the cell; `GetOwner` states that the owner is None exactly when it holds |
| Spaces.BoardSpace.PlaceMarker | Checkers/BoardSpace.cs:120-133 | the cell holds a fresh non-king piece of the given side, or nothing for None |
| Spaces.BoardSpace.RemovePiece | Checkers/BoardSpace.cs:145-150 | the cell is empty afterwards |
| Spaces.BoardSpace.JumpSpace | Checkers/BoardSpace.cs:152-157 | a jumped cell is empty afterwards |
| Spaces.BoardSpace.KingContainedPiece | Checkers/BoardSpace.cs:159-168 | the piece, if any, is crowned; an empty cell stays empty |
| Spaces.BoardSpace.SwapPieces | Checkers/BoardSpace.cs:225-252 | the two cells end with the occupants that Swapped gives, including when a cell is swapped with itself |
| Spaces.BoardSpace.SetPiece | Checkers/BoardSpace.cs:254-259 | the cell holds the given occupant |
| Spaces.BoardSpace.HoldingKing | Checkers/BoardSpace.cs:23-25 | needs an occupied cell; true exactly when crowning would change nothing |
| MoveRules.DirectionSets | Checkers/GameBoard.cs:322-344 | a king considers all four diagonals; a red non-king considers only the row-1 ones; any other non-king considers only the row+1 ones |
| MoveRules.MovesBetween | Checkers/GameBoard.cs:347-387 | every destination (and every jumped cell) the direction loop collects lies on the board |
| MoveRules.MoveInDir | Checkers/GameBoard.cs:350-385 | the move one direction contributes; `MoveInDirExact` states when it is a jump and when a step, in both directions |
| MoveRules.ValidMoveList | Checkers/GameBoard.cs:316-390 | the move list of a piece; `ValidMoveListExact` states that it holds exactly the moves fitting the piece's directions, and `ValidMoveListSound`, `CaptureGate` and `DestinationPlayable` state its properties |
| MoveRules.MoveInDirExact | Checkers/GameBoard.cs:350-385 | an entry comes from one direction exactly when it fits that direction: a step to the empty neighbour when no jumps exist, or a jump over a takeable opposing neighbour to the empty cell beyond |
| MoveRules.MovesBetweenExact | Checkers/GameBoard.cs:347-387 | an entry is collected from a range of directions exactly when it fits one direction of the range |
| MoveRules.ValidMoveListExact | Checkers/GameBoard.cs:316-390 | the list is sound and complete: an entry is in it exactly when it fits a direction the piece considers |
| MoveRules.ValidMoveListSound | Checkers/GameBoard.cs:316-390 | every entry lands on an empty on-board cell. A step goes one diagonal. A jump goes two diagonals over an opposing piece the mover may take. A non-king black piece only moves to higher rows, a non-king red piece only to lower rows |
| MoveRules.CaptureGate | Checkers/GameBoard.cs:357-363 | while jumps exist, the list holds jumps only |
| MoveRules.JumpsIgnoreFlag | Checkers/GameBoard.cs:366-384 | a jump entry is in the list whatever the jumps-exist flag |
| MoveRules.NonKingNeverJumpsKing | Checkers/GameBoard.cs:370 | a non-king's jump never captures a king |
| MoveRules.DestinationPlayable | Checkers/GameBoard.cs:346-387 | a piece on a selectable cell only moves to selectable cells |
| MoveRules.JumpListed | Checkers/GameBoard.cs:285-311 | a direction in which JumpAvailable finds a jump gives a jump entry in the move list |
| MoveRules.ListedJump | Checkers/GameBoard.cs:366-384 | a jump entry in the move list means JumpAvailable holds for the piece |
| MoveRules.JumpAvailableIffListed | Checkers/GameBoard.cs:255-390 | JumpAvailable holds exactly when GetValidMoveList has an entry with a jumped cell, whatever the jumps-exist flag |
| MoveRules.JumpAvailable | Checkers/GameBoard.cs:255-314 | whether a piece has a jump; `JumpAvailableIffListed` states that it holds exactly when the piece's move list contains a jump |
| MoveRules.CanJumpAny | Checkers/GameBoard.cs:231-253 | whether any piece of a side has a jump; `Turns.InitialNoJumps` states that it is false on the initial board, and `Turns.MandatoryCapture` that while it holds only jumps are offered |
| Turns.CountUpdate | Checkers/GameBoard.cs:133-134 | replacing one cell's occupant changes a side's piece count by what left and what arrived |
| Turns.Unlit | Checkers/GameBoard.cs:166-184 | the cells created for a first game carry no highlight |
| Turns.InitialLayout | Checkers/GameBoard.cs:205-226 | the dealt position: non-king black pieces on the selectable cells of rows 0-2, rows 3-4 empty, non-king red pieces on the selectable cells of rows 5-7, nothing on the other cells |
| Turns.DealtRowCount | Checkers/GameBoard.cs:219-225 | each dealt row holds four pieces of its side and none of the other |
| Turns.InitialCount | Checkers/GameBoard.cs:198-226 | each side is dealt 12 pieces |
| Turns.InitialCounts | Checkers/GameBoard.cs:198-199 | the counts of 12 that RestartGame sets agree with the dealt board |
| Turns.InitialNoJumps | Checkers/GameBoard.cs:194 | the jumps flag that RestartGame clears without scanning agrees with the scan: Black has no jump at the start |
| Turns.HighlightAllSets | Checkers/GameBoard.cs:466-467 | after the highlight loop, every selectable destination carries the new flag, and every cell that is no destination keeps its flag |
| Turns.RestartedInv | Checkers/GameBoard.cs:153-229 | the restarted state satisfies the engine invariant, whatever selection and highlights survive the restart |
| Turns.Restarted | Checkers/GameBoard.cs:153-229 | the state after RestartGame; `InitialLayout`, `InitialCounts`, `InitialNoJumps` and `RestartedInv` state its board, counts, flags and invariant |
| Turns.FirstMatch | Checkers/GameBoard.cs:426-457 | the search stops at the first entry whose destination is the clicked cell, or runs off the end when there is none |
| Turns.MovedBoardEnds | Checkers/GameBoard.cs:432-438 | after a move, the piece stands on its destination, crowned exactly when it reaches its promotion row; its old cell is empty, and so is the jumped cell |
| Turns.MovedBoardRest | Checkers/GameBoard.cs:432-438 | every other cell keeps its occupant |
| Turns.MovedBoardCells | Checkers/GameBoard.cs:432-438 | what a move does to each cell: the two statements above together |
| Turns.MovedBoardPlacement | Checkers/GameBoard.cs:432-438 | after a move, pieces still stand on selectable cells only and still belong to Red or Black |
| Turns.MovedBoardCount | Checkers/GameBoard.cs:435-445 | a jump takes exactly one piece from the side not moving; nothing else changes a side's count |
| Turns.MovedBoardCounts | Checkers/GameBoard.cs:432-445 | the mover's count is unchanged, the opponent's drops by one for a jump, and the landing cell holds the mover's piece |
| Turns.MovedBoard | Checkers/GameBoard.cs:432-438 | the board after a move; `MovedBoardEnds`, `MovedBoardRest`, `MovedBoardCells` and `MovedBoardCount` state what changes and what does not |
| Turns.Applied | Checkers/GameBoard.cs:432-467 | applying a move keeps the side, the selection, the move list and the jumps flag, and lands an occupied destination |
| Turns.Passed | Checkers/GameBoard.cs:470-486 | the end of a turn; `MovedInvPass` states that it keeps the invariant with the jumps flag rescanned for the next player |
| Turns.Moved | Checkers/GameBoard.cs:426-503 | a move followed by a chain or a turn change; `MovedInv` and `MovedCounts` state that it keeps the invariant and the counts |
| Turns.ChainMovesAreJumps | Checkers/GameBoard.cs:487-503 | during a chain, the move list holds jumps only |
| Turns.MandatoryCapture | Checkers/GameBoard.cs:357-363 | outside a chain, when the side to move has a jump anywhere, none of its pieces is offered a simple step |
| Turns.MovedCounts | Checkers/GameBoard.cs:438-445 | after a move, each count still equals that side's pieces on the board |
| Turns.MovedInvPass | Checkers/GameBoard.cs:470-486 | a move that ends the turn keeps the engine invariant |
| Turns.MovedInvChain | Checkers/GameBoard.cs:487-503 | a jump that continues the chain keeps the engine invariant |
| Turns.MovedInv | Checkers/GameBoard.cs:426-503 | every move keeps the engine invariant |
| Turns.TryMoveInv | Checkers/GameBoard.cs:420-511 | TryToMakeMove keeps the engine invariant, so both counts keep equalling the pieces on the board |
| Turns.TryMoveRefusal | Checkers/GameBoard.cs:423-460 | TryToMakeMove reports false exactly when no entry of the move list goes to the clicked cell, and then nothing changes |
| Turns.TryMoveEffect | Checkers/GameBoard.cs:426-449 | after a move the mover stands on the clicked cell, crowned on its promotion row, and its old cell is empty. A jump empties the jumped cell and takes exactly one piece from the opponent's count. A step changes no count |
| Turns.TryMoveTurn | Checkers/GameBoard.cs:447-503 | a jump with a further jump from the landing cell keeps the side, selects the landing cell and lists that piece's moves; otherwise the selection is cleared, the turn passes to the other side, and the jumps flag is rescanned for that side |
| Turns.TryMove | Checkers/GameBoard.cs:420-511 | TryToMakeMove as a function; `TryMoveInv`, `TryMoveRefusal`, `TryMoveEffect` and `TryMoveTurn` state its invariant, its refusal, its effect and when the turn changes |
| Turns.ClickInv | Checkers/GameBoard.cs:513-596 | every click keeps the engine invariant |
| Turns.ClickUnselectable | Checkers/GameBoard.cs:516 | a click on a cell that is not selectable changes nothing |
| Turns.ClickDuringChain | Checkers/GameBoard.cs:519-524 | during a chain, a click either changes nothing or makes one more capture with the selected piece |
| Turns.ClickSelectedDeselects | Checkers/GameBoard.cs:560-571 | clicking the selected piece clears the selection and the move list, unhighlights the piece and its destinations, and leaves the board alone |
| Turns.ClickOwnPieceSelects | Checkers/GameBoard.cs:528-590 | outside a jump chain, clicking another piece of the side to move selects it, lists its moves and highlights it, even when it has no move |
| Turns.ClickOpponentIgnored | Checkers/GameBoard.cs:557-591 | clicking an opponent's piece (other than a stale selection) changes nothing |
| Turns.Select | Checkers/GameBoard.cs:528-545 | selecting a piece; `ClickOwnPieceSelects` and `MovedInvChain` state that the piece is selected, its moves listed and highlighted |
| Turns.Deselected | Checkers/GameBoard.cs:560-571 | dropping the selection; `ClickSelectedDeselects` states that the selection, its highlight and its moves' highlights are cleared |
| Turns.Click | Checkers/GameBoard.cs:513-596 | SpaceClick as a function; `ClickInv`, `ClickUnselectable`, `ClickDuringChain`, `ClickSelectedDeselects`, `ClickOwnPieceSelects` and `ClickOpponentIgnored` state its cases |
| Engine.FindMove | Checkers/GameBoard.cs:426-457 | the search loop finds the first entry going to the clicked cell, or the end of the list |
| Engine.GameBoard.constructor | Checkers/GameBoard.cs:136-151 | a new board has an empty 8x8 array, no selection, no moves, no flags, and zero counts |
| Engine.GameBoard.CreateRow | Checkers/GameBoard.cs:168-183 | one row of fresh, empty, unlit cells, selectable on playable squares, with that row's promotion zone; other rows untouched |
| Engine.GameBoard.CreateSpaces | Checkers/GameBoard.cs:159-185 | a first game fills the array with 64 fresh empty, unlit cells; row 0 crowns red and row 7 crowns black |
| Engine.GameBoard.PlaceAt | Checkers/GameBoard.cs:224 | placing on one cell changes that cell of the board and nothing else |
| Engine.GameBoard.DealRow | Checkers/GameBoard.cs:219-225 | one pass of the dealing loop fills the playable cells of one row with that row's side |
| Engine.GameBoard.DealPieces | Checkers/GameBoard.cs:205-226 | the dealing loops produce the starting position |
| Engine.GameBoard.ResetTurn | Checkers/GameBoard.cs:188-199 | an empty move list, Black to move, both jump flags false, 12 pieces a side |
| Engine.GameBoard.Deal | Checkers/GameBoard.cs:188-226 | after dealing, the state is the restarted state, and the invariant holds |
| Engine.GameBoard.RestartGame | Checkers/GameBoard.cs:153-229 | the state becomes the restarted state, with the old selection and highlights kept on a restart and no highlights on a first game; the invariant holds |
| Engine.GameBoard.JumpToward | Checkers/GameBoard.cs:288-311 | one pass of JumpAvailable's loop reports whether that direction offers a jump |
| Engine.GameBoard.JumpAvailable | Checkers/GameBoard.cs:255-314 | the loop with early return computes JumpAvailable for the piece on the cell |
| Engine.GameBoard.MovesToward | Checkers/GameBoard.cs:350-386 | one pass of GetValidMoveList's loop adds the entry of that direction |
| Engine.GameBoard.GetValidMoveList | Checkers/GameBoard.cs:316-390 | the loop builds the valid-move list of the piece, in table order |
| Engine.GameBoard.PiecesCanBeJumped | Checkers/GameBoard.cs:231-253 | the board scan reports whether some piece of the side to move can jump |
| Engine.GameBoard.GetValidMoves | Checkers/GameBoard.cs:392-398 | with a selection, the move list becomes the selected piece's list; without one, nothing changes |
| Engine.GameBoard.SpaceSelected | Checkers/GameBoard.cs:400-408 | a selection exists exactly when it names a cell of the board |
| Engine.GameBoard.NextPlayer | Checkers/GameBoard.cs:410-418 | the turn passes as NextPlayer says |
| Engine.GameBoard.HighlightMoves | Checkers/GameBoard.cs:466-467 | the foreach loop sets the flag of every destination, as HighlightAll describes |
| Engine.GameBoard.HighlightAt | Checkers/GameBoard.cs:463 | one cell's highlight changes, on selectable cells only |
| Engine.GameBoard.SwapAt | Checkers/GameBoard.cs:432 | the swap between the selected cell and the destination, with crowning, as Swapped describes |
| Engine.GameBoard.JumpAt | Checkers/GameBoard.cs:438 | the jumped cell becomes empty |
| Engine.GameBoard.Decrement | Checkers/GameBoard.cs:441-445 | the count of the side not moving drops by one |
| Engine.GameBoard.Capture | Checkers/GameBoard.cs:435-449 | a jump empties the jumped cell, takes one from the opponent's count, and sets the double-jump flag to JumpAvailable at the landing cell |
| Engine.GameBoard.ApplyMove | Checkers/GameBoard.cs:432-449 | the board becomes the moved board, the counts drop only for a jump, and the double-jump flag is rescanned only for a jump |
| Engine.GameBoard.ClearHighlights | Checkers/GameBoard.cs:463-467 | the selected cell and every destination are unhighlighted |
| Engine.GameBoard.EndTurn | Checkers/GameBoard.cs:470-486 | the selection is cleared, the turn passes, and the jumps flag is the new side's board scan |
| Engine.GameBoard.PassTurn | Checkers/GameBoard.cs:470-486 | the state becomes Turns.Passed of the old state, and the mirrors still hold |
| Engine.GameBoard.SelectAt | Checkers/GameBoard.cs:491-502 | the cell is selected and highlighted, and its move list is computed and highlighted |
| Engine.GameBoard.SelectPiece | Checkers/GameBoard.cs:528-545 | the state becomes Turns.Select of the old state at the clicked cell, and the mirrors still hold |
| Engine.GameBoard.Deselect | Checkers/GameBoard.cs:560-571 | deselecting is the Deselected step of the game |
| Engine.GameBoard.ApplyAndClear | Checkers/GameBoard.cs:426-467 | the swap, capture and unhighlighting give the applied state |
| Engine.GameBoard.MakeMove | Checkers/GameBoard.cs:426-503 | making a found move gives the moved state: the chain continues or the turn passes |
| Engine.GameBoard.TryToMakeMove | Checkers/GameBoard.cs:420-511 | the result and the new state are those of TryMove, and the invariant is kept |
| Engine.GameBoard.SpaceClick | Checkers/GameBoard.cs:513-596 | the new state is that of Click, and the invariant is kept |

## Left out

- Painting: `OnPaint`, `BoardSpace.Draw`, `CheckerMarker.Draw`, the colours, the `m_isValid` paint gate and the `Refresh()` calls. These are presentation with no game logic.
- `Checkers/ColorFunctions.cs`, `Checkers/Checkers.cs` and `Checkers/GamePiece.cs` are not part of this model. They hold colour arithmetic on floating point, the form's menu handlers and an abstract `Draw`.
- Mouse handling: `OnMouseDown`, `OnMouseUp` and `GetSpaceFromPoint` map pixels to cells. The model starts at `SpaceClick`, which is given a cell.
- The float `base_x`/`base_y` values computed in `RestartGame`, which the logic never uses.
- The `MoveCompleted` event and `BoardArgs`. The event notifies the form and changes no engine state.
- Win or loss detection: the program has none, and neither does the model.
- Marker identity: a cell holds the piece's value, not a shared `CheckerMarker` reference. The standalone `CheckerMarker` class models the marker's own methods. Aliasing between cells cannot arise, because every marker is held by one cell.
- `ValidMove` holds `BoardSpace` references in the program. The model holds the cells' positions.
- Engine.GameBoard.constructor: `CurrentValidMoves` is null until the first `RestartGame`; the model starts it as the empty list.
- Engine.GameBoard.RestartGame: a restart (`isRestart` true) requires a board that has already been set up. In the program, a restart before the first game dereferences null cells.
- Engine.GameBoard.SpaceClick: requires a board built by `RestartGame`, and a cell of that board. The program ignores clicks until then: `GetSpaceFromPoint` returns the empty slot (`GameBoard.cs` line 634) and `OnMouseUp` skips the call when the press found no cell (line 600).
- Engine.GameBoard.JumpAvailable: requires an occupied cell, because the program reads the occupant's king flag through `HoldingKing` (`BoardSpace.cs` lines 23-25), which dereferences null on an empty cell. Its callers only pass occupied cells.
- Engine.GameBoard.JumpToward: requires an occupied cell, for the same null dereference; only `JumpAvailable` calls it.
- Engine.GameBoard.GetValidMoveList: requires an occupied cell, because the program reads `HoldingKing` at `GameBoard.cs` line 322 and dereferences null on an empty cell. Its callers only pass the selected piece's cell.
- Engine.GameBoard.MovesToward: requires an occupied cell, for the same null dereference; only `GetValidMoveList` calls it.
- Engine.GameBoard.GetValidMoves: requires the selected cell, when there is one, to be occupied, for the same null dereference. The program calls it only right after setting the selection to a clicked piece (`GameBoard.cs` lines 534-541 and 585-587) or to a jump's landing cell (lines 491-498). A stale selection kept by a restart can sit on an empty cell, but it is never passed here.
- Integer width: the piece counts are C# `int`. They only fall from 12, and stay equal to the number of pieces on the board, so unbounded integers give the same values.
