# Peg solitaire rules engine in Dafny

This project models the rules engine of a browser peg-solitaire game (`script.js`). The board is a triangle of 8 rows. Row `r` holds the columns `0..r`, so there are 36 holes. At the start every hole has a peg except (4,2). A peg moves in one of two ways:
- click it, then click an empty hole (`movePeg`);
- drag it onto a hole (the `drop` handler).

Both paths accept the move when the hole half-way between source and target holds a peg. They then empty the source and that midpoint and fill the target. Every accepted move appends a snapshot of the board to a history, and undo steps back through that history. After each move `checkGameOver` decides the message:
- "You win!" when the single remaining peg is at (4,2);
- "You lose!" when the single remaining peg is anywhere else;
- "No more valid moves. You lose!" when more than one peg is left and `hasValidMoves` finds no jump.

The project has three modules:
- `geometry.dfy` (module `Geometry`) covers positions and the row-major numbering of holes. It also has the midpoint lookup and the six jump offsets of `generateMoves`.
- `rules.dfy` (module `Rules`) holds the specification functions on board values (`seq<bool>`, true = peg). It defines the outcome of a click move and of a drop, the jump predicate `hasValidMoves` decides, and the message `checkGameOver` leaves. The lemmas state what these promise.
- `engine.dfy` (module `Engine`) holds the class `Game`. Its fields are the state `script.js` keeps in closure variables:
  - `holes`, an array of 36 booleans;
  - `selected`, the selection;
  - `history`, the snapshots;
  - `message`.

  Each method updates these fields in place and is proved against the `Rules` functions. `Valid()` is the invariant every method keeps:
  - the history is never empty;
  - it starts with the initial board;
  - it ends with the current board.

The model follows the code as written, including where it departs from the classic 15-hole triangular game:
- The board has 8 rows and 36 holes, not 5 rows and 15 holes.
- Neither move path checks distance or direction. A move of four rows over a peg two rows away is accepted.
- `movePeg` does not check that the selected hole still holds a peg.
- Neither undo nor restart clears the selection. Restart (`createBoard`) replaces every hole element but leaves `selectedPeg` pointing at the old element. The model calls such a selection `Detached`. A later click move through it writes the source update to the thrown-away element, so on the board only the midpoint and the target change.
- A drop leaves the selection as it was.
- Rejected moves change nothing and report nothing. There is no error message.
- Nothing locks the game after a win or a loss; moves stay possible.

## Model

| member | source | states |
|---|---|---|
| Geometry.IsHole | script.js:13-16 | a hole exists exactly at rows 0..7 and, in row r, columns 0..r |
| Geometry.RowStart | script.js:13-16 | the number of holes pushed before row r: 0, 1, 3, 6, 10, 15, 21, 28, and 36 before the missing ninth row |
| Geometry.RowStartClosedForm | script.js:13-16 | the table agrees with the push order: 1 + 2 + ... + r = r(r + 1)/2 holes come before row r |
| Geometry.RowStartStep | script.js:13-16 | row r holds r + 1 holes, so each row starts r + 1 indices after the previous one |
| Geometry.Index | script.js:13-26 | the position in `holes` at which createBoard pushes a hole, always below 36 |
| Geometry.IndexRowMajor | script.js:13-26 | holes are pushed row by row, left to right: a hole earlier in reading order has the smaller index |
| Geometry.IndexInjective | script.js:13-26 | no two holes share an index in `holes` |
| Geometry.RowOf | script.js:13-26 | the row whose index range RowStart(r) <= i < RowStart(r + 1) holds index i |
| Geometry.PosOf | script.js:24-26 | the hole stored at index i is a hole whose push index is i |
| Geometry.PosOfIndex | script.js:24-26 | the coordinates stored with a hole lead back to that hole |
| Geometry.WinIndexIff | script.js:19 | the hole at row 4, column 2 is stored at index 12, and no other hole is |
| Geometry.WinIndex | script.js:19-26 | (4,2) is pushed at index 12 |
| Geometry.Midpoint | script.js:105-111 | the hole found for (s + t) / 2 is a hole exactly half-way between s and t |
| Geometry.MidpointOfHoles | script.js:105-111 | between two holes the lookup finds a hole exactly when both coordinate sums are even (half-integers match nothing) |
| Geometry.JumpTargets | script.js:183-192 | six candidate targets, each different from the peg and an even number of rows and columns away |
| Geometry.JumpTargetsSymmetric | script.js:183-192 | t is a candidate from p exactly when p is one from t |
| Geometry.JumpTargetMidpoint | script.js:168-173 | a candidate target that is a hole has a hole half-way, distinct from both ends |
| Rules.Selection.AfterRestart | script.js:10-12 | after createBoard a selection is never on the board, and a selection that existed keeps its position |
| Rules.InitialBoard | script.js:19-23 | a 36-hole board with a peg in every hole but index 12, the hole (4,2) |
| Rules.InitialBoardPegs | script.js:13-26 | the initial board has a peg in every hole but (4,2), so it has 35 pegs |
| Rules.PegCount | script.js:144 | the length of checkGameOver's filter of peg holes, at most the board size |
| Rules.PegCountUpdate | script.js:144 | setting one hole changes the peg count by what that hole lost or gained |
| Rules.FirstPeg | script.js:144-146 | `pegs[0]` is a peg, and no hole before it holds one |
| Rules.LonePeg | script.js:144-146 | with one peg left, any two pegs are the same hole |
| Rules.Captured | script.js:108-113 | the captured hole is a hole |
| Rules.Jump | script.js:114-119 | the board after the source and the midpoint lose their class `peg` and the target gains it, in that order; the drop handler does the same at script.js:72-77 |
| Rules.JumpEffect | script.js:114-119 | the three-hole update fills the target, empties midpoint and source (when distinct from the target) and keeps every other hole |
| Rules.JumpRemovesOnePeg | script.js:113-119 | a jump from a peg over a peg into an empty hole touches three distinct holes and removes exactly one peg |
| Rules.ClickMove | script.js:98-119 | None when no peg is selected or the midpoint is no peg hole; otherwise Jump, or only the midpoint and target writes for a detached selection; the result is a 36-hole board |
| Rules.DropMove | script.js:63-77 | None when the target holds a peg or the midpoint is no peg hole; otherwise Jump from the dragged hole; the result is a 36-hole board |
| Rules.ClickMoveRejected | script.js:98-113 | movePeg changes nothing exactly when no peg is selected, the midpoint is no hole, or the midpoint is empty |
| Rules.ClickMoveEffect | script.js:113-119 | an accepted click move from a board hole empties source and midpoint, fills the target, keeps every other hole, and removes one peg when source was a peg and target empty |
| Rules.DetachedMoveEffect | script.js:113-119 | an accepted click move through a detached selection empties only the midpoint and fills the target, so the peg count does not fall |
| Rules.DropMoveEffect | script.js:63-77 | a drop acts exactly when the target is empty and the midpoint holds a peg; it then does the same update as movePeg and removes one peg when the dragged hole held one |
| Rules.CanJump | script.js:159-174 | a peg at p, an empty target hole t and a hole half-way holding a peg: the test hasValidMoves applies |
| Rules.AnyJump | script.js:157-181 | some peg has such a jump to one of its generateMoves targets |
| Rules.NoJumpBelow | script.js:158-179 | none of the first n holes, in push order, has such a jump: the part of the scan done so far |
| Rules.NoJumpAnywhere | script.js:157-180 | a scan of all 36 holes that finds no jump shows that no peg has one |
| Rules.ScanDecidesJump | script.js:157-180 | the scan finds no jump exactly when no peg has a jump to a generateMoves target |
| Rules.FoundJumpIsAccepted | script.js:174 | every jump hasValidMoves counts is accepted by movePeg and by the drop handler, and removes one peg |
| Rules.ScatteredPegsHaveNoJump | script.js:157-192 | on a board where no two pegs are neighbours, hasValidMoves finds nothing |
| Rules.LongJumpWithoutValidMoves | script.js:63-80 | hasValidMoves can report no moves while a drop four rows down over a peg is still accepted and leaves a single peg |
| Rules.InitialBoardHasJump | script.js:157-180 | the starting board has a jump: (2,2) over (3,2) into (4,2) |
| Rules.Verdict | script.js:143-155 | the message checkGameOver leaves, given the one before; a message it changes is never the empty one |
| Rules.VerdictCases | script.js:143-155 | one peg: win exactly when (4,2) holds it, else lose; otherwise "no more valid moves" exactly when no jump exists, and the earlier message stays otherwise |
| Rules.InitialVerdict | script.js:143-155 | checking the starting board leaves the message unchanged |
| Engine.Game.Valid | script.js:127-138 | the hole array has 36 entries, the history is never empty, starts with the initial board and ends with the current one, and a selection names a hole |
| Engine.Game.constructor | script.js:6-8 | the page load leaves the initial board, a one-snapshot history, no selection and an empty message |
| Engine.Game.CreateBoard | script.js:10-30 | a fresh hole array holding the initial board and a history of exactly that one snapshot; the selection becomes detached, and the message is kept |
| Engine.Game.PushRow | script.js:16-28 | the inner loop fills the holes of row r with the initial board's values |
| Engine.Game.Restart | script.js:194-197 | restart rebuilds the board as createBoard does and clears the message |
| Engine.Game.SaveState | script.js:127-130 | appends a snapshot equal to the current board |
| Engine.Game.SelectPeg | script.js:89-95 | the given peg hole becomes the selection, replacing any earlier one |
| Engine.Game.MovePeg | script.js:97-125 | for a click on an empty hole: a rejected click changes nothing; an accepted one leaves the ClickMove board, clears the selection, appends exactly that board to the history and sets the message checkGameOver decides |
| Engine.Game.Drop | script.js:54-82 | for a drag from a peg: a rejected drop changes nothing; an accepted one leaves the DropMove board, appends exactly that board and sets the verdict message; the selection is never touched |
| Engine.Game.Empty | script.js:72-73 | the source hole loses its peg and nothing else changes |
| Engine.Game.JumpOver | script.js:74-77 | the midpoint loses its peg, the target gains one, nothing else changes |
| Engine.Game.UndoMove | script.js:132-141 | with one snapshot nothing changes; with more, the history shrinks by one, the board becomes the new last snapshot and the message is cleared; the selection is never touched |
| Engine.Game.CheckGameOver | script.js:143-155 | the message becomes Verdict(board, previous message) |
| Engine.Game.HasValidMoves | script.js:157-181 | answers true exactly when some peg has a jump to a generateMoves target; reads the board only |
| Engine.Game.JumpsFrom | script.js:162-177 | answers true exactly when the peg at p has a jump to one of its generateMoves targets |
| Engine.UndoAfterMove | script.js:122-138 | undo straight after an accepted click move restores the board and history from before it |
| Engine.UndoAfterDrop | script.js:78-138 | undo straight after an accepted drop restores the board and history from before it and keeps the selection |
| Engine.UndoRepeatedly | script.js:132-141 | n presses remove min(n, snapshots - 1) snapshots; enough presses restore the initial board and no number goes past it |

## Left out

- DOM construction, event listeners and button wiring are left out (script.js:1-5, 14-18, 27-53, 194-203), as presentation glue. The click handler calls selectPeg only on a peg and movePeg only on an empty hole. `SelectPeg` and `MovePeg` require exactly that of their callers, and there is no method for the handler itself.
- The `dataTransfer` JSON round trip and the `parseInt` of `dataset` strings are left out (script.js:43-46, 56-60, 100-103). Positions are integers throughout.
- A drag that starts on an empty hole is left out. It sets no drag data, so `JSON.parse` of the empty string throws in the drop handler and nothing changes. `Drop` therefore requires a peg at its source, as a drag that carries data starts on a peg and the board cannot change during the drag.
- Holes are booleans and the message is an enumeration. The `selected` CSS class, which a snapshot captures and undo restores, is not modelled. The message texts are presentation.
- Rules.Captured: states only that the result is a hole; what it captures is stated by ClickMoveEffect and DropMoveEffect.
