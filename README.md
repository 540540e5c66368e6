# Dice puzzle rules engine

This project models the rules engine of the `Game` class in `dice/game.js`
and proves properties of that model. The game is a single-player puzzle on a
5×5 grid. Each die has a face value. A selected die builds its move one cell
at a time with a travelling tile and must use exactly its value in steps. A
step that is not the last may not enter an occupied cell; the last step may
land anywhere on the board. The landing then resolves:

- a die of equal value is destroyed together with the mover;
- a die of a different value keeps its cell and takes the absolute
  difference, while the mover leaves the board;
- with no die under the tile, the mover returns to its start.

The game is over when at most three dice are left and no die passes the
distance-and-parity reach test towards another. The score is the sum of the
dice left. A puzzle can be shared as the text `positions|values`, which
decoding validates.

Modules:

- `Wrappers`: the `Option` type.
- `Grid`: cell numbering, the taxicab distance, neighbours, walks on an empty
  board, and the inner cells.
- `Rules`: operations on a dice list. These are the lookups, the reach test,
  the end-of-game loop (`IsGameOver`), the score, the step test, the
  valid-move loop (`GetValidMoves`), the collision outcome and the
  identifier order.
- `Play`: the stepping machine on values. It has one function for each
  state-changing method of the game object except `StartNewGame`. It also
  has the invariant `Inv` and the lemmas about the machine.
- `DiceGame`: the class `Game`, with the fields `dice`, `initialDice`,
  `selectedDie`, `movesRemaining`, `transientTile` and `inputMethod`. Each
  method updates the fields in place. The contracts fall into groups:
  - `SelectDice`, `MoveOneStep`, `MoveToPosition` and `CycleThroughDice`
    require and keep `Valid()`. Each leaves the fields as the `Play`
    function of the same name computes from the old fields.
  - `FinalizeTileMovement` starts from any state between steps
    (`Play.Consistent`); `MoveOneStep` calls it once the last move is used.
    It performs `Play.FinalizeTileMovement` and establishes `Valid()`.
  - `HandleDiceCollision`, `AnimateDestruction`, `AnimateReplacement` and
    `ReturnToStart` are the steps of a landing. Each performs its `Play`
    function and requires nothing. `FinalizeTileMovement` is where their
    results are shown to be valid again.
  - The constructor and `ResetToInitialState` establish `Valid()` and the
    reset state of `Play.ResetToInitialState`.
  - `StartNewGame` places a new configuration through `Setup.PlaceDice`.
  - `EncodePuzzleState` is a function. Its contract is the decoding round
    trip.
- `PuzzleText`: the text layer of sharing and loading.
- `Setup`: `placeDice`, with its random draws as parameters.
- `Scenarios`: small boards on which the rules give their answers outright.

Callbacks scheduled with `setTimeout` and `requestAnimationFrame` are
applied at once, in program order. So after a final step that hits nothing,
the state is the one `returnToStart` restores: the same die selected again
with all its moves.

Die identifiers `dice-<k>` are represented by the number `k`. The in-place
update `targetDice.value = difference` becomes an update of the die with
that identifier in the list. Identifiers are unique on every board the game
builds, so this is the same thing.

## Behaviour worth noting

- The reach test is only distance and parity. No path is searched and no
  occupancy is looked at.
- More than three dice are never a finished game.
- 6 is the largest face value.
- Decoding does not reject two dice on one cell, so the model does not
  assume distinct positions. On such a cell the move hits the die listed
  first.
- While a move is built, the mover's own start cell counts as occupied for
  steps that are not the last.

## Model

| member | source | states |
|---|---|---|
| Grid.PositionToRowCol | dice/game.js:653-655 | the row and column of every cell lie in 0..4, and `row * 5 + col` gives the cell back |
| Grid.RowColToPosition | dice/game.js:656-658 | for an on-board row and column the result is a cell whose row and column are the arguments |
| Grid.TaxicabDistance | dice/game.js:659-663 | the distance is 0 exactly on the same cell, and at most 8 |
| Grid.TaxicabSymmetric | dice/game.js:659-663 | the distance does not depend on the order of its arguments |
| Grid.Neighbor | dice/game.js:689-698 | the neighbour's row and column are shifted by the direction's deltas, at distance 1 |
| Grid.NeighborOffset | dice/game.js:716-721 | as a cell number a step adds 5 per row and 1 per column |
| Grid.NeighborOpposite | dice/game.js:689-698 | stepping back the opposite way returns to the cell one came from |
| Grid.StepChangesDistance | dice/game.js:664-670 | one step changes the distance to any fixed cell by exactly one, the fact behind the parity test |
| Grid.WalkDistance | dice/game.js:664-670 | a walk of n steps ends at distance at most n, with the parity of n |
| Grid.WalkExists | dice/game.js:664-670 | on an empty board every cell within n steps and of n's parity is the end of a walk of exactly n steps |
| Grid.IsInnerCell | dice/game.js:60-62 | row and column both in 1..3; every neighbour of an inner cell is on the board, and `Grid.GetInnerPositions` proves its cells are exactly the nine listed |
| Grid.GetInnerPositions | dice/game.js:31-39 | the loop yields exactly the nine inner cells row by row, and a cell is in the result iff it is inner |
| Rules.GetDiceAtPosition | dice/game.js:63-65 | a found die is in the list on that cell; nothing is found iff no die stands there |
| Rules.GetDiceAtPositionFirst | dice/game.js:64 | the die found is the first in list order on that cell |
| Rules.FindById | dice/game.js:621 | a found die is in the list with that identifier; nothing is found iff no die has it |
| Rules.FindCollisionTarget | dice/game.js:746 | a found die stands on the landing cell and is not the mover; nothing is found iff every die there is the mover |
| Rules.FindCollisionTargetFirst | dice/game.js:746 | the target is the first die in list order on the landing cell other than the mover |
| Rules.IndexOfId | dice/game.js:409 | -1 iff the identifier is absent; otherwise an index holding it |
| Rules.ReachIsEmptyBoardWalk | dice/game.js:664-670 | the reach test holds iff the mover could walk onto the other cell in exactly its value's steps on an empty board; distance equal to value always passes |
| Rules.CanDiceReachDice | dice/game.js:664-670 | the distance is at most the mover's value and has its parity; towards its own cell a die passes iff its value is even and non-negative; `Rules.ReachIsEmptyBoardWalk` proves what the test means |
| Rules.IsGameOver | dice/game.js:671-685 | the nested loops answer true iff at most three dice remain and no ordered pair i≠j passes the reach test; false above three dice, true for zero or one |
| Rules.FinalScore | dice/game.js:686-688 | the score of dice valued at least 1 is at least their count; the empty board scores 0 |
| Rules.CanMoveInDirection | dice/game.js:689-708 | false off the board; on the last step true for any on-board neighbour; otherwise true iff no die stands on the neighbour |
| Rules.GetValidMoves | dice/game.js:635-652 | the loop yields the allowed neighbours in up, down, left, right order: at most 4 cells, each at distance 1, every allowed direction present, nothing else |
| Rules.RemoveIds | dice/game.js:789 | the filter keeps exactly the dice whose identifier is not removed; `Rules.RemoveIdsAppend` proves they keep their list order |
| Rules.RemoveIdsAppend | dice/game.js:789 | filtering a joined list is filtering each part and joining, so the kept dice stay in list order |
| Rules.SetValue | dice/game.js:808 | only the die with that identifier changes, and only its value |
| Rules.ExplodeSpec | dice/game.js:789 | removing both dice keeps identifiers unique, removes two dice and lowers the score by both values |
| Rules.ReplaceSpec | dice/game.js:801-809 | the replacement keeps identifiers unique, removes one die, changes the score by the difference minus both values, and leaves exactly the updated target and the untouched others |
| Rules.CollisionOutcomeSpec | dice/game.js:775-809 | the result is a valid board with one or two fewer dice and a score lower by twice the smaller value; equal values remove both; otherwise the target stays on its cell with the difference, in 1..5; no other die changes |
| Rules.SortById | dice/game.js:404 | the sorted dice are in identifier order and a permutation of the board |
| Rules.SortedUniqueStrict | dice/game.js:404 | with unique identifiers the sorted order is strictly increasing |
| Play.DirectionTowards | dice/game.js:874-877 | the direction built from a unit offset has exactly those deltas |
| Play.Successor | dice/game.js:409-410 | the next index modulo the count is the following index, or 0 after the last |
| Play.InitialStateInv | dice/game.js:191-202 | the reset state of a valid configuration satisfies the invariant |
| Play.SelectDicePreserves | dice/game.js:608-633 | selecting keeps the invariant |
| Play.SelectDiceSpec | dice/game.js:613-631 | before the game is over, the die with that identifier becomes selected with all its moves and its tile on its cell; an unknown identifier leaves nothing selected; the dice do not change |
| Play.AdvanceConsistent | dice/game.js:716-724 | moving the tile one cell keeps it within reach and parity of the steps taken |
| Play.CollisionKeepsBoard | dice/game.js:775-809 | a collision keeps the board valid and every remaining die on its start cell, and a replacement's target stays on the board |
| Play.HandleDiceCollisionInv | dice/game.js:760-856 | both collision branches, including the keyboard auto-select of the target, restore the invariant |
| Play.FinalizeInv | dice/game.js:737-759 | resolving a landing, with or without a collision, restores the invariant |
| Play.MoveOneStepPreserves | dice/game.js:709-735 | every step keeps the invariant |
| Play.MoveToPositionPreserves | dice/game.js:857-882 | moving towards a clicked cell keeps the invariant |
| Play.CyclePreserves | dice/game.js:394-414 | cycling keeps the invariant |
| Play.MoveOneStepCountsDown | dice/game.js:709-735 | a step without a tile, without moves, or blocked changes nothing; any other step that is not the last moves the tile to the neighbour in the chosen direction, uses exactly one move and leaves the dice, the selection and the input method alone |
| Play.FinalStepOutcome | dice/game.js:728-853 | the die hit by the last step always passes the reach test from the mover's start cell, and the board becomes the collision outcome; the input method is cleared; equal dice leave nothing selected; otherwise, after a keyboard move into a game that goes on, the target is selected with the difference as its moves, and else nothing is selected; with nothing hit the mover is back at its start with all its moves |
| Play.LandingOutcome | dice/game.js:737-853 | resolving a tile that walked the mover's full value either gives the collision outcome, with the selection `Play.CollisionSelection` describes, or returns the mover to its start |
| Play.MoveOneStepShrinksBoard | dice/game.js:709-856 | a step leaves the dice alone or removes one or two of them, lowering the score by at least 2; every die is still on its initial cell |
| Play.MoveToPositionSpec | dice/game.js:857-882 | the answer is true iff a tile with moves left is one cell from the target; false changes nothing; true is exactly the step towards the target, even when that step is blocked |
| Play.GameOverIsFinal | dice/game.js:608-612 | once the game is over, selecting, stepping, clicking and cycling change nothing |
| Play.CycleTargetFollows | dice/game.js:404-413 | the die at the next index follows the selected one in identifier order, wrapping to the smallest |
| Play.CycleRefusedMidMove | dice/game.js:399-402 | once the selected die has taken a step, cycling changes nothing |
| Play.CycleSelectsNextInIdOrder | dice/game.js:394-414 | before a step is taken, cycling selects the next die in identifier order (the smallest when none is selected) with all its moves, and leaves the dice alone |
| DiceGame.Game.constructor | dice/game.js:4-27 | a game over a valid configuration starts in the reset state and satisfies the invariant |
| DiceGame.Game.StartNewGame | dice/game.js:203-216 | a new configuration becomes both the board and the reset target, with nothing selected; when the draws give fewer than six cells nothing changes |
| DiceGame.Game.ResetToInitialState | dice/game.js:191-202 | the fields become the reset state of the initial configuration |
| DiceGame.Game.SelectDice | dice/game.js:608-633 | updates the fields as `Play.SelectDice` and keeps the invariant |
| DiceGame.Game.MoveOneStep | dice/game.js:709-735 | updates the fields as `Play.MoveOneStep` and keeps the invariant |
| DiceGame.Game.FinalizeTileMovement | dice/game.js:737-759 | from any state between steps (`MoveOneStep` calls it once the last move is used), updates the fields as `Play.FinalizeTileMovement` and restores the invariant |
| DiceGame.Game.HandleDiceCollision | dice/game.js:760-774 | updates the fields as `Play.HandleDiceCollision` |
| DiceGame.Game.AnimateDestruction | dice/game.js:775-799 | removes both dice and clears the selection, as `Play.AnimateDestruction` |
| DiceGame.Game.AnimateReplacement | dice/game.js:800-856 | sets the difference, removes the mover, then auto-selects or clears, as `Play.AnimateReplacement` |
| DiceGame.Game.ReturnToStart | dice/game.js:884-911 | reselects the mover at its start with all its moves, as `Play.ReturnToStart` |
| DiceGame.Game.MoveToPosition | dice/game.js:857-882 | answers and updates the fields as `Play.MoveToPosition` and keeps the invariant |
| DiceGame.Game.CycleThroughDice | dice/game.js:394-414 | updates the fields as `Play.CycleThroughDice` and keeps the invariant |
| DiceGame.Game.EncodePuzzleState | dice/game.js:273-282 | the text of a non-empty valid configuration decodes to its positions and values |
| PuzzleText.NumberToString | dice/game.js:278-279 | a written number never contains a comma or a bar; a non-negative one is all digits |
| PuzzleText.ParseNumber | dice/game.js:287-288 | a piece reads as a number iff it is a non-empty string of decimal digits, and the number is then non-negative |
| PuzzleText.ParseNumberString | dice/game.js:287-288 | reading back a written non-negative number gives it again; a negative one is not read |
| PuzzleText.Split | dice/game.js:286-288 | splitting gives at least one piece and no piece holds the separator |
| PuzzleText.SplitJoin | dice/game.js:278-288 | splitting a join gives back the pieces when none holds the separator |
| PuzzleText.ParseAll | dice/game.js:287-288 | reading fails iff some piece is not a number; otherwise one number per piece |
| PuzzleText.DecodePuzzleState | dice/game.js:283-300 | a decoded puzzle has equal lengths, positions in 0..24, values in 1..6 and at least one die; `PuzzleText.DecodeEncodeExact` proves the rejections |
| PuzzleText.DecodeNeedsBar | dice/game.js:285-288 | text with no bar has no values section and does not decode |
| PuzzleText.DecodeEncode | dice/game.js:273-300 | a valid non-empty configuration decodes back from its text to the same two lists |
| PuzzleText.DecodeEncodeExact | dice/game.js:283-300 | the text of any two lists decodes to those lists iff they form a valid, non-empty configuration, and to nothing otherwise (unequal lengths, an off-board position, a value outside 1..6, no dice) |
| PuzzleText.ParseShowAllExact | dice/game.js:287-293 | written numbers read back as the same list iff none is negative, and otherwise the list is rejected |
| PuzzleText.ExtraSectionsIgnored | dice/game.js:286 | anything after a second bar does not change the decoding |
| PuzzleText.EmptyPuzzleDoesNotDecode | dice/game.js:273-290 | the empty configuration encodes to a lone bar, which does not decode |
| PuzzleText.DiceFromPuzzle | dice/game.js:318-323 | the k-th die takes the k-th position and value, with identifier k |
| PuzzleText.DecodedPuzzleLoads | dice/game.js:306-325 | every decoded text loads as a valid board |
| PuzzleText.ShareThenLoad | dice/game.js:273-325 | sharing a board whose identifiers are the list indices and loading the text rebuilds the same dice |
| Setup.Dedup | dice/game.js:44-51 | the chosen cells are pairwise distinct and are exactly the drawn cells |
| Setup.DedupPrefix | dice/game.js:44-51 | stopping the draws early keeps a prefix of the distinct cells |
| Setup.PlaceDice | dice/game.js:40-59 | the loop fails iff the draws name fewer than six distinct cells; otherwise die k has identifier k, value roll+1 and the k-th distinct drawn cell, and the board is valid with six distinct inner positions |
| Scenarios.CollisionScenarios | dice/game.js:775-809 | a 3 landing on a 5 leaves a 2, a finished game scoring 2; two 3s leave an empty board, a finished game scoring 0 |
| Scenarios.ParityScenario | dice/game.js:664-670 | two adjacent 4s fail the reach test both ways |
| Scenarios.CornerNotOver | dice/game.js:671-685 | a cornered 3 passes the reach test towards a 1, so the game is not over |
| Scenarios.CornerBlocked | dice/game.js:689-708 | yet no first step out of that corner is allowed |
| Scenarios.DoubledCellScenario | dice/game.js:746 | with two dice on the landing cell, swapping their order in the list changes which one is hit |
| Scenarios.SingleDieScenario | dice/game.js:671-688 | a lone 6 is a finished game scoring 6 |
| Scenarios.FourDiceScenario | dice/game.js:671-675 | four dice are not a finished game even when no die reaches another |

## Left out

- Rendering and status text (`render`, `getStatusMessage`, `cleanupAnimationClasses`): presentation only.
- DOM event wiring and the keyboard, pointer, touch and drag handlers: user interface. This includes the drag threshold's floating-point `Math.sqrt` and the Escape and drag-end resets. The handlers set `inputMethod`, which the model keeps as a field that the input layer assigns.
- Animation timing: each callback's state update is applied at once. The `delayGameOverCheck` and `dragging` flags only affect the overlay and dragging, so they are not modelled.
- Sharing I/O: `sharePuzzle`, `copyToClipboard`, `showShareFeedback`, `clearUrlParameters` and the URL read in `loadFromUrl`. The decoded text is a parameter instead.
- Base64: `btoa` and `atob` are browser calls. `DiceGame.Game.EncodePuzzleState` returns the text before base64, and `PuzzleText.DecodePuzzleState` starts after `atob`.
- PuzzleText.ParseNumber: accepts only non-empty strings of decimal digits. `parseInt` with no radix is more lenient, and the model rejects all of these inputs that it accepts:
  - leading blanks, as in " 3";
  - trailing junk, as in "3x", read as 3;
  - a sign, as in "+3", read as 3;
  - "-0", read as -0. It passes `p < 0` and so places a die on cell 0;
  - a hexadecimal prefix, as in "0x18", read as 24.
- Setup.PlaceDice: `Math.random` is replaced by the `picks` and `rolls` parameters. The loop stops with None when the draws run out; the source keeps drawing.
- Play.CycleThroughDice: identifiers are compared as numbers. `localeCompare` on `dice-<k>` agrees with this for up to ten dice (`dice-0` to `dice-9`), but orders `dice-10` before `dice-2`.
- Aliasing: `selectedDie` and the targets are references into `this.dice` in the source, while the model copies values. Every update goes through the identifier, so the two agree.
