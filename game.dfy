/** The game object: the dice on the board, the configuration a reset returns
    to, and the state of the move in progress. Each state-changing method
    other than `StartNewGame` performs the transition of the same name in
    `Play` on these fields. Selecting, stepping, clicking, cycling and reset
    keep the invariant `Play.Inv`; the landing steps called from
    `FinalizeTileMovement` require nothing, and `FinalizeTileMovement`
    restores the invariant after them. `StartNewGame` goes through
    `Setup.PlaceDice`, and `EncodePuzzleState` is a function of the fields. */
module DiceGame {
  import opened Wrappers
  import opened Grid
  import opened Rules
  import Play
  import PuzzleText
  import Setup

  class Game {
    var dice: seq<Die>
    var initialDice: seq<Die>
    var selectedDie: Option<Die>
    var movesRemaining: int
    var transientTile: Option<Play.Tile>
    /** Set by the input layer before a keyboard or pointer step. */
    var inputMethod: Play.InputMethod

    /** The fields that make up the move state, as one value. */
    function State(): Play.GameState
      reads this
    {
      Play.GameState(dice, selectedDie, movesRemaining, transientTile, inputMethod)
    }

    ghost predicate Valid()
      reads this
    {
      ValidBoard(initialDice) && Play.Inv(State(), initialDice)
    }

    /** A game over a configuration produced by `placeDice` or `loadFromUrl`. */
    constructor (initial: seq<Die>)
      requires ValidBoard(initial)
      ensures Valid()
      ensures initialDice == initial
      ensures State() == Play.ResetToInitialState(initial)
    {
      dice := initial;
      initialDice := initial;
      selectedDie := None;
      movesRemaining := 0;
      transientTile := None;
      inputMethod := Play.NoInput;
      new;
      Play.InitialStateInv(initial);
    }

    method ResetToInitialState()
      requires Valid()
      modifies this
      ensures Valid()
      ensures initialDice == old(initialDice)
      ensures State() == Play.ResetToInitialState(initialDice)
    {
      dice := initialDice;
      selectedDie := None;
      movesRemaining := 0;
      transientTile := None;
      inputMethod := Play.NoInput;
      Play.InitialStateInv(initialDice);
    }

    /** `startNewGame`: a fresh `placeDice` configuration becomes both the
        board and the reset target, with nothing selected. */
    method StartNewGame(picks: seq<nat>, rolls: seq<int>) returns (started: bool)
      requires Valid()
      requires forall k :: 0 <= k < |picks| ==> picks[k] < |InnerCells|
      requires |rolls| >= Setup.DiceCount && forall k :: 0 <= k < |rolls| ==> 0 <= rolls[k] < MaxDieValue
      modifies this
      ensures Valid()
      ensures started <==> |Setup.Dedup(Setup.Chosen(picks))| >= Setup.DiceCount
      ensures started ==> |initialDice| == Setup.DiceCount && forall k :: 0 <= k < Setup.DiceCount ==>
        initialDice[k] == Die(k, rolls[k] + 1, Setup.Dedup(Setup.Chosen(picks))[k])
      ensures started ==> State() == Play.ResetToInitialState(initialDice)
      ensures !started ==> initialDice == old(initialDice) && State() == old(State())
    {
      var placed := Setup.PlaceDice(picks, rolls);
      if placed.None? {
        return false;
      }
      dice := placed.value;
      initialDice := placed.value;
      selectedDie := None;
      movesRemaining := 0;
      transientTile := None;
      inputMethod := Play.NoInput;
      Play.InitialStateInv(initialDice);
      return true;
    }

    method SelectDice(diceId: DieId)
      requires Valid()
      modifies this
      ensures Valid()
      ensures initialDice == old(initialDice)
      ensures State() == Play.SelectDice(old(State()), diceId)
    {
      ghost var before := State();
      Play.SelectDicePreserves(before, initialDice, diceId);
      var over := IsGameOver(dice);
      if over {
        return;
      }
      if selectedDie.Some? {
        selectedDie := None;
        movesRemaining := 0;
        transientTile := None;
        inputMethod := Play.NoInput;
      }
      var found := FindById(dice, diceId);
      if found.Some? {
        var d := found.value;
        selectedDie := Some(d);
        movesRemaining := d.value;
        transientTile := Some(Play.Tile(d.position, d.value, d.id));
      }
    }

    method MoveOneStep(direction: Direction)
      requires Valid()
      modifies this
      ensures Valid()
      ensures initialDice == old(initialDice)
      ensures State() == Play.MoveOneStep(old(State()), direction)
    {
      ghost var before := State();
      ghost var init := initialDice;
      assert Play.Inv(before, init);
      if transientTile.None? || movesRemaining <= 0 {
        return;
      }
      var currentPosition := transientTile.value.position;
      var isLastMove := movesRemaining == 1;
      if !CanMoveInDirection(dice, currentPosition, direction, isLastMove) {
        return;
      }
      var current := PositionToRowCol(currentPosition);
      var newPosition := RowColToPosition(current.0 + direction.DeltaRow(), current.1 + direction.DeltaCol());
      assert newPosition == Neighbor(currentPosition, direction);
      transientTile := Some(transientTile.value.(position := newPosition));
      movesRemaining := movesRemaining - 1;
      assert State() == Play.Advance(before, direction);
      if movesRemaining == 0 {
        Play.AdvanceConsistent(before, init, direction);
        FinalizeTileMovement();
      } else {
        assert State() == Play.MoveOneStep(before, direction);
        Play.MoveOneStepPreserves(before, init, direction);
      }
    }

    /** Resolves the tile's landing, from any state between steps;
        `MoveOneStep` calls it once the last move is used. */
    method FinalizeTileMovement()
      requires ValidBoard(initialDice) && Play.Consistent(State(), initialDice)
      modifies this
      ensures Valid()
      ensures initialDice == old(initialDice)
      ensures State() == Play.FinalizeTileMovement(old(State()))
    {
      Play.FinalizeInv(State(), initialDice);
      if transientTile.None? || selectedDie.None? {
        return;
      }
      var finalPosition := transientTile.value.position;
      var movingDice := selectedDie.value;
      var targetDice := FindCollisionTarget(dice, finalPosition, movingDice.id);
      if targetDice.Some? {
        HandleDiceCollision(movingDice, targetDice.value);
      } else {
        ReturnToStart();
      }
    }

    method HandleDiceCollision(movingDice: Die, targetDice: Die)
      modifies this
      ensures initialDice == old(initialDice)
      ensures State() == Play.HandleDiceCollision(old(State()), movingDice, targetDice)
    {
      if movingDice.value == targetDice.value {
        AnimateDestruction(movingDice, targetDice);
      } else {
        AnimateReplacement(movingDice, targetDice);
      }
    }

    method AnimateDestruction(movingDice: Die, targetDice: Die)
      modifies this
      ensures initialDice == old(initialDice)
      ensures State() == Play.AnimateDestruction(old(State()), movingDice, targetDice)
    {
      dice := RemoveIds(dice, {movingDice.id, targetDice.id});
      selectedDie := None;
      movesRemaining := 0;
      transientTile := None;
      inputMethod := Play.NoInput;
    }

    method AnimateReplacement(movingDice: Die, targetDice: Die)
      modifies this
      ensures initialDice == old(initialDice)
      ensures State() == Play.AnimateReplacement(old(State()), movingDice, targetDice)
    {
      var difference := Abs(movingDice.value - targetDice.value);
      if difference == 0 {
        AnimateDestruction(movingDice, targetDice);
        return;
      }
      ghost var before := State();
      var updated := targetDice.(value := difference);
      dice := RemoveIds(SetValue(dice, targetDice.id, difference), {movingDice.id});
      assert dice == Replace(before.dice, movingDice, targetDice);
      transientTile := None;
      var over := IsGameOver(dice);
      if !over && inputMethod == Play.Keyboard {
        selectedDie := Some(updated);
        movesRemaining := updated.value;
        transientTile := Some(Play.StartTile(updated));
      } else {
        selectedDie := None;
        movesRemaining := 0;
        transientTile := None;
        inputMethod := Play.NoInput;
      }
      inputMethod := Play.NoInput;
    }

    method ReturnToStart()
      modifies this
      ensures initialDice == old(initialDice)
      ensures State() == Play.ReturnToStart(old(State()))
    {
      if selectedDie.None? {
        return;
      }
      var returningDice := selectedDie.value;
      movesRemaining := returningDice.value;
      transientTile := Some(Play.Tile(returningDice.position, returningDice.value, returningDice.id));
    }

    method MoveToPosition(targetPosition: Cell) returns (moved: bool)
      requires Valid()
      modifies this
      ensures Valid()
      ensures initialDice == old(initialDice)
      ensures (moved, State()) == Play.MoveToPosition(old(State()), targetPosition)
    {
      ghost var before := State();
      Play.MoveToPositionPreserves(before, initialDice, targetPosition);
      if transientTile.None? || movesRemaining <= 0 {
        return false;
      }
      var current := PositionToRowCol(transientTile.value.position);
      var target := PositionToRowCol(targetPosition);
      var rowDiff := target.0 - current.0;
      var colDiff := target.1 - current.1;
      if Abs(rowDiff) + Abs(colDiff) != 1 {
        return false;
      }
      var direction := if rowDiff < 0 then Up else if rowDiff > 0 then Down else if colDiff < 0 then Left else Right;
      MoveOneStep(direction);
      return true;
    }

    method CycleThroughDice()
      requires Valid()
      modifies this
      ensures Valid()
      ensures initialDice == old(initialDice)
      ensures State() == Play.CycleThroughDice(old(State()))
    {
      var over := IsGameOver(dice);
      if over {
        return;
      }
      if selectedDie.Some? && movesRemaining < selectedDie.value.value {
        return;
      }
      var sortedDice := SortById(dice);
      if |sortedDice| == 0 {
        return;
      }
      var nextIndex := 0;
      if selectedDie.Some? {
        var currentIndex := IndexOfId(sortedDice, selectedDie.value.id);
        nextIndex := Play.Successor(currentIndex, |sortedDice|);
      }
      assert nextIndex == Play.NextIndex(sortedDice, selectedDie);
      SelectDice(sortedDice[nextIndex].id);
    }

    /** `encodePuzzleState` before base64: a configuration of at least one
        die decodes back to its positions and values. */
    function EncodePuzzleState(): (text: string)
      reads this
      ensures ValidBoard(initialDice) && |initialDice| >= 1 ==>
        PuzzleText.DecodePuzzleState(text)
          == Some(PuzzleText.PuzzleData(PuzzleText.Positions(initialDice), PuzzleText.Values(initialDice)))
    {
      var positions := PuzzleText.Positions(initialDice);
      var values := PuzzleText.Values(initialDice);
      var text := PuzzleText.EncodePuzzleText(positions, values);
      if ValidBoard(initialDice) && |initialDice| >= 1 then
        assert forall k :: 0 <= k < |values| ==> initialDice[k] in initialDice;
        PuzzleText.DecodeEncode(positions, values);
        text
      else
        text
    }
  }
}
