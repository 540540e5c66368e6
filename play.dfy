/** The interactive stepping machine of the game, on values: selecting a die,
    stepping its travelling tile one cell at a time, resolving the landing,
    cycling the selection and resetting. Each function is one method of the
    game object (`DiceGame.Game` runs the same transitions on its fields);
    timer and animation-frame callbacks are applied at once, in order. */
module Play {
  import opened Wrappers
  import opened Grid
  import opened Rules

  /** How the move in progress was started; only keyboard moves auto-select
      the die a replacement leaves behind. */
  datatype InputMethod = NoInput | Keyboard | Pointer

  /** The tile that travels while a move is built; the die itself stays on its
      cell in the dice list until the move resolves. */
  datatype Tile = Tile(position: Cell, value: int, originalDiceId: DieId)

  datatype GameState = GameState(
    dice: seq<Die>,
    selectedDie: Option<Die>,
    movesRemaining: int,
    transientTile: Option<Tile>,
    inputMethod: InputMethod)

  function StartTile(d: Die): Tile {
    Tile(d.position, d.value, d.id)
  }

  /** `resetToInitialState` (also the state right after construction). */
  function ResetToInitialState(initialDice: seq<Die>): GameState {
    GameState(initialDice, None, 0, None, NoInput)
  }

  /** The five assignments that clear a selection. */
  function Deselect(s: GameState): GameState {
    s.(selectedDie := None, movesRemaining := 0, transientTile := None, inputMethod := NoInput)
  }

  /** `selectDice`: ignored once the game is over; otherwise drops any current
      selection and selects the die with that identifier, if there is one. */
  function SelectDice(s: GameState, diceId: DieId): GameState {
    if GameOver(s.dice) then s
    else
      var cleared := if s.selectedDie.Some? then Deselect(s) else s;
      match FindById(s.dice, diceId)
      case None => cleared
      case Some(d) => cleared.(selectedDie := Some(d), movesRemaining := d.value, transientTile := Some(StartTile(d)))
  }

  /** The guards of `moveOneStep`. */
  predicate StepAllowed(s: GameState, direction: Direction) {
    && s.transientTile.Some?
    && s.movesRemaining > 0
    && CanMoveInDirection(s.dice, s.transientTile.value.position, direction, s.movesRemaining == 1)
  }

  /** The tile moved one cell and one move used up. */
  function Advance(s: GameState, direction: Direction): GameState
    requires StepAllowed(s, direction)
  {
    var tile := s.transientTile.value;
    s.(transientTile := Some(tile.(position := Neighbor(tile.position, direction))),
       movesRemaining := s.movesRemaining - 1)
  }

  /** `moveOneStep`: a blocked or impossible step changes nothing; the step
      that uses the last move resolves the landing. */
  function MoveOneStep(s: GameState, direction: Direction): GameState {
    if !StepAllowed(s, direction) then s
    else
      var moved := Advance(s, direction);
      if moved.movesRemaining == 0 then FinalizeTileMovement(moved) else moved
  }

  /** `finalizeTileMovement`: the first other die on the landing cell is hit;
      with none there (an empty cell, or the mover's own start cell) the die
      goes back to its start, selected again with all its moves. */
  function FinalizeTileMovement(s: GameState): GameState {
    if s.transientTile.None? || s.selectedDie.None? then s
    else
      var movingDice := s.selectedDie.value;
      match FindCollisionTarget(s.dice, s.transientTile.value.position, movingDice.id)
      case Some(targetDice) => HandleDiceCollision(s, movingDice, targetDice)
      case None => ReturnToStart(s)
  }

  /** The state update of `returnToStart`'s delayed callback. */
  function ReturnToStart(s: GameState): GameState {
    if s.selectedDie.None? then s
    else
      var d := s.selectedDie.value;
      s.(movesRemaining := d.value, transientTile := Some(StartTile(d)))
  }

  function HandleDiceCollision(s: GameState, movingDice: Die, targetDice: Die): GameState {
    if movingDice.value == targetDice.value then AnimateDestruction(s, movingDice, targetDice)
    else AnimateReplacement(s, movingDice, targetDice)
  }

  /** The state update of `animateDestruction`'s callback. */
  function AnimateDestruction(s: GameState, movingDice: Die, targetDice: Die): GameState {
    Deselect(s.(dice := Explode(s.dice, movingDice, targetDice)))
  }

  /** `animateReplacement` and its callback: the target takes the difference,
      the mover leaves; after a keyboard move the target is selected next
      unless the game is now over. */
  function AnimateReplacement(s: GameState, movingDice: Die, targetDice: Die): GameState {
    var difference := Abs(movingDice.value - targetDice.value);
    if difference == 0 then AnimateDestruction(s, movingDice, targetDice)
    else
      var dice := Replace(s.dice, movingDice, targetDice);
      var updated := targetDice.(value := difference);
      if !GameOver(dice) && s.inputMethod == Keyboard then
        GameState(dice, Some(updated), updated.value, Some(StartTile(updated)), NoInput)
      else
        GameState(dice, None, 0, None, NoInput)
  }

  /** The direction whose deltas are the given unit offset (`moveToPosition`'s
      sign computation). */
  function DirectionTowards(rowDiff: int, colDiff: int): (d: Direction)
    requires Abs(rowDiff) + Abs(colDiff) == 1
    ensures d.DeltaRow() == rowDiff && d.DeltaCol() == colDiff
  {
    if rowDiff < 0 then Up else if rowDiff > 0 then Down else if colDiff < 0 then Left else Right
  }

  /** `moveToPosition`: only a target one cell from the tile is accepted. Its
      answer is true once the target is adjacent, even if the step itself is
      then blocked. */
  function MoveToPosition(s: GameState, targetPosition: Cell): (bool, GameState) {
    if s.transientTile.None? || s.movesRemaining <= 0 then (false, s)
    else
      var current := PositionToRowCol(s.transientTile.value.position);
      var target := PositionToRowCol(targetPosition);
      var rowDiff := target.0 - current.0;
      var colDiff := target.1 - current.1;
      if Abs(rowDiff) + Abs(colDiff) != 1 then (false, s)
      else (true, MoveOneStep(s, DirectionTowards(rowDiff, colDiff)))
  }

  /** `cycleThroughDice`: selects the die after the selected one in identifier
      order, wrapping round; only before the selected die has taken a step. */
  function CycleThroughDice(s: GameState): GameState {
    if GameOver(s.dice) then s
    else if s.selectedDie.Some? && s.movesRemaining < s.selectedDie.value.value then s
    else
      var sortedDice := SortById(s.dice);
      if |sortedDice| == 0 then s
      else
        SelectDice(s, sortedDice[NextIndex(sortedDice, s.selectedDie)].id)
  }

  /** The index in `sortedDice` to select next: after the selected die, or 0. */
  function NextIndex(sortedDice: seq<Die>, selectedDie: Option<Die>): (k: int)
    requires |sortedDice| > 0
    ensures 0 <= k < |sortedDice|
  {
    if selectedDie.Some? then Successor(IndexOfId(sortedDice, selectedDie.value.id), |sortedDice|) else 0
  }

  /** The index after `k` among `n`, wrapping round; `-1` (not found) gives 0. */
  function Successor(k: int, n: int): (r: int)
    requires -1 <= k < n && n > 0
    ensures 0 <= r < n
    ensures r == if k + 1 < n then k + 1 else 0
  {
    (k + 1) % n
  }

  // ---------------------------------------------------------------------
  // The invariant

  /** Distance and parity of a cell reached by a walk of k steps. */
  predicate Walked(start: Cell, at: Cell, k: int) {
    TaxicabDistance(start, at) <= k && TaxicabDistance(start, at) % 2 == k % 2
  }

  /** Every die still on the board stands where the puzzle put it. */
  predicate FromInitial(dice: seq<Die>, initialDice: seq<Die>) {
    forall d :: d in dice ==>
      FindById(initialDice, d.id).Some? && FindById(initialDice, d.id).value.position == d.position
  }

  /** What holds between the steps of a move, including the instant the last
      move has been used and the landing is not yet resolved. */
  ghost predicate Consistent(s: GameState, initialDice: seq<Die>) {
    && ValidBoard(s.dice)
    && FromInitial(s.dice, initialDice)
    && (s.selectedDie.Some? <==> s.transientTile.Some?)
    && (s.selectedDie.None? ==> s.movesRemaining == 0)
    && (s.selectedDie.Some? ==>
          var mover := s.selectedDie.value;
          var tile := s.transientTile.value;
          && mover in s.dice
          && !GameOver(s.dice)
          && tile.originalDiceId == mover.id && tile.value == mover.value
          && 0 <= s.movesRemaining <= mover.value
          && Walked(mover.position, tile.position, mover.value - s.movesRemaining))
  }

  /** The invariant between user actions: a selected die always has a move left. */
  ghost predicate Inv(s: GameState, initialDice: seq<Die>) {
    Consistent(s, initialDice) && (s.selectedDie.Some? ==> s.movesRemaining >= 1)
  }

  lemma FindByIdMember(dice: seq<Die>, d: Die)
    requires UniqueIds(dice) && d in dice
    ensures FindById(dice, d.id) == Some(d)
  {
    UniqueMembers(dice, FindById(dice, d.id).value, d);
  }

  lemma InitialStateInv(initialDice: seq<Die>)
    requires ValidBoard(initialDice)
    ensures Inv(ResetToInitialState(initialDice), initialDice)
  {
    forall d | d in initialDice
      ensures FindById(initialDice, d.id).Some? && FindById(initialDice, d.id).value.position == d.position
    {
      FindByIdMember(initialDice, d);
    }
  }

  lemma SelectDicePreserves(s: GameState, initialDice: seq<Die>, diceId: DieId)
    requires Inv(s, initialDice)
    ensures Inv(SelectDice(s, diceId), initialDice)
  {
  }

  /** What selecting does before the game is over: the die with that
      identifier becomes selected with all its moves and its tile on its
      cell; an unknown identifier leaves nothing selected. The dice do not
      change. */
  lemma SelectDiceSpec(s: GameState, initialDice: seq<Die>, diceId: DieId)
    requires Inv(s, initialDice) && !GameOver(s.dice)
    ensures SelectDice(s, diceId).dice == s.dice
    ensures forall d :: d in s.dice && d.id == diceId ==>
      var t := SelectDice(s, diceId);
      t.selectedDie == Some(d) && t.movesRemaining == d.value && t.transientTile == Some(StartTile(d))
    ensures (forall d :: d in s.dice ==> d.id != diceId) ==>
      var t := SelectDice(s, diceId);
      t.selectedDie.None? && t.movesRemaining == 0 && t.transientTile.None?
  {
    forall d | d in s.dice && d.id == diceId
      ensures SelectDice(s, diceId).selectedDie == Some(d)
    {
      FindByIdMember(s.dice, d);
    }
  }

  lemma AdvanceConsistent(s: GameState, initialDice: seq<Die>, direction: Direction)
    requires Inv(s, initialDice) && StepAllowed(s, direction)
    ensures Consistent(Advance(s, direction), initialDice)
  {
    var mover := s.selectedDie.value;
    var tile := s.transientTile.value;
    var next := Neighbor(tile.position, direction);
    StepChangesDistance(tile.position, direction, mover.position);
    TaxicabSymmetric(tile.position, mover.position);
    TaxicabSymmetric(next, mover.position);
    OneApart(TaxicabDistance(mover.position, next), TaxicabDistance(mover.position, tile.position), mover.value - s.movesRemaining);
  }

  lemma SubBoardFromInitial(dice: seq<Die>, dice': seq<Die>, initialDice: seq<Die>)
    requires FromInitial(dice, initialDice)
    requires forall d :: d in dice' ==> exists e :: e in dice && e.id == d.id && e.position == d.position
    ensures FromInitial(dice', initialDice)
  {
    forall d | d in dice'
      ensures FindById(initialDice, d.id).Some? && FindById(initialDice, d.id).value.position == d.position
    {
      var e :| e in dice && e.id == d.id && e.position == d.position;
    }
  }

  lemma DeselectedInv(dice: seq<Die>, initialDice: seq<Die>, input: InputMethod)
    requires ValidBoard(dice) && FromInitial(dice, initialDice)
    ensures Inv(GameState(dice, None, 0, None, input), initialDice)
  {
  }

  lemma SelectedAtStartInv(dice: seq<Die>, d: Die, initialDice: seq<Die>, input: InputMethod)
    requires ValidBoard(dice) && FromInitial(dice, initialDice) && d in dice && !GameOver(dice)
    ensures Inv(GameState(dice, Some(d), d.value, Some(StartTile(d)), input), initialDice)
  {
  }

  /** A collision keeps the board valid and every remaining die on its start cell. */
  lemma CollisionKeepsBoard(dice: seq<Die>, mover: Die, target: Die, initialDice: seq<Die>)
    requires ValidBoard(dice) && FromInitial(dice, initialDice)
    requires mover in dice && target in dice && mover.id != target.id
    ensures ValidBoard(CollisionOutcome(dice, mover, target))
    ensures FromInitial(CollisionOutcome(dice, mover, target), initialDice)
    ensures mover.value != target.value ==>
      target.(value := Abs(mover.value - target.value)) in CollisionOutcome(dice, mover, target)
  {
    CollisionOutcomeSpec(dice, mover, target);
    var r := CollisionOutcome(dice, mover, target);
    forall d | d in r ensures exists e :: e in dice && e.id == d.id && e.position == d.position {
      if d !in dice {
        assert d == target.(value := Abs(mover.value - target.value));
      }
    }
    SubBoardFromInitial(dice, r, initialDice);
  }

  lemma HandleDiceCollisionInv(s: GameState, mover: Die, target: Die, initialDice: seq<Die>)
    requires ValidBoard(s.dice) && FromInitial(s.dice, initialDice)
    requires mover in s.dice && target in s.dice && mover.id != target.id
    ensures Inv(HandleDiceCollision(s, mover, target), initialDice)
  {
    CollisionKeepsBoard(s.dice, mover, target, initialDice);
    var r := CollisionOutcome(s.dice, mover, target);
    if mover.value == target.value {
      assert HandleDiceCollision(s, mover, target) == GameState(r, None, 0, None, NoInput);
      DeselectedInv(r, initialDice, NoInput);
    } else {
      var updated := target.(value := Abs(mover.value - target.value));
      if !GameOver(r) && s.inputMethod == Keyboard {
        SelectedAtStartInv(r, updated, initialDice, NoInput);
      } else {
        DeselectedInv(r, initialDice, NoInput);
      }
    }
  }

  /** Resolving a landing, with or without a collision, restores the invariant. */
  lemma FinalizeInv(s: GameState, initialDice: seq<Die>)
    requires Consistent(s, initialDice)
    ensures Inv(FinalizeTileMovement(s), initialDice)
  {
    if s.transientTile.Some? && s.selectedDie.Some? {
      var mover := s.selectedDie.value;
      match FindCollisionTarget(s.dice, s.transientTile.value.position, mover.id)
      case None =>
        assert ReturnToStart(s) == GameState(s.dice, Some(mover), mover.value, Some(StartTile(mover)), s.inputMethod);
        SelectedAtStartInv(s.dice, mover, initialDice, s.inputMethod);
      case Some(target) =>
        HandleDiceCollisionInv(s, mover, target, initialDice);
    }
  }

  lemma MoveOneStepPreserves(s: GameState, initialDice: seq<Die>, direction: Direction)
    requires Inv(s, initialDice)
    ensures Inv(MoveOneStep(s, direction), initialDice)
  {
    if StepAllowed(s, direction) {
      AdvanceConsistent(s, initialDice, direction);
      if Advance(s, direction).movesRemaining == 0 {
        FinalizeInv(Advance(s, direction), initialDice);
      }
    }
  }

  lemma MoveToPositionPreserves(s: GameState, initialDice: seq<Die>, targetPosition: Cell)
    requires Inv(s, initialDice)
    ensures Inv(MoveToPosition(s, targetPosition).1, initialDice)
  {
    if s.transientTile.Some? && s.movesRemaining > 0 {
      var current := PositionToRowCol(s.transientTile.value.position);
      var target := PositionToRowCol(targetPosition);
      if Abs(target.0 - current.0) + Abs(target.1 - current.1) == 1 {
        MoveOneStepPreserves(s, initialDice, DirectionTowards(target.0 - current.0, target.1 - current.1));
      }
    }
  }

  lemma CyclePreserves(s: GameState, initialDice: seq<Die>)
    requires Inv(s, initialDice)
    ensures Inv(CycleThroughDice(s), initialDice)
  {
    if !GameOver(s.dice) && !(s.selectedDie.Some? && s.movesRemaining < s.selectedDie.value.value) {
      var sortedDice := SortById(s.dice);
      if |sortedDice| > 0 {
        SelectDicePreserves(s, initialDice, sortedDice[NextIndex(sortedDice, s.selectedDie)].id);
      }
    }
  }

  // ---------------------------------------------------------------------
  // Properties of the stepping machine

  /** One step: blocked or impossible steps change nothing; any other step
      that is not the last moves the tile to the neighbour in the chosen
      direction, uses exactly one move and leaves the board, the selection
      and the input method alone. */
  lemma MoveOneStepCountsDown(s: GameState, direction: Direction)
    ensures !StepAllowed(s, direction) ==> MoveOneStep(s, direction) == s
    ensures StepAllowed(s, direction) && s.movesRemaining > 1 ==>
      var t := MoveOneStep(s, direction);
      var tile := s.transientTile.value;
      && t.dice == s.dice && t.selectedDie == s.selectedDie
      && t.movesRemaining == s.movesRemaining - 1
      && t.transientTile == Some(tile.(position := Neighbor(tile.position, direction)))
      && t.inputMethod == s.inputMethod
  {
  }

  /** What a collision leaves selected, with `s` the state before it and `t`
      the state after: equal dice leave nothing selected; otherwise, after a
      keyboard move into a game that goes on, the target is selected with
      its new value as its moves; in every other case nothing is selected.
      The input method is cleared in all cases. */
  ghost predicate CollisionSelection(s: GameState, mover: Die, target: Die, t: GameState) {
    var diff := Abs(mover.value - target.value);
    var updated := target.(value := diff);
    && t.inputMethod == NoInput
    && if mover.value != target.value && s.inputMethod == Keyboard && !GameOver(t.dice) then
         && t.selectedDie == Some(updated)
         && t.movesRemaining == diff
         && t.transientTile == Some(StartTile(updated))
       else
         && t.selectedDie.None?
         && t.movesRemaining == 0
         && t.transientTile.None?
  }

  /** The step that uses the last move lands within the mover's reach: a die
      it hits always passed the reach filter from the mover's start cell, and
      the board becomes the collision outcome. With nothing hit, the die is
      back at its start with all its moves. */
  lemma FinalStepOutcome(s: GameState, initialDice: seq<Die>, direction: Direction)
    requires Inv(s, initialDice) && StepAllowed(s, direction) && s.movesRemaining == 1
    ensures var mover := s.selectedDie.value;
      var landing := Neighbor(s.transientTile.value.position, direction);
      var t := MoveOneStep(s, direction);
      match FindCollisionTarget(s.dice, landing, mover.id)
      case Some(target) =>
        && CanDiceReachDice(mover, target)
        && t.dice == CollisionOutcome(s.dice, mover, target)
        && CollisionSelection(s, mover, target, t)
      case None =>
        && t.dice == s.dice
        && t.selectedDie == Some(mover)
        && t.movesRemaining == mover.value
        && t.transientTile == Some(StartTile(mover))
  {
    AdvanceConsistent(s, initialDice, direction);
    LandingOutcome(Advance(s, direction), s.selectedDie.value);
  }

  /** Resolving a tile that has walked the mover's full value. */
  lemma LandingOutcome(m: GameState, mover: Die)
    requires m.selectedDie == Some(mover) && m.transientTile.Some?
    requires Walked(mover.position, m.transientTile.value.position, mover.value)
    ensures var t := FinalizeTileMovement(m);
      match FindCollisionTarget(m.dice, m.transientTile.value.position, mover.id)
      case Some(target) =>
        && CanDiceReachDice(mover, target)
        && t.dice == CollisionOutcome(m.dice, mover, target)
        && CollisionSelection(m, mover, target, t)
      case None =>
        && t.dice == m.dice
        && t.selectedDie == Some(mover)
        && t.movesRemaining == mover.value
        && t.transientTile == Some(StartTile(mover))
  {
    var landing := m.transientTile.value.position;
    match FindCollisionTarget(m.dice, landing, mover.id)
    case Some(target) =>
      assert target.position == landing;
      assert FinalizeTileMovement(m) == HandleDiceCollision(m, mover, target);
    case None =>
      assert FinalizeTileMovement(m) == ReturnToStart(m);
  }

  /** The board only changes through a collision, which removes one or two
      dice and lowers the score by at least 2; die positions never change. */
  lemma MoveOneStepShrinksBoard(s: GameState, initialDice: seq<Die>, direction: Direction)
    requires Inv(s, initialDice)
    ensures var t := MoveOneStep(s, direction);
      || t.dice == s.dice
      || (&& |s.dice| - 2 <= |t.dice| < |s.dice|
          && FinalScore(t.dice) <= FinalScore(s.dice) - 2)
    ensures FromInitial(MoveOneStep(s, direction).dice, initialDice)
  {
    MoveOneStepPreserves(s, initialDice, direction);
    if StepAllowed(s, direction) && s.movesRemaining == 1 {
      FinalStepOutcome(s, initialDice, direction);
      var mover := s.selectedDie.value;
      var landing := Neighbor(s.transientTile.value.position, direction);
      match FindCollisionTarget(s.dice, landing, mover.id)
      case None =>
      case Some(target) =>
        CollisionOutcomeSpec(s.dice, mover, target);
    }
  }

  /** `moveToPosition` answers false and changes nothing unless a tile is
      travelling with moves left and the target is one cell away; then it is
      exactly the step in that direction. */
  lemma MoveToPositionSpec(s: GameState, targetPosition: Cell)
    ensures var r := MoveToPosition(s, targetPosition);
      && (r.0 <==> s.transientTile.Some? && s.movesRemaining > 0
                   && TaxicabDistance(s.transientTile.value.position, targetPosition) == 1)
      && (!r.0 ==> r.1 == s)
      && (r.0 ==> exists d :: HasNeighbor(s.transientTile.value.position, d)
                    && Neighbor(s.transientTile.value.position, d) == targetPosition
                    && r.1 == MoveOneStep(s, d))
  {
    if s.transientTile.Some? && s.movesRemaining > 0 {
      var p := s.transientTile.value.position;
      var current := PositionToRowCol(p);
      var target := PositionToRowCol(targetPosition);
      if Abs(target.0 - current.0) + Abs(target.1 - current.1) == 1 {
        var d := DirectionTowards(target.0 - current.0, target.1 - current.1);
        assert HasNeighbor(p, d);
        assert PositionToRowCol(Neighbor(p, d)) == target;
        assert Neighbor(p, d) == targetPosition;
      }
    }
  }

  /** Once the game is over nothing can be selected, so no action changes the state. */
  lemma GameOverIsFinal(s: GameState, initialDice: seq<Die>)
    requires Inv(s, initialDice) && GameOver(s.dice)
    ensures forall id :: SelectDice(s, id) == s
    ensures forall d :: MoveOneStep(s, d) == s
    ensures forall p :: MoveToPosition(s, p) == (false, s)
    ensures CycleThroughDice(s) == s
  {
  }

  /** The die `next` follows `current` in identifier order among `dice`,
      wrapping round to the smallest identifier. */
  ghost predicate NextInIdOrder(dice: seq<Die>, current: Option<Die>, next: Die) {
    if current.Some? && exists e :: e in dice && e.id > current.value.id then
      && next.id > current.value.id
      && forall e :: e in dice && e.id > current.value.id ==> next.id <= e.id
    else
      forall e :: e in dice ==> next.id <= e.id
  }

  /** Where a die's identifier sits relative to the k-th of the sorted dice. */
  lemma SortedNeighbours(dice: seq<Die>, k: int, e: Die)
    requires UniqueIds(dice) && 0 <= k < |dice| && e in dice
    ensures SortById(dice)[0].id <= e.id
    ensures e.id > SortById(dice)[k].id ==> k + 1 < |dice| && SortById(dice)[k + 1].id <= e.id
  {
    var sorted := SortById(dice);
    assert e in sorted;
    var m :| 0 <= m < |sorted| && sorted[m] == e;
    if e.id > sorted[k].id {
      assert m > k;
    }
  }

  /** Tab cycling is refused once the selected die has taken a step: the
      state does not change. */
  lemma CycleRefusedMidMove(s: GameState)
    requires s.selectedDie.Some? && s.movesRemaining < s.selectedDie.value.value
    ensures CycleThroughDice(s) == s
  {
  }

  /** Tab cycling, before a step is taken, selects the next die in
      identifier order (the smallest when none is selected) with all its moves. */
  lemma CycleSelectsNextInIdOrder(s: GameState, initialDice: seq<Die>)
    requires Inv(s, initialDice) && !GameOver(s.dice)
    requires s.selectedDie.None? || s.movesRemaining == s.selectedDie.value.value
    ensures var t := CycleThroughDice(s);
      && t.dice == s.dice
      && t.selectedDie.Some? && t.selectedDie.value in s.dice
      && t.movesRemaining == t.selectedDie.value.value
      && t.transientTile == Some(StartTile(t.selectedDie.value))
      && NextInIdOrder(s.dice, s.selectedDie, t.selectedDie.value)
  {
    var sorted := SortById(s.dice);
    assert |sorted| > 0;
    var d := sorted[NextIndex(sorted, s.selectedDie)];
    CycleTargetFollows(s.dice, s.selectedDie);
    FindByIdMember(s.dice, d);
  }

  /** The die at `NextIndex` follows the selected one in identifier order. */
  lemma CycleTargetFollows(dice: seq<Die>, selectedDie: Option<Die>)
    requires UniqueIds(dice) && |dice| > 0
    requires selectedDie.Some? ==> selectedDie.value in dice
    ensures SortById(dice)[NextIndex(SortById(dice), selectedDie)] in dice
    ensures NextInIdOrder(dice, selectedDie, SortById(dice)[NextIndex(SortById(dice), selectedDie)])
  {
    var sorted := SortById(dice);
    var next := NextIndex(sorted, selectedDie);
    assert sorted[next] in sorted;
    if selectedDie.None? {
      SmallestFirst(dice);
    } else {
      var c := selectedDie.value;
      var k := IndexOfId(sorted, c.id);
      assert k >= 0 by {
        assert c in sorted;
      }
      if k + 1 < |sorted| {
        assert next == k + 1;
        FollowsAt(dice, c, k);
      } else {
        assert next == 0;
        WrapsAt(dice, c, k);
      }
    }
  }

  /** With nothing selected the smallest identifier comes first. */
  lemma SmallestFirst(dice: seq<Die>)
    requires UniqueIds(dice) && |dice| > 0
    ensures NextInIdOrder(dice, None, SortById(dice)[0])
  {
    forall e | e in dice ensures SortById(dice)[0].id <= e.id {
      SortedNeighbours(dice, 0, e);
    }
  }

  /** The die after the selected one in sorted order is the next larger identifier. */
  lemma FollowsAt(dice: seq<Die>, c: Die, k: int)
    requires UniqueIds(dice) && 0 <= k && k + 1 < |dice|
    requires SortById(dice)[k].id == c.id
    ensures NextInIdOrder(dice, Some(c), SortById(dice)[k + 1])
  {
    var sorted := SortById(dice);
    SortedUniqueStrict(dice, k, k + 1);
    assert sorted[k + 1] in sorted;
    forall e | e in dice && e.id > c.id ensures sorted[k + 1].id <= e.id {
      SortedNeighbours(dice, k, e);
    }
  }

  /** After the last die in sorted order, cycling wraps to the smallest. */
  lemma WrapsAt(dice: seq<Die>, c: Die, k: int)
    requires UniqueIds(dice) && 0 <= k && k + 1 == |dice|
    requires SortById(dice)[k].id == c.id
    ensures NextInIdOrder(dice, Some(c), SortById(dice)[0])
  {
    forall e | e in dice ensures e.id <= c.id && SortById(dice)[0].id <= e.id {
      SortedNeighbours(dice, k, e);
      SortedNeighbours(dice, 0, e);
    }
  }
}
