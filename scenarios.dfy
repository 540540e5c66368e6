/** Small boards on which the rules give their answers outright. */
module Scenarios {
  import opened Wrappers
  import opened Grid
  import opened Rules

  /** A 3 landing on a 5 leaves a 2 on the 5's cell; two 3s destroy each
      other. Either way the game is then over: one die scoring 2, or an
      empty board scoring 0. */
  lemma CollisionScenarios()
    ensures CanDiceReachDice(Die(0, 3, 0), Die(1, 5, 3))
    ensures CollisionOutcome([Die(0, 3, 0), Die(1, 5, 3)], Die(0, 3, 0), Die(1, 5, 3)) == [Die(1, 2, 3)]
    ensures GameOver([Die(1, 2, 3)]) && FinalScore([Die(1, 2, 3)]) == 2
    ensures CollisionOutcome([Die(0, 3, 0), Die(1, 3, 3)], Die(1, 3, 3), Die(0, 3, 0)) == []
    ensures GameOver([]) && FinalScore([]) == 0
  {
    assert SetValue([Die(0, 3, 0), Die(1, 5, 3)], 1, 2) == [Die(0, 3, 0), Die(1, 2, 3)];
    assert RemoveIds([Die(0, 3, 0), Die(1, 2, 3)], {0}) == [Die(1, 2, 3)];
    assert RemoveIds([Die(0, 3, 0), Die(1, 3, 3)], {1, 0}) == [];
  }

  /** A 3 in the corner whose two neighbouring cells hold 1s. */
  const CornerBoard: seq<Die> := [Die(0, 3, 0), Die(1, 1, 1), Die(2, 1, 5)]

  /** The reach filter is not reachability: the cornered 3 passes it towards
      a 1, so the game is not over ... */
  lemma CornerNotOver()
    ensures CanDiceReachDice(CornerBoard[0], CornerBoard[1])
    ensures !GameOver(CornerBoard)
  {
    assert CanDiceReachDice(CornerBoard[0], CornerBoard[1]);
  }

  /** ... yet no first step out of the corner is allowed. */
  lemma CornerBlocked(d: Direction)
    ensures !CanMoveInDirection(CornerBoard, 0, d, false)
  {
    match d
    case Up =>
    case Left =>
    case Right =>
      NeighborOffset(0, Right);
      assert GetDiceAtPosition(CornerBoard, 1).Some?;
    case Down =>
      NeighborOffset(0, Down);
      assert GetDiceAtPosition(CornerBoard, 5).Some?;
  }

  /** Two 4s side by side fail the parity test in both directions, whatever
      else is on the board. */
  lemma ParityScenario()
    ensures !CanDiceReachDice(Die(0, 4, 0), Die(1, 4, 1))
    ensures !CanDiceReachDice(Die(1, 4, 1), Die(0, 4, 0))
  {
  }

  /** A shared puzzle may put two dice on one cell; the move then hits the
      one listed first, so the list order decides the outcome. */
  lemma DoubledCellScenario()
    ensures FindCollisionTarget([Die(0, 3, 0), Die(1, 2, 5), Die(2, 4, 5)], 5, 0) == Some(Die(1, 2, 5))
    ensures FindCollisionTarget([Die(0, 3, 0), Die(2, 4, 5), Die(1, 2, 5)], 5, 0) == Some(Die(2, 4, 5))
  {
  }

  /** A lone 6 is a finished game scoring 6. */
  lemma SingleDieScenario()
    ensures GameOver([Die(0, 6, 12)]) && FinalScore([Die(0, 6, 12)]) == 6
  {
  }

  /** Four dice are never a finished game, even when no die reaches another. */
  lemma FourDiceScenario()
    ensures var dice := [Die(0, 1, 0), Die(1, 1, 4), Die(2, 1, 20), Die(3, 1, 24)];
      NoDieReachesAnother(dice) && !GameOver(dice)
  {
    var dice := [Die(0, 1, 0), Die(1, 1, 4), Die(2, 1, 20), Die(3, 1, 24)];
    forall i, j | 0 <= i < |dice| && 0 <= j < |dice| && i != j
      ensures !CanDiceReachDice(dice[i], dice[j])
    {
      assert TaxicabDistance(dice[i].position, dice[j].position) >= 4;
    }
  }
}
