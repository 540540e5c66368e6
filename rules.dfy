/** The rules of the dice puzzle over a list of dice: the reach filter, the
    end-of-game test, the score, the step checks, the valid-move query and
    what a collision does to the list. */
module Rules {
  import opened Wrappers
  import opened Grid

  /** The index `i` of the source's identifier `dice-i`. */
  type DieId = nat

  datatype Die = Die(id: DieId, value: int, position: Cell)

  /** The largest face value a puzzle may hold. */
  const MaxDieValue := 6

  predicate UniqueIds(dice: seq<Die>) {
    forall i, j :: 0 <= i < j < |dice| ==> dice[i].id != dice[j].id
  }

  /** What every board of the game satisfies: identifiers are unique and every
      value is a face value from 1 to 6. Positions need not be distinct: a
      shared puzzle is not checked for that. */
  predicate ValidBoard(dice: seq<Die>) {
    && UniqueIds(dice)
    && forall d :: d in dice ==> 1 <= d.value <= MaxDieValue
  }

  lemma UniqueMembers(dice: seq<Die>, d: Die, e: Die)
    requires UniqueIds(dice) && d in dice && e in dice && d.id == e.id
    ensures d == e
  {
    var i :| 0 <= i < |dice| && dice[i] == d;
    var j :| 0 <= j < |dice| && dice[j] == e;
    assert !(i < j) && !(j < i);
  }

  // ---------------------------------------------------------------------
  // Lookups (the source's `find` and `findIndex` calls)

  /** `getDiceAtPosition`: the first die in list order standing on `p`. */
  function GetDiceAtPosition(dice: seq<Die>, p: Cell): (r: Option<Die>)
    ensures r.Some? ==> r.value in dice && r.value.position == p
    ensures r.None? <==> forall d :: d in dice ==> d.position != p
  {
    if dice == [] then None
    else if dice[0].position == p then Some(dice[0])
    else GetDiceAtPosition(dice[1..], p)
  }

  /** The die with identifier `id` (`this.dice.find(d => d.id === diceId)`). */
  function FindById(dice: seq<Die>, id: DieId): (r: Option<Die>)
    ensures r.Some? ==> r.value in dice && r.value.id == id
    ensures r.None? <==> forall d :: d in dice ==> d.id != id
  {
    if dice == [] then None
    else if dice[0].id == id then Some(dice[0])
    else FindById(dice[1..], id)
  }

  /** The die a finished move lands on: the first die on `p` other than the mover. */
  function FindCollisionTarget(dice: seq<Die>, p: Cell, moverId: DieId): (r: Option<Die>)
    ensures r.Some? ==> r.value in dice && r.value.position == p && r.value.id != moverId
    ensures r.None? <==> forall d :: d in dice ==> d.position != p || d.id == moverId
  {
    if dice == [] then None
    else if dice[0].position == p && dice[0].id != moverId then Some(dice[0])
    else FindCollisionTarget(dice[1..], p, moverId)
  }

  /** `find` returns the first match: no die before the one found stands on `p`. */
  lemma {:induction false} GetDiceAtPositionFirst(dice: seq<Die>, p: Cell)
    requires GetDiceAtPosition(dice, p).Some?
    ensures exists k ::
      && 0 <= k < |dice| && dice[k] == GetDiceAtPosition(dice, p).value
      && (forall j :: 0 <= j < k ==> dice[j].position != p)
    decreases |dice|
  {
    if dice[0].position != p {
      GetDiceAtPositionFirst(dice[1..], p);
      var k :| && 0 <= k < |dice[1..]| && dice[1..][k] == GetDiceAtPosition(dice[1..], p).value
               && (forall j :: 0 <= j < k ==> dice[1..][j].position != p);
      assert forall j :: 0 <= j < k + 1 ==> dice[j].position != p by {
        forall j | 0 <= j < k + 1 ensures dice[j].position != p {
          if j > 0 { assert dice[j] == dice[1..][j - 1]; }
        }
      }
      assert dice[k + 1] == GetDiceAtPosition(dice, p).value;
    } else {
      assert dice[0] == GetDiceAtPosition(dice, p).value;
    }
  }

  /** The collision target is the first die on `p` other than the mover, so
      on a cell holding two dice the earlier one in the list is hit. */
  lemma {:induction false} FindCollisionTargetFirst(dice: seq<Die>, p: Cell, moverId: DieId)
    requires FindCollisionTarget(dice, p, moverId).Some?
    ensures exists k ::
      && 0 <= k < |dice| && dice[k] == FindCollisionTarget(dice, p, moverId).value
      && (forall j :: 0 <= j < k ==> dice[j].position != p || dice[j].id == moverId)
    decreases |dice|
  {
    if !(dice[0].position == p && dice[0].id != moverId) {
      FindCollisionTargetFirst(dice[1..], p, moverId);
      var k :| && 0 <= k < |dice[1..]| && dice[1..][k] == FindCollisionTarget(dice[1..], p, moverId).value
               && (forall j :: 0 <= j < k ==> dice[1..][j].position != p || dice[1..][j].id == moverId);
      assert forall j :: 0 <= j < k + 1 ==> dice[j].position != p || dice[j].id == moverId by {
        forall j | 0 <= j < k + 1 ensures dice[j].position != p || dice[j].id == moverId {
          if j > 0 { assert dice[j] == dice[1..][j - 1]; }
        }
      }
      assert dice[k + 1] == FindCollisionTarget(dice, p, moverId).value;
    } else {
      assert dice[0] == FindCollisionTarget(dice, p, moverId).value;
    }
  }

  /** `findIndex` by identifier: the first index holding `id`, or -1. */
  function IndexOfId(dice: seq<Die>, id: DieId): (k: int)
    ensures -1 <= k < |dice|
    ensures k == -1 <==> forall d :: d in dice ==> d.id != id
    ensures k >= 0 ==> dice[k].id == id
  {
    if dice == [] then -1
    else if dice[0].id == id then 0
    else var k := IndexOfId(dice[1..], id); if k == -1 then -1 else k + 1
  }

  // ---------------------------------------------------------------------
  // Reach filter, end of game, score

  /** `canDiceReachDice`: the distance is at most the mover's value and has
      its parity. Occupancy is not looked at. (With a negative value the
      first conjunct is already false, so Dafny's remainder and the
      source's agree wherever the second conjunct is evaluated.) */
  predicate CanDiceReachDice(fromDice: Die, toDice: Die)
    ensures fromDice.position == toDice.position ==>
      (CanDiceReachDice(fromDice, toDice) <==> fromDice.value >= 0 && fromDice.value % 2 == 0)
  {
    var distance := TaxicabDistance(fromDice.position, toDice.position);
    distance <= fromDice.value && distance % 2 == fromDice.value % 2
  }

  /** What the filter means: it holds exactly when the mover could walk onto
      the other die's cell in exactly its value's number of steps on a board
      with no dice in the way. */
  lemma ReachIsEmptyBoardWalk(a: Die, b: Die)
    ensures CanDiceReachDice(a, b) <==>
      exists path :: |path| == a.value && Walk(a.position, path) == Some(b.position)
    ensures TaxicabDistance(a.position, b.position) == a.value ==> CanDiceReachDice(a, b)
  {
    if CanDiceReachDice(a, b) {
      WalkExists(a.position, b.position, a.value);
    }
    if exists path :: |path| == a.value && Walk(a.position, path) == Some(b.position) {
      var path :| |path| == a.value && Walk(a.position, path) == Some(b.position);
      WalkDistance(a.position, path, b.position);
    }
  }

  predicate NoDieReachesAnother(dice: seq<Die>) {
    forall i, j :: 0 <= i < |dice| && 0 <= j < |dice| && i != j ==> !CanDiceReachDice(dice[i], dice[j])
  }

  /** The end-of-game test: at most three dice remain and no ordered pair of
      different dice passes the reach filter. */
  predicate GameOver(dice: seq<Die>) {
    |dice| <= 3 && NoDieReachesAnother(dice)
  }

  /** `isGameOver`, with its nested scans over ordered pairs. */
  method IsGameOver(dice: seq<Die>) returns (over: bool)
    ensures over <==> |dice| <= 3 && forall i, j :: 0 <= i < |dice| && 0 <= j < |dice| && i != j ==> !CanDiceReachDice(dice[i], dice[j])
    ensures over == GameOver(dice)
    ensures |dice| > 3 ==> !over
    ensures |dice| <= 1 ==> over
  {
    if |dice| > 3 {
      return false;
    }
    var i := 0;
    while i < |dice|
      invariant 0 <= i <= |dice|
      invariant forall i', j :: 0 <= i' < i && 0 <= j < |dice| && i' != j ==> !CanDiceReachDice(dice[i'], dice[j])
    {
      var j := 0;
      while j < |dice|
        invariant 0 <= j <= |dice|
        invariant forall i', j' :: 0 <= i' < i && 0 <= j' < |dice| && i' != j' ==> !CanDiceReachDice(dice[i'], dice[j'])
        invariant forall j' :: 0 <= j' < j && i != j' ==> !CanDiceReachDice(dice[i], dice[j'])
      {
        if i != j && CanDiceReachDice(dice[i], dice[j]) {
          return false;
        }
        j := j + 1;
      }
      i := i + 1;
    }
    return true;
  }

  /** `getFinalScore`: the sum of the values left on the board. */
  function FinalScore(dice: seq<Die>): (score: int)
    ensures (forall d :: d in dice ==> d.value >= 1) ==> score >= |dice|
    ensures dice == [] ==> score == 0
  {
    if dice == [] then 0 else dice[0].value + FinalScore(dice[1..])
  }

  // ---------------------------------------------------------------------
  // Stepping checks

  /** `canMoveInDirection`: the neighbour must be on the board; a step that is
      not the last one may not enter a cell holding any die (the mover's own
      start cell included), the last step may land anywhere on the board. */
  function CanMoveInDirection(dice: seq<Die>, p: Cell, d: Direction, isLastMove: bool): (ok: bool)
    ensures !HasNeighbor(p, d) ==> !ok
    ensures HasNeighbor(p, d) && isLastMove ==> ok
    ensures HasNeighbor(p, d) && !isLastMove ==> (ok <==> forall e :: e in dice ==> e.position != Neighbor(p, d))
  {
    HasNeighbor(p, d) && (isLastMove || GetDiceAtPosition(dice, Neighbor(p, d)).None?)
  }

  /** The neighbour in direction `d` when a step that way is allowed. */
  function MoveIf(dice: seq<Die>, p: Cell, d: Direction, isLastMove: bool): seq<int> {
    if CanMoveInDirection(dice, p, d, isLastMove) then [Neighbor(p, d)] else []
  }

  /** The allowed neighbours over a prefix of the scan order. */
  function MovesAlong(dice: seq<Die>, p: Cell, isLastMove: bool, dirs: seq<Direction>): seq<int>
    decreases |dirs|
  {
    if dirs == [] then []
    else MovesAlong(dice, p, isLastMove, dirs[..|dirs| - 1]) + MoveIf(dice, p, dirs[|dirs| - 1], isLastMove)
  }

  /** `getValidMoves`: the neighbours a step may enter, in the order up, down,
      left, right; the last step (one move remaining) may enter occupied cells. */
  method GetValidMoves(dice: seq<Die>, fromPosition: Cell, movesRemaining: int) returns (validMoves: seq<int>)
    ensures validMoves == MoveIf(dice, fromPosition, Up, movesRemaining == 1)
                        + MoveIf(dice, fromPosition, Down, movesRemaining == 1)
                        + MoveIf(dice, fromPosition, Left, movesRemaining == 1)
                        + MoveIf(dice, fromPosition, Right, movesRemaining == 1)
    ensures |validMoves| <= 4
    ensures forall k :: 0 <= k < |validMoves| ==>
      0 <= validMoves[k] < 25 && TaxicabDistance(fromPosition, validMoves[k]) == 1
    ensures forall d :: CanMoveInDirection(dice, fromPosition, d, movesRemaining == 1) ==>
      Neighbor(fromPosition, d) in validMoves
    ensures forall q :: q in validMoves ==>
      exists d :: CanMoveInDirection(dice, fromPosition, d, movesRemaining == 1) && Neighbor(fromPosition, d) == q
  {
    validMoves := [];
    for i := 0 to 4
      invariant validMoves == MovesAlong(dice, fromPosition, movesRemaining == 1, Directions[..i])
    {
      var isLastMove := movesRemaining == 1;
      MovesAlongStep(dice, fromPosition, isLastMove, i);
      if CanMoveInDirection(dice, fromPosition, Directions[i], isLastMove) {
        var rc := PositionToRowCol(fromPosition);
        var newPosition := RowColToPosition(rc.0 + Directions[i].DeltaRow(), rc.1 + Directions[i].DeltaCol());
        assert newPosition == Neighbor(fromPosition, Directions[i]);
        validMoves := validMoves + [newPosition];
      }
    }
    assert Directions[..4] == Directions;
    MovesAlongDirections(dice, fromPosition, movesRemaining == 1);
    ValidMovesFacts(dice, fromPosition, movesRemaining == 1);
  }

  /** One more direction of the scan order adds that direction's move, if any. */
  lemma MovesAlongStep(dice: seq<Die>, p: Cell, isLastMove: bool, i: int)
    requires 0 <= i < |Directions|
    ensures MovesAlong(dice, p, isLastMove, Directions[..i + 1])
         == MovesAlong(dice, p, isLastMove, Directions[..i]) + MoveIf(dice, p, Directions[i], isLastMove)
  {
    assert Directions[..i + 1][..i] == Directions[..i];
  }

  lemma MovesAlongDirections(dice: seq<Die>, p: Cell, isLastMove: bool)
    ensures MovesAlong(dice, p, isLastMove, Directions)
         == MoveIf(dice, p, Up, isLastMove) + MoveIf(dice, p, Down, isLastMove)
          + MoveIf(dice, p, Left, isLastMove) + MoveIf(dice, p, Right, isLastMove)
  {
    assert Directions[..3] == [Up, Down, Left];
    assert [Up, Down, Left][..2] == [Up, Down];
    assert [Up, Down][..1] == [Up];
    assert [Up][..0] == [];
  }

  lemma ValidMovesFacts(dice: seq<Die>, p: Cell, isLastMove: bool)
    ensures var moves := MoveIf(dice, p, Up, isLastMove) + MoveIf(dice, p, Down, isLastMove)
                       + MoveIf(dice, p, Left, isLastMove) + MoveIf(dice, p, Right, isLastMove);
      && |moves| <= 4
      && (forall k :: 0 <= k < |moves| ==> 0 <= moves[k] < 25 && TaxicabDistance(p, moves[k]) == 1)
      && (forall d :: CanMoveInDirection(dice, p, d, isLastMove) ==> Neighbor(p, d) in moves)
      && (forall q :: q in moves ==> exists d :: CanMoveInDirection(dice, p, d, isLastMove) && Neighbor(p, d) == q)
  {
    ValidMovesSound(dice, p, isLastMove);
    ValidMovesComplete(dice, p, isLastMove);
  }

  /** Every listed cell is an allowed neighbour. */
  lemma ValidMovesSound(dice: seq<Die>, p: Cell, isLastMove: bool)
    ensures var moves := MoveIf(dice, p, Up, isLastMove) + MoveIf(dice, p, Down, isLastMove)
                       + MoveIf(dice, p, Left, isLastMove) + MoveIf(dice, p, Right, isLastMove);
      && |moves| <= 4
      && (forall k :: 0 <= k < |moves| ==> 0 <= moves[k] < 25 && TaxicabDistance(p, moves[k]) == 1)
      && (forall q :: q in moves ==> exists d :: CanMoveInDirection(dice, p, d, isLastMove) && Neighbor(p, d) == q)
  {
    var up, down, left, right := MoveIf(dice, p, Up, isLastMove), MoveIf(dice, p, Down, isLastMove),
                                 MoveIf(dice, p, Left, isLastMove), MoveIf(dice, p, Right, isLastMove);
    MoveIfFacts(dice, p, Up, isLastMove);
    MoveIfFacts(dice, p, Down, isLastMove);
    MoveIfFacts(dice, p, Left, isLastMove);
    MoveIfFacts(dice, p, Right, isLastMove);
    var moves := up + down + left + right;
    forall q | q in moves
      ensures 0 <= q < 25 && TaxicabDistance(p, q) == 1
      ensures exists d :: CanMoveInDirection(dice, p, d, isLastMove) && Neighbor(p, d) == q
    {
      if q in up {
        assert CanMoveInDirection(dice, p, Up, isLastMove) && Neighbor(p, Up) == q;
      } else if q in down {
        assert CanMoveInDirection(dice, p, Down, isLastMove) && Neighbor(p, Down) == q;
      } else if q in left {
        assert CanMoveInDirection(dice, p, Left, isLastMove) && Neighbor(p, Left) == q;
      } else {
        assert CanMoveInDirection(dice, p, Right, isLastMove) && Neighbor(p, Right) == q;
      }
    }
    assert forall k :: 0 <= k < |moves| ==> moves[k] in moves;
  }

  /** Every allowed neighbour is listed. */
  lemma ValidMovesComplete(dice: seq<Die>, p: Cell, isLastMove: bool)
    ensures forall d :: CanMoveInDirection(dice, p, d, isLastMove) ==>
      Neighbor(p, d) in MoveIf(dice, p, Up, isLastMove) + MoveIf(dice, p, Down, isLastMove)
                      + MoveIf(dice, p, Left, isLastMove) + MoveIf(dice, p, Right, isLastMove)
  {
    forall d | CanMoveInDirection(dice, p, d, isLastMove)
      ensures Neighbor(p, d) in MoveIf(dice, p, Up, isLastMove) + MoveIf(dice, p, Down, isLastMove)
                              + MoveIf(dice, p, Left, isLastMove) + MoveIf(dice, p, Right, isLastMove)
    {
      MoveIfFacts(dice, p, d, isLastMove);
    }
  }

  /** One direction's contribution: at most the neighbour, present exactly
      when the step is allowed. */
  lemma MoveIfFacts(dice: seq<Die>, p: Cell, d: Direction, isLastMove: bool)
    ensures |MoveIf(dice, p, d, isLastMove)| <= 1
    ensures forall q :: q in MoveIf(dice, p, d, isLastMove) ==>
      && CanMoveInDirection(dice, p, d, isLastMove) && Neighbor(p, d) == q
      && 0 <= q < 25 && TaxicabDistance(p, q) == 1
    ensures CanMoveInDirection(dice, p, d, isLastMove) ==> Neighbor(p, d) in MoveIf(dice, p, d, isLastMove)
  {
  }

  // ---------------------------------------------------------------------
  // Collisions

  function Min(a: int, b: int): int {
    if a <= b then a else b
  }

  /** `this.dice.filter(d => ...)`: the dice whose identifier is not in `ids`, in order. */
  function RemoveIds(dice: seq<Die>, ids: set<DieId>): (r: seq<Die>)
    ensures forall d :: d in r <==> d in dice && d.id !in ids
    ensures |r| <= |dice|
  {
    if dice == [] then []
    else if dice[0].id in ids then RemoveIds(dice[1..], ids)
    else [dice[0]] + RemoveIds(dice[1..], ids)
  }

  /** The filter works piece by piece: the kept dice stay in list order. */
  lemma {:induction false} RemoveIdsAppend(a: seq<Die>, b: seq<Die>, ids: set<DieId>)
    ensures RemoveIds(a + b, ids) == RemoveIds(a, ids) + RemoveIds(b, ids)
    decreases |a|
  {
    if a == [] {
      assert a + b == b;
    } else {
      assert (a + b)[1..] == a[1..] + b;
      RemoveIdsAppend(a[1..], b, ids);
    }
  }

  /** One die is kept exactly when its identifier is not removed. */
  lemma RemoveIdsSingle(d: Die, ids: set<DieId>)
    ensures RemoveIds([d], ids) == if d.id in ids then [] else [d]
  {
    assert [d][1..] == [];
  }

  /** The in-place update `targetDice.value = v` of the die with identifier `id`. */
  function SetValue(dice: seq<Die>, id: DieId, v: int): (r: seq<Die>)
    ensures |r| == |dice|
    ensures forall k :: 0 <= k < |r| ==> r[k] == if dice[k].id == id then dice[k].(value := v) else dice[k]
  {
    if dice == [] then []
    else [if dice[0].id == id then dice[0].(value := v) else dice[0]] + SetValue(dice[1..], id, v)
  }

  /** Equal values: both dice leave the board. */
  function Explode(dice: seq<Die>, mover: Die, target: Die): seq<Die> {
    RemoveIds(dice, {mover.id, target.id})
  }

  /** Different values: the target takes the difference, the mover leaves the board. */
  function Replace(dice: seq<Die>, mover: Die, target: Die): seq<Die> {
    RemoveIds(SetValue(dice, target.id, Abs(mover.value - target.value)), {mover.id})
  }

  /** The board after the mover lands on the target. */
  function CollisionOutcome(dice: seq<Die>, mover: Die, target: Die): seq<Die> {
    if mover.value == target.value then Explode(dice, mover, target) else Replace(dice, mover, target)
  }

  lemma {:induction false} RemoveKeepsUnique(dice: seq<Die>, ids: set<DieId>)
    requires UniqueIds(dice)
    ensures UniqueIds(RemoveIds(dice, ids))
    decreases |dice|
  {
    if dice != [] {
      var rest := RemoveIds(dice[1..], ids);
      RemoveKeepsUnique(dice[1..], ids);
      if dice[0].id !in ids {
        var r := [dice[0]] + rest;
        forall i, j | 0 <= i < j < |r| ensures r[i].id != r[j].id {
          if i == 0 {
            assert r[j] in dice[1..];
            var m :| 0 <= m < |dice[1..]| && dice[1..][m] == r[j];
            assert dice[m + 1] == r[j];
          } else {
            assert r[i] == rest[i - 1] && r[j] == rest[j - 1];
          }
        }
      }
    }
  }

  lemma {:induction false} RemoveAbsent(dice: seq<Die>, ids: set<DieId>)
    requires forall d :: d in dice ==> d.id !in ids
    ensures RemoveIds(dice, ids) == dice
    decreases |dice|
  {
    if dice != [] {
      RemoveAbsent(dice[1..], ids);
    }
  }

  /** Removing the identifier of one die of a board with unique identifiers
      removes exactly that die. */
  lemma {:induction false} RemoveOne(dice: seq<Die>, d: Die)
    requires UniqueIds(dice) && d in dice
    ensures |RemoveIds(dice, {d.id})| == |dice| - 1
    ensures FinalScore(RemoveIds(dice, {d.id})) == FinalScore(dice) - d.value
    decreases |dice|
  {
    if dice[0] == d {
      forall e | e in dice[1..] ensures e.id !in {d.id} {
        var m :| 0 <= m < |dice[1..]| && dice[1..][m] == e;
        assert dice[m + 1] == e;
      }
      RemoveAbsent(dice[1..], {d.id});
    } else {
      assert dice[0].id != d.id by {
        if dice[0].id == d.id { UniqueMembers(dice, dice[0], d); }
      }
      assert d in dice[1..];
      RemoveOne(dice[1..], d);
    }
  }

  lemma {:induction false} RemoveSplit(dice: seq<Die>, a: set<DieId>, b: set<DieId>)
    ensures RemoveIds(dice, a + b) == RemoveIds(RemoveIds(dice, a), b)
    decreases |dice|
  {
    if dice != [] {
      RemoveSplit(dice[1..], a, b);
      if dice[0].id !in a {
        assert RemoveIds(dice, a)[0] == dice[0] && RemoveIds(dice, a)[1..] == RemoveIds(dice[1..], a);
      }
    }
  }

  lemma {:induction false} SetValueScore(dice: seq<Die>, t: Die, v: int)
    requires UniqueIds(dice) && t in dice
    ensures FinalScore(SetValue(dice, t.id, v)) == FinalScore(dice) - t.value + v
    decreases |dice|
  {
    var r := SetValue(dice, t.id, v);
    assert r[1..] == SetValue(dice[1..], t.id, v);
    if dice[0] == t {
      forall e | e in dice[1..] ensures e.id != t.id {
        var m :| 0 <= m < |dice[1..]| && dice[1..][m] == e;
        assert dice[m + 1] == e;
      }
      SetValueAbsent(dice[1..], t.id, v);
    } else {
      assert dice[0].id != t.id by {
        if dice[0].id == t.id { UniqueMembers(dice, dice[0], t); }
      }
      assert t in dice[1..];
      SetValueScore(dice[1..], t, v);
    }
  }

  lemma {:induction false} SetValueAbsent(dice: seq<Die>, id: DieId, v: int)
    requires forall e :: e in dice ==> e.id != id
    ensures SetValue(dice, id, v) == dice
    decreases |dice|
  {
    if dice != [] {
      SetValueAbsent(dice[1..], id, v);
    }
  }

  /** SetValue on a board with unique identifiers changes exactly the one die. */
  lemma SetValueMembers(dice: seq<Die>, t: Die, v: int)
    requires UniqueIds(dice) && t in dice
    ensures UniqueIds(SetValue(dice, t.id, v))
    ensures forall d :: d in SetValue(dice, t.id, v) <==> d == t.(value := v) || (d in dice && d.id != t.id)
  {
    var r := SetValue(dice, t.id, v);
    forall d | d in r ensures d == t.(value := v) || (d in dice && d.id != t.id) {
      var k :| 0 <= k < |r| && r[k] == d;
      if dice[k].id == t.id {
        UniqueMembers(dice, dice[k], t);
      }
    }
    var kt :| 0 <= kt < |dice| && dice[kt] == t;
    assert r[kt] == t.(value := v);
    forall d | d in dice && d.id != t.id ensures d in r {
      var k :| 0 <= k < |dice| && dice[k] == d;
      assert r[k] == d;
    }
  }

  /** Collision outcomes: equal values remove both dice, different values
      remove the mover and leave the target on its cell with the absolute
      difference, at least 1. No other die changes; the board stays valid,
      loses one or two dice, and its score falls by twice the smaller value. */
  lemma CollisionOutcomeSpec(dice: seq<Die>, mover: Die, target: Die)
    requires ValidBoard(dice) && mover in dice && target in dice && mover.id != target.id
    ensures var r := CollisionOutcome(dice, mover, target);
      && ValidBoard(r)
      && |r| == |dice| - (if mover.value == target.value then 2 else 1)
      && FinalScore(r) == FinalScore(dice) - 2 * Min(mover.value, target.value)
      && (mover.value == target.value ==>
            forall d :: d in r <==> d in dice && d != mover && d != target)
      && (mover.value != target.value ==>
            && 1 <= Abs(mover.value - target.value) < MaxDieValue
            && forall d :: d in r <==>
                 d == target.(value := Abs(mover.value - target.value)) || (d in dice && d != mover && d != target))
  {
    forall d | d in dice ensures (d.id == mover.id <==> d == mover) && (d.id == target.id <==> d == target) {
      if d.id == mover.id { UniqueMembers(dice, d, mover); }
      if d.id == target.id { UniqueMembers(dice, d, target); }
    }
    if mover.value == target.value {
      ExplodeSpec(dice, mover, target);
    } else {
      ReplaceSpec(dice, mover, target);
    }
  }

  lemma ExplodeSpec(dice: seq<Die>, mover: Die, target: Die)
    requires UniqueIds(dice) && mover in dice && target in dice && mover.id != target.id
    ensures UniqueIds(Explode(dice, mover, target))
    ensures |Explode(dice, mover, target)| == |dice| - 2
    ensures FinalScore(Explode(dice, mover, target)) == FinalScore(dice) - mover.value - target.value
  {
    var once := RemoveIds(dice, {mover.id});
    assert {mover.id, target.id} == {mover.id} + {target.id};
    RemoveSplit(dice, {mover.id}, {target.id});
    RemoveOne(dice, mover);
    RemoveKeepsUnique(dice, {mover.id});
    RemoveOne(once, target);
    RemoveKeepsUnique(once, {target.id});
  }

  lemma ReplaceSpec(dice: seq<Die>, mover: Die, target: Die)
    requires UniqueIds(dice) && mover in dice && target in dice && mover.id != target.id
    ensures var diff := Abs(mover.value - target.value);
      && UniqueIds(Replace(dice, mover, target))
      && |Replace(dice, mover, target)| == |dice| - 1
      && FinalScore(Replace(dice, mover, target)) == FinalScore(dice) - target.value + diff - mover.value
      && forall d :: d in Replace(dice, mover, target) <==> d == target.(value := diff) || (d in dice && d.id != target.id && d.id != mover.id)
  {
    ReplaceCount(dice, mover, target);
    ReplaceMembers(dice, mover, target);
  }

  lemma ReplaceCount(dice: seq<Die>, mover: Die, target: Die)
    requires UniqueIds(dice) && mover in dice && target in dice && mover.id != target.id
    ensures var diff := Abs(mover.value - target.value);
      && UniqueIds(Replace(dice, mover, target))
      && |Replace(dice, mover, target)| == |dice| - 1
      && FinalScore(Replace(dice, mover, target)) == FinalScore(dice) - target.value + diff - mover.value
  {
    var diff := Abs(mover.value - target.value);
    var set1 := SetValue(dice, target.id, diff);
    assert UniqueIds(set1) && mover in set1 by {
      SetValueMembers(dice, target, diff);
    }
    assert FinalScore(set1) == FinalScore(dice) - target.value + diff by {
      SetValueScore(dice, target, diff);
    }
    var r := RemoveIds(set1, {mover.id});
    assert |r| == |set1| - 1 && FinalScore(r) == FinalScore(set1) - mover.value by {
      RemoveOne(set1, mover);
    }
    assert UniqueIds(r) by {
      RemoveKeepsUnique(set1, {mover.id});
    }
  }

  lemma ReplaceMembers(dice: seq<Die>, mover: Die, target: Die)
    requires UniqueIds(dice) && mover in dice && target in dice && mover.id != target.id
    ensures var diff := Abs(mover.value - target.value);
      forall d :: d in Replace(dice, mover, target) <==> d == target.(value := diff) || (d in dice && d.id != target.id && d.id != mover.id)
  {
    SetValueMembers(dice, target, Abs(mover.value - target.value));
  }

  // ---------------------------------------------------------------------
  // Ordering by identifier (`[...this.dice].sort((a, b) => a.id.localeCompare(b.id))`)

  predicate SortedById(s: seq<Die>) {
    forall i, j :: 0 <= i < j < |s| ==> s[i].id <= s[j].id
  }

  lemma SortedCons(x: Die, s: seq<Die>)
    requires SortedById(s) && forall y :: y in s ==> x.id <= y.id
    ensures SortedById([x] + s)
  {
    forall i, j | 0 <= i < j < |[x] + s| ensures ([x] + s)[i].id <= ([x] + s)[j].id {
      if i == 0 {
        assert ([x] + s)[j] == s[j - 1];
        assert s[j - 1] in s;
      } else {
        assert ([x] + s)[i] == s[i - 1] && ([x] + s)[j] == s[j - 1];
      }
    }
  }

  function InsertById(d: Die, s: seq<Die>): (r: seq<Die>)
    requires SortedById(s)
    ensures SortedById(r)
    ensures multiset(r) == multiset(s) + multiset{d}
    ensures |r| == |s| + 1
    ensures forall x :: x in r <==> x == d || x in s
  {
    if s == [] then [d]
    else if d.id <= s[0].id then
      assert forall y :: y in s ==> d.id <= y.id by {
        forall y | y in s ensures d.id <= y.id {
          var k :| 0 <= k < |s| && s[k] == y;
          assert k == 0 || s[0].id <= s[k].id;
        }
      }
      SortedCons(d, s);
      [d] + s
    else
      var rest := InsertById(d, s[1..]);
      assert s == [s[0]] + s[1..];
      assert forall x :: x in rest ==> s[0].id <= x.id by {
        forall x | x in rest ensures s[0].id <= x.id {
          if x != d {
            var k :| 0 <= k < |s[1..]| && s[1..][k] == x;
            assert s[k + 1] == x;
          }
        }
      }
      SortedCons(s[0], rest);
      [s[0]] + rest
  }

  /** The dice in increasing identifier order: a sorted permutation. */
  function SortById(s: seq<Die>): (r: seq<Die>)
    ensures SortedById(r)
    ensures multiset(r) == multiset(s)
    ensures |r| == |s|
    ensures forall x :: x in r <==> x in s
  {
    if s == [] then []
    else
      assert s == [s[0]] + s[1..];
      InsertById(s[0], SortById(s[1..]))
  }

  /** With unique identifiers the sorted order is strictly increasing. */
  lemma SortedUniqueStrict(s: seq<Die>, i: int, j: int)
    requires UniqueIds(s) && 0 <= i < j < |s|
    ensures SortById(s)[i].id < SortById(s)[j].id
  {
    var r := SortById(s);
    if r[i].id == r[j].id {
      UniqueMembers(s, r[i], r[j]);
      MultisetTwice(r, i, j);
      UniqueOnce(s, r[i]);
      assert false;
    }
  }

  lemma MultisetTwice(r: seq<Die>, i: int, j: int)
    requires 0 <= i < j < |r| && r[i] == r[j]
    ensures multiset(r)[r[i]] >= 2
  {
    assert r == r[..i] + [r[i]] + r[i + 1..j] + [r[j]] + r[j + 1..];
  }

  lemma {:induction false} UniqueOnce(s: seq<Die>, d: Die)
    requires UniqueIds(s) && d in s
    ensures multiset(s)[d] == 1
    decreases |s|
  {
    assert s == [s[0]] + s[1..];
    if s[0] == d {
      assert d !in s[1..];
    } else {
      UniqueOnce(s[1..], d);
    }
  }
}
