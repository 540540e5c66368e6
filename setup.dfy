/** `placeDice`: six distinct inner cells drawn at random, each given a
    random face value, identifiers in drawing order. The random draws are
    parameters: `picks` are the successive indices into the inner cells and
    `rolls` the successive `Math.floor(Math.random() * 6)` results. */
module Setup {
  import opened Wrappers
  import opened Grid
  import opened Rules

  /** The number of dice a new puzzle holds. */
  const DiceCount := 6

  /** The distinct elements of `s` in order of first occurrence. */
  function Dedup(s: seq<Cell>): (r: seq<Cell>)
    ensures forall i, j :: 0 <= i < j < |r| ==> r[i] != r[j]
    ensures forall x :: x in r <==> x in s
  {
    if s == [] then []
    else
      var rest := Dedup(s[..|s| - 1]);
      assert forall x :: x in s <==> x in s[..|s| - 1] || x == s[|s| - 1];
      if s[|s| - 1] in rest then rest else rest + [s[|s| - 1]]
  }

  /** Dropping later draws only drops later first occurrences. */
  lemma {:induction false} DedupPrefix(s: seq<Cell>, i: nat)
    requires i <= |s|
    ensures |Dedup(s[..i])| <= |Dedup(s)|
    ensures Dedup(s[..i]) == Dedup(s)[..|Dedup(s[..i])|]
    decreases |s|
  {
    if i < |s| {
      var t := s[..|s| - 1];
      assert t[..i] == s[..i];
      DedupPrefix(t, i);
    } else {
      assert s[..i] == s;
    }
  }

  /** The inner cells the index draws name. */
  function Chosen(picks: seq<nat>): (cells: seq<Cell>)
    requires forall k :: 0 <= k < |picks| ==> picks[k] < |InnerCells|
    ensures |cells| == |picks|
  {
    seq(|picks|, k requires 0 <= k < |picks| => InnerCells[picks[k]])
  }

  /** Draws until six distinct inner cells are chosen; None when the draws
      run out first (the source keeps drawing). */
  method PlaceDice(picks: seq<nat>, rolls: seq<int>) returns (dice: Option<seq<Die>>)
    requires forall k :: 0 <= k < |picks| ==> picks[k] < |InnerCells|
    requires |rolls| >= DiceCount && forall k :: 0 <= k < |rolls| ==> 0 <= rolls[k] < MaxDieValue
    ensures dice.None? <==> |Dedup(Chosen(picks))| < DiceCount
    ensures dice.Some? ==> |dice.value| == DiceCount
    ensures dice.Some? ==> forall k :: 0 <= k < DiceCount ==>
      dice.value[k] == Die(k, rolls[k] + 1, Dedup(Chosen(picks))[k])
    ensures dice.Some? ==> ValidBoard(dice.value)
    ensures dice.Some? ==> forall i, j :: 0 <= i < j < DiceCount ==> dice.value[i].position != dice.value[j].position
    ensures dice.Some? ==> forall d :: d in dice.value ==> IsInnerCell(PositionToRowCol(d.position).0, PositionToRowCol(d.position).1)
  {
    var innerPositions := GetInnerPositions();
    ghost var cells := Chosen(picks);
    var selectedPositions: seq<Cell> := [];
    var i := 0;
    while |selectedPositions| < DiceCount && i < |picks|
      invariant 0 <= i <= |picks|
      invariant selectedPositions == Dedup(cells[..i])
      invariant |selectedPositions| <= DiceCount
    {
      var position := innerPositions[picks[i]];
      assert cells[..i + 1] == cells[..i] + [position];
      if position !in selectedPositions {
        selectedPositions := selectedPositions + [position];
      }
      i := i + 1;
    }
    DedupPrefix(cells, i);
    if |selectedPositions| < DiceCount {
      assert cells[..i] == cells;
      return None;
    }
    forall p | p in selectedPositions ensures p in InnerCells {
      assert p in cells;
    }
    dice := Some(seq(DiceCount, k requires 0 <= k < DiceCount => Die(k, rolls[k] + 1, selectedPositions[k])));
  }
}
