/** Geometry of the 5 by 5 board: cell numbering, row/column conversion, the
    taxicab distance, orthogonal neighbours, and walks of single steps on a
    board with no dice on it. */
module Grid {
  import opened Wrappers

  /** A cell of the board, numbered row-major from 0 (top left) to 24. */
  type Cell = p: int | 0 <= p < 25

  /** The four directions a die can step in, as (row, column) deltas. */
  datatype Direction = Up | Down | Left | Right {
    function DeltaRow(): int {
      match this
      case Up => -1
      case Down => 1
      case Left => 0
      case Right => 0
    }

    function DeltaCol(): int {
      match this
      case Up => 0
      case Down => 0
      case Left => -1
      case Right => 1
    }

    function Opposite(): (d: Direction)
      ensures d.DeltaRow() == -DeltaRow() && d.DeltaCol() == -DeltaCol()
    {
      match this
      case Up => Down
      case Down => Up
      case Left => Right
      case Right => Left
    }
  }

  /** The scan order of the valid-move query: up, down, left, right. */
  const Directions: seq<Direction> := [Up, Down, Left, Right]

  function Abs(x: int): nat {
    if x < 0 then -x else x
  }

  predicate OnGrid(row: int, col: int) {
    0 <= row < 5 && 0 <= col < 5
  }

  /** `positionToRowCol`: floor division and remainder by the row length;
      every cell has its row and column on the board and is recovered from them. */
  function PositionToRowCol(p: Cell): (rc: (int, int))
    ensures OnGrid(rc.0, rc.1)
    ensures rc.0 * 5 + rc.1 == p
  {
    (p / 5, p % 5)
  }

  /** `rowColToPosition`; for a square on the board the result is a cell
      whose row and column are the arguments. */
  function RowColToPosition(row: int, col: int): (p: int)
    ensures OnGrid(row, col) ==> 0 <= p < 25 && PositionToRowCol(p) == (row, col)
  {
    row * 5 + col
  }

  /** `getTaxicabDistance`: zero exactly on the same cell, at most 8 on this board. */
  function TaxicabDistance(p: Cell, q: Cell): (d: nat)
    ensures d == 0 <==> p == q
    ensures d <= 8
  {
    var rc1 := PositionToRowCol(p);
    var rc2 := PositionToRowCol(q);
    Abs(rc1.0 - rc2.0) + Abs(rc1.1 - rc2.1)
  }

  lemma TaxicabSymmetric(p: Cell, q: Cell)
    ensures TaxicabDistance(p, q) == TaxicabDistance(q, p)
  {
  }

  /** The square one step from `p` in direction `d` lies on the board. */
  predicate HasNeighbor(p: Cell, d: Direction) {
    var rc := PositionToRowCol(p);
    OnGrid(rc.0 + d.DeltaRow(), rc.1 + d.DeltaCol())
  }

  /** The cell one step from `p` in direction `d`. */
  function Neighbor(p: Cell, d: Direction): (q: Cell)
    requires HasNeighbor(p, d)
    ensures PositionToRowCol(q) == (PositionToRowCol(p).0 + d.DeltaRow(), PositionToRowCol(p).1 + d.DeltaCol())
    ensures TaxicabDistance(p, q) == 1
  {
    var rc := PositionToRowCol(p);
    RowColToPosition(rc.0 + d.DeltaRow(), rc.1 + d.DeltaCol())
  }

  /** In cell numbers a step is an offset: five per row, one per column. */
  lemma NeighborOffset(p: Cell, d: Direction)
    requires HasNeighbor(p, d)
    ensures Neighbor(p, d) == p + 5 * d.DeltaRow() + d.DeltaCol()
  {
  }

  /** Stepping back the opposite way returns to the cell one came from. */
  lemma NeighborOpposite(p: Cell, d: Direction)
    requires HasNeighbor(p, d)
    ensures HasNeighbor(Neighbor(p, d), d.Opposite())
    ensures Neighbor(Neighbor(p, d), d.Opposite()) == p
  {
  }

  /** One step changes the distance to any fixed cell by exactly one. */
  lemma StepChangesDistance(p: Cell, d: Direction, q: Cell)
    requires HasNeighbor(p, d)
    ensures TaxicabDistance(Neighbor(p, d), q) == TaxicabDistance(p, q) + 1
         || TaxicabDistance(Neighbor(p, d), q) + 1 == TaxicabDistance(p, q)
  {
  }

  /** The cell reached by taking the steps of `path` from `p` on a board with
      no dice on it, or None when a step would leave the board. */
  function Walk(p: Cell, path: seq<Direction>): Option<Cell>
    decreases |path|
  {
    if path == [] then Some(p)
    else if HasNeighbor(p, path[0]) then Walk(Neighbor(p, path[0]), path[1..])
    else None
  }

  lemma {:induction false} WalkAppend(p: Cell, a: seq<Direction>, b: seq<Direction>)
    ensures Walk(p, a + b) == match Walk(p, a) case None => None case Some(m) => Walk(m, b)
    decreases |a|
  {
    if a == [] {
      assert a + b == b;
    } else {
      assert (a + b)[0] == a[0] && (a + b)[1..] == a[1..] + b;
      if HasNeighbor(p, a[0]) {
        WalkAppend(Neighbor(p, a[0]), a[1..], b);
      }
    }
  }

  /** Parity argument behind the reach filter: a walk of n steps ends at
      distance at most n, with the same parity as n. */
  lemma {:induction false} WalkDistance(p: Cell, path: seq<Direction>, q: Cell)
    requires Walk(p, path) == Some(q)
    ensures TaxicabDistance(p, q) <= |path|
    ensures TaxicabDistance(p, q) % 2 == |path| % 2
    decreases |path|
  {
    if path == [] {
      assert p == q;
    } else {
      var n := Neighbor(p, path[0]);
      var rest := path[1..];
      assert Walk(n, rest) == Some(q);
      WalkDistance(n, rest, q);
      StepChangesDistance(p, path[0], q);
      OneApart(TaxicabDistance(p, q), TaxicabDistance(n, q), |rest|);
      assert |path| == |rest| + 1;
    }
  }

  /** Arithmetic step of the parity argument. */
  lemma OneApart(a: nat, b: nat, k: nat)
    requires a == b + 1 || a + 1 == b
    requires b <= k && b % 2 == k % 2
    ensures a <= k + 1 && a % 2 == (k + 1) % 2
  {
  }

  /** A shortest walk from `p` to `q`: rows first, then columns. */
  function Toward(p: Cell, q: Cell): (path: seq<Direction>)
    ensures |path| == TaxicabDistance(p, q)
    ensures Walk(p, path) == Some(q)
    decreases TaxicabDistance(p, q)
  {
    if p == q then []
    else
      var rp := PositionToRowCol(p);
      var rq := PositionToRowCol(q);
      var d := if rp.0 < rq.0 then Down else if rp.0 > rq.0 then Up else if rp.1 < rq.1 then Right else Left;
      var rest := Toward(Neighbor(p, d), q);
      assert ([d] + rest)[0] == d && ([d] + rest)[1..] == rest;
      [d] + rest
  }

  /** A walk of 2k steps from `q` back to `q`, stepping out and back k times. */
  function Bounce(q: Cell, k: nat): (path: seq<Direction>)
    ensures |path| == 2 * k
    ensures Walk(q, path) == Some(q)
  {
    if k == 0 then []
    else
      var d := if PositionToRowCol(q).0 > 0 then Up else Down;
      var rest := Bounce(q, k - 1);
      OutAndBack(q, d, rest);
      [d, d.Opposite()] + rest
  }

  /** A step out and straight back leaves the rest of a walk where it was. */
  lemma OutAndBack(q: Cell, d: Direction, rest: seq<Direction>)
    requires HasNeighbor(q, d)
    ensures Walk(q, [d, d.Opposite()] + rest) == Walk(q, rest)
  {
    NeighborOpposite(q, d);
    assert [d, d.Opposite()] + rest == [d] + ([d.Opposite()] + rest);
    WalkCons(q, d, [d.Opposite()] + rest);
    WalkCons(Neighbor(q, d), d.Opposite(), rest);
  }

  /** The first step of a walk. */
  lemma WalkCons(p: Cell, d: Direction, rest: seq<Direction>)
    requires HasNeighbor(p, d)
    ensures Walk(p, [d] + rest) == Walk(Neighbor(p, d), rest)
  {
    assert ([d] + rest)[0] == d && ([d] + rest)[1..] == rest;
  }

  /** On an empty board the distance and parity test is also sufficient:
      every cell within n steps and of n's parity is the end of a walk of
      exactly n steps. */
  lemma WalkExists(p: Cell, q: Cell, n: nat)
    requires TaxicabDistance(p, q) <= n && TaxicabDistance(p, q) % 2 == n % 2
    ensures exists path :: |path| == n && Walk(p, path) == Some(q)
  {
    var d := TaxicabDistance(p, q);
    assert (n - d) % 2 == 0;
    var there := Toward(p, q);
    var back := Bounce(q, (n - d) / 2);
    WalkAppend(p, there, back);
    assert |there + back| == n;
  }

  /** `isInnerCell`: the middle 3 by 3 block where new puzzles place their
      dice. Every neighbour of an inner cell is on the board. */
  predicate IsInnerCell(row: int, col: int)
    ensures IsInnerCell(row, col) ==> forall d: Direction :: OnGrid(row + d.DeltaRow(), col + d.DeltaCol())
  {
    1 <= row <= 3 && 1 <= col <= 3
  }

  /** The nine inner cells, row by row. */
  const InnerCells: seq<Cell> := [6, 7, 8, 11, 12, 13, 16, 17, 18]

  /** `getInnerPositions`: the nine inner cells, row by row. */
  method GetInnerPositions() returns (positions: seq<Cell>)
    ensures positions == InnerCells
    ensures forall p: Cell :: p in positions <==> IsInnerCell(PositionToRowCol(p).0, PositionToRowCol(p).1)
  {
    positions := [];
    for row := 1 to 4
      invariant |positions| == (row - 1) * 3
      invariant forall k :: 0 <= k < |positions| ==> positions[k] == (1 + k / 3) * 5 + 1 + k % 3
    {
      for col := 1 to 4
        invariant |positions| == (row - 1) * 3 + (col - 1)
        invariant forall k :: 0 <= k < |positions| ==> positions[k] == (1 + k / 3) * 5 + 1 + k % 3
      {
        positions := positions + [row * 5 + col];
      }
    }
  }
}
