/** The knight's eight relative moves, in the fixed order that decides ties
    in the greedy tour: the first move of this table that is possible is
    the one taken. */
module MoveTable {

  /** Number of entries in the move table. */
  const MoveCount: nat := 8

  /** Horizontal offset of each move. */
  const MovesX: seq<int> := [2, 1, -1, -2, -2, -1, 1, 2]

  /** Vertical offset of each move. */
  const MovesY: seq<int> := [1, 2, 2, 1, -1, -2, -2, -1]

  /** A square of the board; `x` is the column and `y` the row. */
  datatype Pos = Pos(x: int, y: int)

  function Abs(v: int): int { if v < 0 then -v else v }

  /** A knight jump: two squares along one axis and one along the other. */
  predicate IsKnightOffset(dx: int, dy: int)
  {
    (Abs(dx) == 1 && Abs(dy) == 2) || (Abs(dx) == 2 && Abs(dy) == 1)
  }

  /** The square reached from `p` by move number `i`. */
  function Target(p: Pos, i: nat): Pos
    requires i < MoveCount
  {
    Pos(p.x + MovesX[i], p.y + MovesY[i])
  }

  /** Every move of the table is a knight jump. */
  lemma TargetIsKnightJump(p: Pos, i: nat)
    requires i < MoveCount
    ensures IsKnightOffset(Target(p, i).x - p.x, Target(p, i).y - p.y)
  {
    MoveTableIsTheKnightMoves();
  }

  /** The table lists every knight jump exactly once, and nothing else. */
  lemma MoveTableIsTheKnightMoves()
    ensures |MovesX| == |MovesY| == MoveCount
    ensures forall i :: 0 <= i < MoveCount ==> IsKnightOffset(MovesX[i], MovesY[i])
    ensures forall i, j :: 0 <= i < j < MoveCount ==> MovesX[i] != MovesX[j] || MovesY[i] != MovesY[j]
    ensures forall dx, dy :: IsKnightOffset(dx, dy) ==>
              exists i :: 0 <= i < MoveCount && MovesX[i] == dx && MovesY[i] == dy
  {
    forall dx, dy | IsKnightOffset(dx, dy)
      ensures exists i :: 0 <= i < MoveCount && MovesX[i] == dx && MovesY[i] == dy
    {
      var i :=
        if dx == 2 && dy == 1 then 0
        else if dx == 1 && dy == 2 then 1
        else if dx == -1 && dy == 2 then 2
        else if dx == -2 && dy == 1 then 3
        else if dx == -2 && dy == -1 then 4
        else if dx == -1 && dy == -2 then 5
        else if dx == 1 && dy == -2 then 6
        else 7;
      assert MovesX[i] == dx && MovesY[i] == dy;
    }
  }
}
