/** The greedy tour engine: the board is an n-by-n array indexed
    [row, column] = [y, x]; 0 marks an unvisited square and a positive value
    the step number at which the knight arrived there. */
module KnightsTour {
  import opened MoveTable
  import opened BoardCells
  import opened GreedySpec

  /** Move `moveId` from (x, y) lands on the board on an unvisited square. */
  predicate MoveIsPossible(n: nat, moveId: nat, x: nat, y: nat, visited: array2<int>)
    requires moveId < MoveCount
    requires visited.Length0 == n && visited.Length1 == n
    reads visited
  {
    var nx := x + MovesX[moveId];
    var ny := y + MovesY[moveId];
    0 <= nx < n && 0 <= ny < n && visited[ny, nx] == 0
  }

  /** The board holds, on every square, the step number at which the
      trace reached it, and 0 on the squares the trace never visited. */
  ghost predicate Records(n: nat, board: array2<int>, t: seq<Pos>)
    reads board
  {
    && board.Length0 == n && board.Length1 == n
    && forall row, col :: 0 <= row < n && 0 <= col < n ==> board[row, col] == StepAt(t, Pos(col, row))
  }

  /** Stamps the unvisited square `p` with the next step number; the board
      then records the trace extended by `p`. */
  method Mark(n: nat, visited: array2<int>, p: Pos, moves: nat, ghost t: seq<Pos>)
    requires Records(n, visited, t) && OnBoard(n, p) && p !in t && moves == |t| + 1
    modifies visited
    ensures Records(n, visited, t + [p])
  {
    visited[p.y, p.x] := moves;
    forall row, col | 0 <= row < n && 0 <= col < n
      ensures visited[row, col] == StepAt(t + [p], Pos(col, row))
    {
      StepAtExtend(t, p, Pos(col, row));
      if row != p.y || col != p.x {
        assert visited[row, col] == old(visited[row, col]);
      }
    }
  }

  /** Read back from the board: the start holds 1, square k of the trace
      holds k + 1 (so the last holds the number of steps), and the nonzero
      squares are exactly the visited ones, holding the step numbers
      1 .. |t|, each once. */
  lemma RecordedSteps(n: nat, board: array2<int>, t: seq<Pos>)
    requires ValidTrace(n, t) && Records(n, board, t)
    ensures board[t[0].y, t[0].x] == 1
    ensures forall k :: 0 <= k < |t| ==> board[t[k].y, t[k].x] == k + 1
    ensures forall row, col :: 0 <= row < n && 0 <= col < n ==>
              && (board[row, col] != 0 <==> Pos(col, row) in t)
              && (board[row, col] != 0 ==> 1 <= board[row, col] <= |t| && t[board[row, col] - 1] == Pos(col, row))
  {
    forall k | 0 <= k < |t| ensures board[t[k].y, t[k].x] == k + 1 {
      StepAtIndex(t, k);
      assert t[k] == Pos(t[k].x, t[k].y);
    }
  }

  /** On a recorded board, `move_is_possible`'s test for each move is exactly
      legality of that move for the trace. */
  lemma MoveIsPossibleIsLegal(n: nat, board: array2<int>, t: seq<Pos>, x: nat, y: nat)
    requires ValidTrace(n, t) && Records(n, board, t) && t[|t| - 1] == Pos(x, y)
    ensures forall i :: 0 <= i < MoveCount ==> (MoveIsPossible(n, i, x, y, board) <==> Legal(n, t, i))
  {
    RecordedSteps(n, board, t);
  }

  /** The outcome of a scan of the moves on a recorded board, read as
      greedy choice on the trace: the move found is the first legal one,
      and finding none means the tour is stuck. */
  lemma ScanIsGreedyChoice(n: nat, visited: array2<int>, t: seq<Pos>, x: nat, y: nat, found: bool, i: nat)
    requires ValidTrace(n, t) && Records(n, visited, t) && t[|t| - 1] == Pos(x, y)
    requires found ==> i < MoveCount && MoveIsPossible(n, i, x, y, visited)
    requires found ==> forall j :: 0 <= j < i ==> !MoveIsPossible(n, j, x, y, visited)
    requires !found ==> forall j :: 0 <= j < MoveCount ==> !MoveIsPossible(n, j, x, y, visited)
    ensures found ==> i < MoveCount && Legal(n, t, i) && NoneLegalBefore(n, t, i)
    ensures !found ==> Stuck(n, t)
  {
    MoveIsPossibleIsLegal(n, visited, t, x, y);
  }

  /** Scans the moves in table order and reports the first possible one
      from (x, y), if any. */
  method FirstPossibleMove(n: nat, x: nat, y: nat, visited: array2<int>) returns (found: bool, i: nat)
    requires visited.Length0 == n && visited.Length1 == n
    ensures found ==> i < MoveCount && MoveIsPossible(n, i, x, y, visited)
    ensures found ==> forall j :: 0 <= j < i ==> !MoveIsPossible(n, j, x, y, visited)
    ensures !found ==> forall j :: 0 <= j < MoveCount ==> !MoveIsPossible(n, j, x, y, visited)
  {
    for k := 0 to MoveCount
      invariant forall j :: 0 <= j < k ==> !MoveIsPossible(n, j, x, y, visited)
    {
      if MoveIsPossible(n, k, x, y, visited) {
        return true, k;
      }
    }
    return false, 0;
  }

  /** The greedy tour from (startX, startY): the number of squares visited
      before no move is possible. */
  method TourGreedy(n: nat, startX: nat, startY: nat) returns (moves: nat)
    requires startX < n && startY < n
    ensures moves == |Tour(n, startX, startY)|
    ensures 1 <= moves <= n * n
  {
    var visited := new int[n, n]((_, _) => 0);
    var x, y := startX, startY;
    moves := 1;
    visited[y, x] := moves;
    ghost var trace := [Pos(x, y)];
    var moved := true;
    while moved
      invariant ValidTrace(n, trace) && |trace| == moves <= n * n
      invariant trace[|trace| - 1] == Pos(x, y)
      invariant Records(n, visited, trace)
      invariant Greedy(n, trace) == Tour(n, startX, startY)
      invariant !moved ==> Stuck(n, trace)
      decreases n * n - moves, moved
    {
      var i;
      moved, i := FirstPossibleMove(n, x, y, visited);
      ScanIsGreedyChoice(n, visited, trace, x, y, moved, i);
      if moved {
        var next := Target(Pos(x, y), i);
        assert ValidTrace(n, trace + [next]) && Greedy(n, trace) == Greedy(n, trace + [next]) by {
          GreedyTakesFirstLegal(n, trace, i);
        }
        x, y := next.x, next.y;
        moves := moves + 1;
        Mark(n, visited, next, moves, trace);
        trace := trace + [next];
        assert moves <= n * n by {
          TraceFitsBoard(n, trace);
        }
      }
    }
    assert Greedy(n, trace) == trace by {
      FirstLegalIsFirst(n, trace, 0);
    }
    TourLengthBounds(n, startX, startY);
  }

  /** Runs a greedy tour from every square: result[y, x] is the length of
      the tour that starts at (x, y). */
  method GreedyTourFromEachSquare(n: nat) returns (result: array2<nat>)
    ensures fresh(result)
    ensures result.Length0 == n && result.Length1 == n
    ensures forall y, x {:trigger result[y, x]} :: 0 <= y < n && 0 <= x < n ==> result[y, x] == |Tour(n, x, y)|
    ensures forall y, x :: 0 <= y < n && 0 <= x < n ==> 1 <= result[y, x] <= n * n
  {
    result := new nat[n, n];
    for y := 0 to n
      invariant forall r, c {:trigger result[r, c]} :: 0 <= r < y && 0 <= c < n ==> result[r, c] == |Tour(n, c, r)|
    {
      label Row:
      for x := 0 to n
        invariant forall r, c :: 0 <= r < y && 0 <= c < n ==> result[r, c] == old@Row(result[r, c])
        invariant forall c {:trigger result[y, c]} :: 0 <= c < x ==> result[y, c] == |Tour(n, c, y)|
      {
        result[y, x] := TourGreedy(n, x, y);
      }
    }
    forall y, x | 0 <= y < n && 0 <= x < n ensures 1 <= result[y, x] <= n * n {
      TourLengthBounds(n, x, y);
    }
  }
}
