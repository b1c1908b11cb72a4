# Greedy knight's tour, modelled in Dafny

The C program runs a greedy knight's tour on an N-by-N board from every
starting square. From the current square the knight takes the first move of a
fixed table of eight knight jumps that lands on the board on a square not yet
visited. It stamps that square with the next step number and stops when no
move of the table is possible. The tour's result is the number of squares
visited. A sweep stores that number for every starting square in an N-by-N
matrix.

The model has two layers.

- **Specification layer.** This layer states the tour on *traces*: the
  sequence of squares the knight visits (`GreedySpec`).
  - `Greedy` continues a trace by the first legal move until none is legal.
  - `Tour` is the greedy continuation of the start square.
  - `IsGreedyTour` is an independent, declarative description. It says the
    trace starts at the start square, stays on the board and never revisits a
    square. Every step takes the first legal move, judged on the squares
    visited before it. The trace ends only when no move is legal.
  - `TourIsTheGreedyTour` proves the two agree, in both directions.
- **Engine layer.** This layer follows the C code (`KnightsTour`).
  - The board is an `array2<int>` indexed `[y, x]`, holding 0 for unvisited
    squares and the step number for visited ones.
  - `TourGreedy` runs the do-while loop in place.
  - `GreedyTourFromEachSquare` runs the nested sweep.
  - A ghost trace travels with the loop. The invariant `Records` says the
    board holds, on every square, the step number at which that trace
    reached it, or 0.
  - The result is proved equal to the length of `Tour`.

The board size `SIZE` is a parameter `n` of every member that depends on the
board size. The C code's default of 8 is the constant `GreedySpec.Size`. The
move table is kept as the two constant sequences `MovesX` and `MovesY`, in the
C code's order, because that order decides every tie.

## Model

| member | source | states |
|---|---|---|
| `MoveTable.MoveTableIsTheKnightMoves` | knights_tour.c:11-14 | The table has 8 entries. Every entry is a knight jump (one coordinate changes by 1, the other by 2). The entries are pairwise distinct. Every knight jump occurs in the table. |
| `MoveTable.TargetIsKnightJump` | knights_tour.h:35-43 | Applying any move of the table to any square moves it by a knight jump. |
| `BoardCells.CellCount` | knights_tour.h:20-27 | The N-by-N board has exactly N * N squares. |
| `GreedySpec.StepAt` | knights_tour.h:45-52 | The step number read from a trace is 0 exactly when the square is unvisited. A nonzero number s is at most the trace length, and square s - 1 of the trace is that square. |
| `GreedySpec.StepAtExtend` | knights_tour.c:54 | Stamping a new square gives it the next step number and leaves every other square's number unchanged. |
| `GreedySpec.StepAtIndex` | knights_tour.c:54 | On a trace without repeats, the k-th visited square carries step number k + 1. |
| `GreedySpec.FirstLegalIsFirst` | knights_tour.c:49-57 | The move search returns a move that is legal, with no earlier move legal. It returns none only when no move from the starting index on is legal. |
| `GreedySpec.GreedyExtends` | knights_tour.c:45-59 | Continuing a valid trace greedily keeps it on the board and free of repeats. The result extends the trace it started from. |
| `GreedySpec.GreedyIsGreedy` | knights_tour.c:45-59 | Every square the continuation adds is reached by the first legal move of the table. The continuation ends only when no move is legal (no backtracking). |
| `GreedySpec.GreedyTakesFirstLegal` | knights_tour.c:49-57 | When move i is legal and no earlier move is, the trace extended by move i is valid. The greedy tour from it is the same as from the trace before the move. |
| `GreedySpec.GreedyStepDetermined` | knights_tour.c:49-56 | Two traces that agree up to a step take the same greedy step there. |
| `GreedySpec.TourIsTheGreedyTour` | knights_tour.h:65-75 | A trace satisfies the declarative greedy-tour description if and only if it equals `Tour`. `Tour` exists and is the only such trace. |
| `GreedySpec.TraceFitsBoard` | knights_tour.h:49-52 | A trace that stays on the board without repeats has at most N * N squares. |
| `GreedySpec.TourLengthBounds` | knights_tour.h:73 | Every tour from an on-board start visits between 1 and N * N squares. |
| `GreedySpec.OneSquareBoard` | knights_tour.h:24-25 | On a 1-by-1 board the tour is the start square alone. |
| `GreedySpec.CornerTourStart` | knights_tour.c:49-56 | On the 8-by-8 board the tour from (0, 0) takes move 0 first, to (2, 1). |
| `KnightsTour.RecordedSteps` | knights_tour.c:40-54 | On a board that records a trace, the start square holds 1 and the k-th square holds k + 1, so the current square holds the step count. A square is nonzero exactly when visited. Each nonzero value lies in 1 .. moves and names the square it is stored on. |
| `KnightsTour.MoveIsPossibleIsLegal` | knights_tour.c:18-24 | On a board recording the trace, `MoveIsPossible`, the C bounds-and-zero test of `move_is_possible`, holds for move i exactly when the target lies on the board and the trace has not visited it. |
| `KnightsTour.Mark` | knights_tour.c:54 | Stamping an unvisited on-board square with the next step number turns a board recording t into one recording t extended by that square. |
| `KnightsTour.FirstPossibleMove` | knights_tour.c:49-58 | The scan in table order reports the first possible move, with no earlier move possible, or reports that none is possible. |
| `KnightsTour.ScanIsGreedyChoice` | knights_tour.c:45-59 | On a recorded board, the scan's move is the first legal move of the trace. Finding none means the trace is stuck. |
| `KnightsTour.TourGreedy` | knights_tour.c:36-62 | The count returned equals the length of the greedy tour `Tour` from the start square. It lies in 1 .. N * N. The loop is bounded by the number of unvisited squares. |
| `KnightsTour.GreedyTourFromEachSquare` | knights_tour.c:71-79 | The result matrix is N by N. `result[y, x]` is the length of the greedy tour from (x, y), and it lies in 1 .. N * N. |

## Left out

- Printing the matrix (knights_tour.c:81-88) is console output. `GreedyTourFromEachSquare` returns the matrix instead of printing it.
- main.c is not part of this model. It only calls the sweep.
- The `size_t` and `int` conversions and unsigned wrap-around of the coordinates are not modelled; coordinates are unbounded integers. A move is taken only when its target is on the board, so no wrap can happen. The `unsigned int` step counter never exceeds N * N.
- A start square outside the board is not modelled as behaviour. The C code indexes the board with it unchecked (knights_tour.c:42), which is undefined behaviour; the model makes an on-board start a precondition of `TourGreedy`.
- The C `for` loop with `break` inside the do-while loop appears as the method `FirstPossibleMove`, called once per iteration. The stamp `visited[y][x] = ++moves` appears as the method `Mark`. The new square is computed as the target of the move found and then assigned to (x, y); this gives the same values as the C code's in-place `x += MOVES_X[i]`.
- `TourGreedy` builds and discards its board, as the C function does. What the board holds is therefore stated by the loop invariant `Records` together with the lemmas `RecordedSteps` and `MoveIsPossibleIsLegal`, not by an ensures clause.
- The result matrix holds `nat` values, for the C code's `unsigned int`.
- The sample output row in the header comment (knights_tour.h:82-86) is not proved: that would take a full evaluation of 64 tours on the 8-by-8 board. Only the 1-by-1 board and the first step of the corner tour on the 8-by-8 board are stated concretely.
