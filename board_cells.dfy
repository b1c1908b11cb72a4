/** The squares of an n-by-n board as a set, and how many there are. */
module BoardCells {
  import opened MoveTable

  /** `p` lies on the n-by-n board. */
  predicate OnBoard(n: int, p: Pos)
  {
    0 <= p.x < n && 0 <= p.y < n
  }

  /** Every square of a `w` columns by `h` rows board. */
  function Block(w: int, h: int): set<Pos>
  {
    set x, y | 0 <= x < w && 0 <= y < h :: Pos(x, y)
  }

  /** Every square of the n-by-n board. */
  function Cells(n: int): (c: set<Pos>)
    ensures forall p :: p in c <==> OnBoard(n, p)
  {
    var c := Block(n, n);
    assert forall p | OnBoard(n, p) :: p == Pos(p.x, p.y);
    c
  }

  /** The first `w` squares of row `y`. */
  function Row(w: int, y: int): set<Pos>
  {
    set x | 0 <= x < w :: Pos(x, y)
  }

  lemma {:induction false} RowSize(w: nat, y: int)
    ensures |Row(w, y)| == w
  {
    if w > 0 {
      RowSize(w - 1, y);
      assert Row(w, y) == Row(w - 1, y) + {Pos(w - 1, y)};
    }
  }

  /** A block of `h` rows is the block of its first `h - 1` rows plus its last row. */
  lemma BlockSplit(w: nat, h: nat)
    requires h > 0
    ensures Block(w, h) == Block(w, h - 1) + Row(w, h - 1)
    ensures Block(w, h - 1) !! Row(w, h - 1)
  {
    forall p | p in Block(w, h) ensures p in Block(w, h - 1) + Row(w, h - 1) {
      assert p.y < h - 1 ==> p in Block(w, h - 1);
    }
  }

  lemma {:induction false} BlockSize(w: nat, h: nat)
    ensures |Block(w, h)| == w * h
  {
    if h > 0 {
      BlockSize(w, h - 1);
      RowSize(w, h - 1);
      BlockSplit(w, h);
      assert w * h == w * (h - 1) + w;
    }
  }

  /** The board has n * n squares. */
  lemma CellCount(n: nat)
    ensures |Cells(n)| == n * n
  {
    BlockSize(n, n);
  }
}
