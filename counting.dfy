/**
  Counting mines on a rectangular board.

  A mine layout is the set of positions that hold a mine. `Around` counts
  the mines in the clipped 3x3 window of a cell exactly the way the game
  scans it (row by row over `max(0, r-1) .. min(rows, r+2)`), and
  `MinesNear` is an independent description of the same thing as a set;
  `AroundCountsNeighbours` proves the two agree.
*/
module Counting {

  datatype Pos = Pos(row: int, col: int)

  function Max(a: int, b: int): (r: int) { if a < b then b else a }

  function Min(a: int, b: int): (r: int) { if a < b then a else b }

  /** Number of mines of `m` in row `i`, columns `j0 .. j1-1`. */
  function RowCount(m: set<Pos>, i: int, j0: int, j1: int): (r: nat)
    decreases j1 - j0
  {
    if j1 <= j0 then 0
    else RowCount(m, i, j0, j1 - 1) + (if Pos(i, j1 - 1) in m then 1 else 0)
  }

  /** Number of mines of `m` in rows `i0 .. i1-1`, columns `j0 .. j1-1`. */
  function BlockCount(m: set<Pos>, i0: int, i1: int, j0: int, j1: int): (r: nat)
    decreases i1 - i0
  {
    if i1 <= i0 then 0
    else BlockCount(m, i0, i1 - 1, j0, j1) + RowCount(m, i1 - 1, j0, j1)
  }

  /** The mine count the game stores for cell (r, c): the clipped 3x3 window. */
  function Around(m: set<Pos>, rows: int, cols: int, r: int, c: int): (n: nat)
  {
    BlockCount(m, Max(0, r - 1), Min(rows, r + 2), Max(0, c - 1), Min(cols, c + 2))
  }

  /** The mines of `m` inside a rectangle. */
  ghost function InBlock(m: set<Pos>, i0: int, i1: int, j0: int, j1: int): set<Pos>
  {
    set p | p in m && i0 <= p.row < i1 && j0 <= p.col < j1
  }

  /** Reference definition: the mines on the board that touch (r, c) or sit on it. */
  ghost function MinesNear(m: set<Pos>, rows: int, cols: int, r: int, c: int): set<Pos>
  {
    set p | p in m && 0 <= p.row < rows && 0 <= p.col < cols
                   && r - 1 <= p.row <= r + 1 && c - 1 <= p.col <= c + 1
  }

  /** Every position of a rows x cols board. */
  ghost function BoardCells(rows: int, cols: int): set<Pos>
  {
    set i, j | 0 <= i < rows && 0 <= j < cols :: Pos(i, j)
  }

  lemma {:induction false} RowCountCard(m: set<Pos>, i: int, j0: int, j1: int)
    ensures RowCount(m, i, j0, j1) == |InBlock(m, i, i + 1, j0, j1)|
    decreases j1 - j0
  {
    if j1 <= j0 {
      assert InBlock(m, i, i + 1, j0, j1) == {};
    } else {
      RowCountCard(m, i, j0, j1 - 1);
      var last := if Pos(i, j1 - 1) in m then {Pos(i, j1 - 1)} else {};
      assert InBlock(m, i, i + 1, j0, j1) == InBlock(m, i, i + 1, j0, j1 - 1) + last;
      assert InBlock(m, i, i + 1, j0, j1 - 1) !! last;
    }
  }

  lemma {:induction false} BlockCountCard(m: set<Pos>, i0: int, i1: int, j0: int, j1: int)
    ensures BlockCount(m, i0, i1, j0, j1) == |InBlock(m, i0, i1, j0, j1)|
    decreases i1 - i0
  {
    if i1 <= i0 {
      assert InBlock(m, i0, i1, j0, j1) == {};
    } else {
      BlockCountCard(m, i0, i1 - 1, j0, j1);
      RowCountCard(m, i1 - 1, j0, j1);
      assert InBlock(m, i0, i1, j0, j1)
          == InBlock(m, i0, i1 - 1, j0, j1) + InBlock(m, i1 - 1, i1, j0, j1);
      assert InBlock(m, i0, i1 - 1, j0, j1) !! InBlock(m, i1 - 1, i1, j0, j1);
    }
  }

  /** The stored count is the number of mines in the Moore neighbourhood, clipped to the board. */
  lemma AroundCountsNeighbours(m: set<Pos>, rows: int, cols: int, r: int, c: int)
    ensures Around(m, rows, cols, r, c) == |MinesNear(m, rows, cols, r, c)|
  {
    BlockCountCard(m, Max(0, r - 1), Min(rows, r + 2), Max(0, c - 1), Min(cols, c + 2));
    assert MinesNear(m, rows, cols, r, c)
        == InBlock(m, Max(0, r - 1), Min(rows, r + 2), Max(0, c - 1), Min(cols, c + 2));
  }

  /** A zero count means no mine is on or next to the cell. */
  lemma ZeroAroundNoMine(m: set<Pos>, rows: int, cols: int, r: int, c: int, i: int, j: int)
    requires Around(m, rows, cols, r, c) == 0
    requires 0 <= i < rows && 0 <= j < cols && r - 1 <= i <= r + 1 && c - 1 <= j <= c + 1
    ensures Pos(i, j) !in m
  {
    AroundCountsNeighbours(m, rows, cols, r, c);
    assert MinesNear(m, rows, cols, r, c) == {};
    assert Pos(i, j) !in MinesNear(m, rows, cols, r, c);
  }

  lemma {:induction false} RowCountBound(m: set<Pos>, i: int, j0: int, j1: int, r: int, c: int)
    requires j0 <= j1
    ensures RowCount(m, i, j0, j1) <= j1 - j0
    ensures i == r && j0 <= c < j1 && Pos(r, c) !in m ==> RowCount(m, i, j0, j1) <= j1 - j0 - 1
    decreases j1 - j0
  {
    if j0 < j1 {
      RowCountBound(m, i, j0, j1 - 1, r, c);
    }
  }

  lemma {:induction false} BlockCountBound(m: set<Pos>, i0: int, i1: int, j0: int, j1: int, r: int, c: int)
    requires i0 <= i1 && j0 <= j1 <= j0 + 3
    ensures BlockCount(m, i0, i1, j0, j1) <= 3 * (i1 - i0)
    ensures i0 <= r < i1 && j0 <= c < j1 && Pos(r, c) !in m ==>
              BlockCount(m, i0, i1, j0, j1) <= 3 * (i1 - i0) - 1
    decreases i1 - i0
  {
    if i0 < i1 {
      BlockCountBound(m, i0, i1 - 1, j0, j1, r, c);
      RowCountBound(m, i1 - 1, j0, j1, r, c);
    }
  }

  /** A cell that is not a mine has at most eight mined neighbours. */
  lemma AroundAtMostEight(m: set<Pos>, rows: int, cols: int, r: int, c: int)
    requires 0 <= r < rows && 0 <= c < cols && Pos(r, c) !in m
    ensures Around(m, rows, cols, r, c) <= 8
  {
    BlockCountBound(m, Max(0, r - 1), Min(rows, r + 2), Max(0, c - 1), Min(cols, c + 2), r, c);
  }

  /** Without mines every count is zero. */
  lemma {:induction false} NoMinesNoCount(i0: int, i1: int, j0: int, j1: int)
    ensures BlockCount({}, i0, i1, j0, j1) == 0
  {
    BlockCountCard({}, i0, i1, j0, j1);
  }

  /** Every position of row `i`, columns `0 .. cols-1`. */
  ghost function RowCells(i: int, cols: int): set<Pos>
  {
    set j | 0 <= j < cols :: Pos(i, j)
  }

  lemma {:induction false} RowCellsCard(i: int, cols: nat)
    ensures |RowCells(i, cols)| == cols
  {
    if cols > 0 {
      RowCellsCard(i, cols - 1);
      assert RowCells(i, cols) == RowCells(i, cols - 1) + {Pos(i, cols - 1)};
    }
  }

  lemma CellsSplit(rows: int, cols: int)
    requires rows > 0
    ensures BoardCells(rows, cols) == BoardCells(rows - 1, cols) + RowCells(rows - 1, cols)
    ensures BoardCells(rows - 1, cols) !! RowCells(rows - 1, cols)
  {
  }

  /** A rows x cols board has rows * cols cells. */
  lemma {:induction false} CellsCard(rows: nat, cols: nat)
    ensures |BoardCells(rows, cols)| == rows * cols
  {
    if rows > 0 {
      CellsCard(rows - 1, cols);
      RowCellsCard(rows - 1, cols);
      CellsSplit(rows, cols);
      DisjointUnionCard(BoardCells(rows - 1, cols), RowCells(rows - 1, cols));
      MulStep(rows, cols);
    }
  }

  lemma DisjointUnionCard<T>(a: set<T>, b: set<T>)
    requires a !! b
    ensures |a + b| == |a| + |b|
  {
  }

  lemma MulStep(a: int, b: int)
    ensures (a - 1) * b + b == a * b
  {
  }

  /** Taking a subset out of a set leaves the difference of the sizes. */
  lemma SubsetCard<T>(a: set<T>, b: set<T>)
    requires a <= b
    ensures |b - a| == |b| - |a|
  {
    assert b == a + (b - a);
    assert a !! (b - a);
  }

  /** A subset as large as its superset is the whole superset. */
  lemma SubsetSameSize<T>(a: set<T>, b: set<T>)
    requires a <= b
    ensures |a| == |b| <==> a == b
  {
    SubsetCard(a, b);
    if |a| == |b| {
      assert b - a == {};
    }
  }
}
