/**
  The rules engine of the game: a hidden grid of mines and counts, the board
  the player sees, and the counters that say how the game stands.

  The mines are placed on the first reveal, never under the revealed square.
  A reveal either stops on a flag or an uncovered blank, blows up on a mine
  (every mine is shown and the game ends), shows a count, or, on a square
  with no mine around it, spreads recursively to every covered neighbour.
*/
module Game {
  import opened Counting
  import opened Cells

  /** The distinct draws that are not the clicked square: the squares rejection sampling can pick. */
  function Candidates(draws: seq<Pos>, click: Pos): (s: set<Pos>)
  {
    set d | d in draws && d != click
  }

  /** Drawing one more square adds it to the candidates, unless it is the click. */
  lemma CandidatesStep(draws: seq<Pos>, k: int, click: Pos)
    requires 0 <= k < |draws|
    ensures Candidates(draws[..k + 1], click)
         == Candidates(draws[..k], click) + if draws[k] != click then {draws[k]} else {}
  {
    assert draws[..k + 1] == draws[..k] + [draws[k]];
  }

  /** While fewer candidates are placed than the draws hold, some draw is still to come. */
  lemma UnplacedDrawAhead(draws: seq<Pos>, k: int, click: Pos)
    requires 0 <= k <= |draws|
    requires |Candidates(draws[..k], click)| < |Candidates(draws, click)|
    ensures k < |draws|
  {
    assert draws == draws[..k] + draws[k..];
    assert Candidates(draws[..k], click) <= Candidates(draws, click);
    SubsetCard(Candidates(draws[..k], click), Candidates(draws, click));
    var w :| w in Candidates(draws, click) - Candidates(draws[..k], click);
    assert w in draws[k..];
  }

  class Minesweeper {
    const rows: nat
    const cols: nat
    const mines: nat

    /** The hidden grid: -1 for a mine, otherwise the number of mines around the square. */
    const grid: array2<int>
    /** The board the player sees. */
    const board: array2<Cell>

    var uncovered: int
    var won: bool
    var gameEnd: bool
    var attempts: int

    predicate InGrid(i: int, j: int)
    {
      0 <= i < rows && 0 <= j < cols
    }

    /** (i, j) is on the board and in the 3x3 window around (r, c). */
    predicate Near(r: int, c: int, i: int, j: int)
    {
      InGrid(i, j) && r - 1 <= i <= r + 1 && c - 1 <= j <= c + 1
    }

    predicate Shape()
    {
      grid.Length0 == rows && grid.Length1 == cols && board.Length0 == rows && board.Length1 == cols
    }

    /** The squares of the grid that hold a mine. */
    ghost function MineSet(): set<Pos>
      reads grid
    {
      set i, j | 0 <= i < grid.Length0 && 0 <= j < grid.Length1 && grid[i, j] == -1 :: Pos(i, j)
    }

    /** The squares of the grid that hold no mine. */
    ghost function SafeSet(): set<Pos>
      reads grid
    {
      set i, j | 0 <= i < grid.Length0 && 0 <= j < grid.Length1 && grid[i, j] != -1 :: Pos(i, j)
    }

    /** The covered squares of the board. */
    ghost function HiddenSet(): set<Pos>
      reads board
    {
      set i, j | 0 <= i < board.Length0 && 0 <= j < board.Length1 && board[i, j] == Hidden :: Pos(i, j)
    }

    /** The uncovered blank squares of the board. */
    ghost function BlankSet(): set<Pos>
      reads board
    {
      set i, j | 0 <= i < board.Length0 && 0 <= j < board.Length1 && board[i, j] == Blank :: Pos(i, j)
    }

    /** The squares on the board in the 3x3 window of some square of `s`. */
    ghost function Halo(s: set<Pos>): set<Pos>
    {
      set q, i, j | q in s && 0 <= i < rows && 0 <= j < cols
                    && q.row - 1 <= i <= q.row + 1 && q.col - 1 <= j <= q.col + 1 :: Pos(i, j)
    }

    /**
      What a reveal from t may do to the covered squares and the blanks: no
      square is covered again, no blank changes, every new blank was covered
      or is t, and no new blank that was covered keeps a covered square in
      its window.
    */
    twostate predicate SpreadClosed(t: Pos)
      reads board
    {
      && HiddenSet() <= old(HiddenSet()) && old(BlankSet()) <= BlankSet()
      && BlankSet() - old(BlankSet()) <= old(HiddenSet()) + {t}
      && Halo(BlankSet() * old(HiddenSet())) !! HiddenSet()
    }

    /** How far a reveal from t reaches: every square it uncovers is t or lies in the window of a new blank. */
    twostate predicate SpreadReach(t: Pos)
      reads board
    {
      old(HiddenSet()) - HiddenSet() <= Halo(BlankSet() * (old(HiddenSet()) + {t})) + {t}
    }

    /** The uncovered squares that come before (i, u) in row-major order. */
    ghost function UncoveredBefore(i: int, u: int): set<Pos>
      reads board
    {
      set a, b | 0 <= a < board.Length0 && 0 <= b < board.Length1 && (a < i || (a == i && b < u))
                 && board[a, b].Uncovered() :: Pos(a, b)
    }

    /** All uncovered squares. */
    ghost function UncoveredSet(): set<Pos>
      reads board
    {
      UncoveredBefore(board.Length0, 0)
    }

    /** No mine is shown before (i, u) in row-major order. */
    ghost predicate NoMineBefore(i: int, u: int)
      reads board
    {
      forall a, b :: 0 <= a < board.Length0 && 0 <= b < board.Length1 && (a < i || (a == i && b < u))
                     ==> board[a, b] != Mine
    }

    /** Every square without a mine is uncovered. */
    ghost predicate AllSafeUncovered()
      reads grid, board
      requires Shape()
    {
      forall i, j :: InGrid(i, j) && grid[i, j] != -1 ==> board[i, j].Uncovered()
    }

    /** Every square without a mine holds the number of mines in its clipped 3x3 window. */
    ghost predicate Counted()
      reads grid
      requires Shape()
    {
      forall i, j :: InGrid(i, j) && grid[i, j] != -1 ==> grid[i, j] == Around(MineSet(), rows, cols, i, j)
    }

    /** Uncovered squares show what the grid holds. */
    ghost predicate Agrees()
      reads grid, board
      requires Shape()
    {
      forall i, j :: InGrid(i, j) ==>
        (board[i, j] == Blank ==> grid[i, j] == 0) &&
        (board[i, j].Number? ==> board[i, j].n == grid[i, j] > 0)
    }

    ghost predicate NothingUncovered()
      reads board
      requires Shape()
    {
      forall i, j :: InGrid(i, j) ==> !board[i, j].Uncovered()
    }

    ghost predicate Valid()
      reads this`attempts, grid, board
    {
      && Shape()
      && attempts >= 0
      && Counted()
      && (attempts > 0 ==> |MineSet()| == mines)
      && Agrees()
      && (attempts == 0 ==> NothingUncovered())
    }

    /** The draws suffice: they lie on the board and hold `mines` distinct squares besides the click. */
    predicate DrawsFit(draws: seq<Pos>, row: int, col: int)
    {
      && (forall d :: d in draws ==> InGrid(d.row, d.col))
      && |Candidates(draws, Pos(row, col))| >= mines
    }

    constructor (rows: nat, cols: nat, mines: nat)
      requires 0 < rows && 0 < cols && mines < rows * cols
      ensures Valid() && fresh(grid) && fresh(board)
      ensures this.rows == rows && this.cols == cols && this.mines == mines
      ensures uncovered == 0 && !won && !gameEnd && attempts == 0
      ensures forall i, j :: InGrid(i, j) ==> grid[i, j] == 0 && board[i, j] == Hidden
    {
      this.rows, this.cols, this.mines := rows, cols, mines;
      uncovered := 0;
      won, gameEnd := false, false;
      attempts := 0;
      grid := new int[rows, cols]((i, j) => 0);
      board := new Cell[rows, cols]((i, j) => Hidden);
      new;
      assert MineSet() == {};
      forall i, j | InGrid(i, j)
        ensures Around(MineSet(), rows, cols, i, j) == 0
      {
        NoMinesNoCount(Max(0, i - 1), Min(rows, i + 2), Max(0, j - 1), Min(cols, j + 2));
      }
    }

    /** The mine set is exactly `ms` when the -1 squares are those of `ms`. */
    lemma MineSetIs(ms: set<Pos>)
      requires Shape()
      requires forall p :: p in ms ==> InGrid(p.row, p.col)
      requires forall i, j :: InGrid(i, j) ==> (grid[i, j] == -1 <==> Pos(i, j) in ms)
      ensures MineSet() == ms
    {
    }

    /** Number of mines in the clipped 3x3 window of (r, c), scanned the way the game scans it. */
    method CountAround(r: int, c: int) returns (n: nat)
      requires Shape() && InGrid(r, c)
      ensures n == Around(MineSet(), rows, cols, r, c)
    {
      n := 0;
      var i0, i1, j0, j1 := Max(0, r - 1), Min(rows, r + 2), Max(0, c - 1), Min(cols, c + 2);
      for i := i0 to i1
        invariant n == BlockCount(MineSet(), i0, i, j0, j1)
      {
        for j := j0 to j1
          invariant n == BlockCount(MineSet(), i0, i, j0, j1) + RowCount(MineSet(), i, j0, j)
        {
          if grid[i, j] == -1 {
            n := n + 1;
          }
        }
      }
    }

    /** Writes into every square without a mine the number of mines around it. */
    method CalculateNeighbours()
      requires Shape()
      modifies grid
      ensures MineSet() == old(MineSet())
      ensures Counted()
    {
      ghost var ms := MineSet();
      for r := 0 to rows
        invariant MineSet() == ms
        invariant forall i, j :: InGrid(i, j) && i < r && grid[i, j] != -1 ==>
                    grid[i, j] == Around(ms, rows, cols, i, j)
      {
        for c := 0 to cols
          invariant MineSet() == ms
          invariant forall i, j :: InGrid(i, j) && (i < r || (i == r && j < c)) && grid[i, j] != -1 ==>
                      grid[i, j] == Around(ms, rows, cols, i, j)
        {
          if grid[r, c] != -1 {
            var n := CountAround(r, c);
            grid[r, c] := n;
            MineSetIs(ms);
          }
        }
      }
    }

    /** Once counted, every square without a mine holds a count between 0 and 8. */
    lemma CountsInRange()
      requires Shape() && Counted()
      ensures forall i, j :: InGrid(i, j) && grid[i, j] != -1 ==> 0 <= grid[i, j] <= 8
    {
      forall i, j | InGrid(i, j) && grid[i, j] != -1
        ensures grid[i, j] <= 8
      {
        assert Pos(i, j) !in MineSet();
        AroundAtMostEight(MineSet(), rows, cols, i, j);
      }
    }

    lemma CandidatesOnBoard(draws: seq<Pos>, k: int, click: Pos)
      requires 0 <= k <= |draws| && forall d :: d in draws ==> InGrid(d.row, d.col)
      ensures forall p :: p in Candidates(draws[..k], click) ==> InGrid(p.row, p.col)
    {
      assert draws == draws[..k] + draws[k..];
    }

    /** Sets every square of the grid to 0: no mines, no counts. */
    method ClearGrid()
      requires Shape()
      modifies grid
      ensures forall i, j :: InGrid(i, j) ==> grid[i, j] == 0
    {
      for r := 0 to rows
        invariant forall i, j :: InGrid(i, j) && i < r ==> grid[i, j] == 0
      {
        for c := 0 to cols
          invariant forall i, j :: InGrid(i, j) && (i < r || (i == r && j < c)) ==> grid[i, j] == 0
        {
          grid[r, c] := 0;
        }
      }
    }

    /**
      Places the mines on the first reveal at (row, col). `draws` stands for the
      successive random squares the game draws; a draw on the clicked square or
      on a square that already holds a mine is rejected.
    */
    method AvoidFirstClick(col: int, row: int, draws: seq<Pos>)
      requires Shape() && InGrid(row, col) && DrawsFit(draws, row, col)
      modifies grid
      ensures Counted()
      ensures |MineSet()| == mines && Pos(row, col) !in MineSet()
      ensures exists k :: 0 <= k <= |draws| && MineSet() == Candidates(draws[..k], Pos(row, col))
    {
      ClearGrid();
      var placements := 0;
      var k := 0;
      ghost var placed: set<Pos> := {};
      while placements < mines
        invariant 0 <= k <= |draws|
        invariant placed == Candidates(draws[..k], Pos(row, col))
        invariant placements == |placed| <= mines
        invariant forall i, j :: InGrid(i, j) ==> (grid[i, j] == -1 <==> Pos(i, j) in placed)
        decreases |draws| - k
      {
        UnplacedDrawAhead(draws, k, Pos(row, col));
        var d := draws[k];
        CandidatesStep(draws, k, Pos(row, col));
        k := k + 1;
        if grid[d.row, d.col] == -1 || (d.row == row && d.col == col) {
          continue;
        }
        grid[d.row, d.col] := -1;
        placements := placements + 1;
        placed := placed + {d};
      }
      CandidatesOnBoard(draws, k, Pos(row, col));
      MineSetIs(placed);
      CalculateNeighbours();
    }

    /** Shows every mine of the grid on the board and leaves every other square alone. */
    method ShowMines()
      requires Shape()
      modifies board
      ensures forall i, j :: InGrid(i, j) ==>
                board[i, j] == if grid[i, j] == -1 then Mine else old(board[i, j])
    {
      for r := 0 to rows
        invariant forall i, j :: InGrid(i, j) ==>
                    board[i, j] == if i < r && grid[i, j] == -1 then Mine else old(board[i, j])
      {
        for c := 0 to cols
          invariant forall i, j :: InGrid(i, j) ==>
                      board[i, j] == if (i < r || (i == r && j < c)) && grid[i, j] == -1 then Mine
                                     else old(board[i, j])
        {
          if grid[r, c] == -1 {
            board[r, c] := Mine;
          }
        }
      }
    }

    /** Shows every mine and ends the game. */
    method RevealDots()
      requires Valid()
      modifies this`gameEnd, board
      ensures Valid() && gameEnd
      ensures forall i, j :: InGrid(i, j) ==>
                board[i, j] == if grid[i, j] == -1 then Mine else old(board[i, j])
    {
      ShowMines();
      gameEnd := true;
    }

    /**
      Reveals (row, col). `player` is false for the recursive steps of the spread,
      which never count as attempts. `draws` feeds the mine placement of a first reveal.
    */
    method UncoverDots(col: int, row: int, player: bool, draws: seq<Pos>)
      requires Valid() && InGrid(row, col)
      requires attempts == 0 ==> DrawsFit(draws, row, col)
      requires !player ==> attempts > 0 && board[row, col] == Hidden && grid[row, col] != -1
      modifies this, grid, board
      decreases HiddenSet() + {Pos(row, col)}, 5
      ensures Valid()
      ensures won == old(won) && uncovered == old(uncovered)
      ensures attempts == old(attempts) + if player && !old(board[row, col]).Settled() then 1 else 0
      // the mines are placed on the first reveal only, never under the revealed square
      ensures old(attempts) == 0 ==> |MineSet()| == mines && grid[row, col] != -1
      ensures old(attempts) > 0 ==> unchanged(grid)
      ensures board[row, col] != Hidden
      // a flag or an uncovered blank: nothing happens
      ensures old(board[row, col]).Settled() ==> unchanged(board) && gameEnd == old(gameEnd)
      // a mine: every mine is shown and the game ends
      ensures !old(board[row, col]).Settled() && grid[row, col] == -1 ==>
                gameEnd && forall i, j :: InGrid(i, j) ==>
                  board[i, j] == if grid[i, j] == -1 then Mine else old(board[i, j])
      // no mine: only covered squares (and the target) change, and they become uncovered
      ensures grid[row, col] != -1 ==> gameEnd == old(gameEnd)
      ensures grid[row, col] != -1 ==>
                forall i, j :: InGrid(i, j) && board[i, j] != old(board[i, j]) ==>
                  (old(board[i, j]) == Hidden || (i == row && j == col)) && board[i, j].Uncovered()
      // a count: shown, not spread
      ensures !old(board[row, col]).Settled() && grid[row, col] > 0 ==>
                board[row, col] == Number(grid[row, col]) &&
                forall i, j :: InGrid(i, j) && (i != row || j != col) ==> board[i, j] == old(board[i, j])
      ensures old(board[row, col]).Number? ==> forall i, j :: InGrid(i, j) ==> board[i, j] == old(board[i, j])
      // a zero: blank, and every neighbour is uncovered or flagged
      ensures !old(board[row, col]).Settled() && grid[row, col] == 0 ==>
                board[row, col] == Blank && forall i, j :: Near(row, col, i, j) ==> board[i, j] != Hidden
      // nothing is covered again, and every blank it uncovers has no covered square left in its window
      ensures SpreadClosed(Pos(row, col))
      // no mine: every square it uncovers is the target or lies next to a square it made blank
      ensures grid[row, col] != -1 ==> SpreadReach(Pos(row, col))
    {
      if attempts == 0 {
        AvoidFirstClick(col, row, draws);
      }
      if player {
        attempts := attempts + 1;
      }
      if board[row, col] == Flagged || board[row, col] == Blank {
        if player {
          attempts := attempts - 1;
        }
        assert BlankSet() * HiddenSet() == {};
        return;
      }
      if grid[row, col] == -1 {
        RevealDots();
        assert BlankSet() == old(BlankSet());
        assert BlankSet() * old(HiddenSet()) == {};
        return;
      }
      ShowSafe(col, row, draws);
    }

    /**
      Reveals a square without a mine: a count is shown and not spread, a zero
      becomes a blank and the reveal spreads around it.
    */
    method ShowSafe(col: int, row: int, draws: seq<Pos>)
      requires Valid() && InGrid(row, col) && attempts > 0
      requires grid[row, col] != -1 && !board[row, col].Settled()
      modifies this, grid, board
      decreases HiddenSet() + {Pos(row, col)}, 4
      ensures Valid()
      ensures attempts == old(attempts) && won == old(won) && uncovered == old(uncovered) && gameEnd == old(gameEnd)
      ensures unchanged(grid)
      ensures SpreadClosed(Pos(row, col)) && SpreadReach(Pos(row, col))
      ensures board[row, col] == if grid[row, col] > 0 then Number(grid[row, col]) else Blank
      ensures grid[row, col] > 0 ==>
                forall i, j :: InGrid(i, j) && (i != row || j != col) ==> board[i, j] == old(board[i, j])
      ensures grid[row, col] == 0 ==> forall i, j :: Near(row, col, i, j) ==> board[i, j] != Hidden
      ensures forall i, j :: InGrid(i, j) && board[i, j] != old(board[i, j]) ==>
                (old(board[i, j]) == Hidden || (i == row && j == col)) && board[i, j].Uncovered()
    {
      if grid[row, col] > 0 {
        board[row, col] := Number(grid[row, col]);
        assert HiddenSet() == old(HiddenSet()) - {Pos(row, col)};
        assert BlankSet() == old(BlankSet());
        assert BlankSet() * old(HiddenSet()) == {};
      } else {
        ShowBlank(col, row, draws);
      }
    }

    /** Reveals a square with no mine around it: it becomes blank and the reveal spreads around it. */
    method ShowBlank(col: int, row: int, draws: seq<Pos>)
      requires Valid() && InGrid(row, col) && attempts > 0
      requires grid[row, col] == 0 && !board[row, col].Settled()
      modifies this, grid, board
      decreases HiddenSet() + {Pos(row, col)}, 3
      ensures Valid()
      ensures attempts == old(attempts) && won == old(won) && uncovered == old(uncovered) && gameEnd == old(gameEnd)
      ensures unchanged(grid)
      ensures SpreadClosed(Pos(row, col)) && SpreadReach(Pos(row, col))
      ensures board[row, col] == Blank
      ensures forall i, j :: Near(row, col, i, j) ==> board[i, j] != Hidden
      ensures forall i, j :: InGrid(i, j) && board[i, j] != old(board[i, j]) ==>
                (old(board[i, j]) == Hidden || (i == row && j == col)) && board[i, j].Uncovered()
    {
      board[row, col] := Blank;
      assert HiddenSet() == old(HiddenSet()) - {Pos(row, col)};
      assert BlankSet() == old(BlankSet()) + {Pos(row, col)};
      label Blanked:
      UncoverAround(col, row, draws);
      assert BlankSet() - old(BlankSet()) <= old(HiddenSet()) + {Pos(row, col)} &&
             old(HiddenSet()) - HiddenSet() <= Halo(BlankSet() * (old(HiddenSet()) + {Pos(row, col)})) + {Pos(row, col)} by {
        SpreadJoin(old(HiddenSet()), old@Blanked(HiddenSet()), HiddenSet(),
                   old(BlankSet()), old@Blanked(BlankSet()), BlankSet(), Pos(row, col), Pos(row, col));
      }
      assert Halo(BlankSet() * old(HiddenSet())) !! HiddenSet() by {
        WindowClear(row, col);
        ClosedAfterBlank(old(HiddenSet()), old@Blanked(HiddenSet()), HiddenSet(), BlankSet(), Pos(row, col));
      }
      forall i, j | InGrid(i, j) && board[i, j] != old(board[i, j])
        ensures (old(board[i, j]) == Hidden || (i == row && j == col)) && board[i, j].Uncovered()
      {
        if i != row || j != col {
          assert board[i, j] != old@Blanked(board[i, j]);
        }
      }
    }

    /**
      The spread from a blank square (row, col): every covered square of its
      clipped 3x3 window is revealed in turn, as a step of the spread.
    */
    method UncoverAround(col: int, row: int, draws: seq<Pos>)
      requires Valid() && InGrid(row, col) && attempts > 0
      requires board[row, col] == Blank && grid[row, col] == 0
      modifies this, grid, board
      decreases HiddenSet() + {Pos(row, col)}, 2
      ensures Valid()
      ensures attempts == old(attempts) && won == old(won) && uncovered == old(uncovered) && gameEnd == old(gameEnd)
      ensures unchanged(grid)
      ensures SpreadClosed(Pos(row, col)) && SpreadReach(Pos(row, col))
      ensures board[row, col] == Blank
      ensures forall i, j :: Near(row, col, i, j) ==> board[i, j] != Hidden
      ensures forall i, j :: InGrid(i, j) && board[i, j] != old(board[i, j]) ==>
                old(board[i, j]) == Hidden && board[i, j].Uncovered()
    {
      assert BlankSet() * HiddenSet() == {};
      for i := Max(0, row - 1) to Min(rows, row + 2)
        invariant Valid()
        invariant attempts == old(attempts) && won == old(won) && uncovered == old(uncovered) && gameEnd == old(gameEnd)
        invariant unchanged(grid)
        invariant HiddenSet() <= old(HiddenSet()) && old(BlankSet()) <= BlankSet()
        invariant BlankSet() - old(BlankSet()) <= old(HiddenSet()) + {Pos(row, col)}
        invariant Halo(BlankSet() * old(HiddenSet())) !! HiddenSet()
        invariant old(HiddenSet()) - HiddenSet() <= Halo(BlankSet() * (old(HiddenSet()) + {Pos(row, col)})) + {Pos(row, col)}
        invariant board[row, col] == Blank
        invariant forall a, b :: InGrid(a, b) && board[a, b] != old(board[a, b]) ==>
                    old(board[a, b]) == Hidden && board[a, b].Uncovered()
        invariant forall a, b :: Near(row, col, a, b) && a < i ==> board[a, b] != Hidden
      {
        label BeforeRow:
        UncoverAroundRow(col, row, i, draws);
        assert BlankSet() - old(BlankSet()) <= old(HiddenSet()) + {Pos(row, col)} &&
               old(HiddenSet()) - HiddenSet() <= Halo(BlankSet() * (old(HiddenSet()) + {Pos(row, col)})) + {Pos(row, col)} by {
          SpreadJoin(old(HiddenSet()), old@BeforeRow(HiddenSet()), HiddenSet(),
                     old(BlankSet()), old@BeforeRow(BlankSet()), BlankSet(), Pos(row, col), Pos(row, col));
        }
        assert Halo(BlankSet() * old(HiddenSet())) !! HiddenSet() by {
          ClosedJoin(old(HiddenSet()), old@BeforeRow(HiddenSet()), HiddenSet(),
                     old@BeforeRow(BlankSet()), BlankSet(), Pos(row, col));
        }
      }
    }

    /** One row of the spread from the blank square (row, col): row i of its window. */
    method UncoverAroundRow(col: int, row: int, i: int, draws: seq<Pos>)
      requires Valid() && InGrid(row, col) && attempts > 0
      requires board[row, col] == Blank && grid[row, col] == 0
      requires 0 <= i < rows && row - 1 <= i <= row + 1
      requires forall a, b :: Near(row, col, a, b) && a < i ==> board[a, b] != Hidden
      modifies this, grid, board
      decreases HiddenSet() + {Pos(row, col)}, 1
      ensures Valid()
      ensures attempts == old(attempts) && won == old(won) && uncovered == old(uncovered) && gameEnd == old(gameEnd)
      ensures unchanged(grid)
      ensures SpreadClosed(Pos(row, col)) && SpreadReach(Pos(row, col))
      ensures board[row, col] == Blank
      ensures forall a, b :: Near(row, col, a, b) && a <= i ==> board[a, b] != Hidden
      ensures forall a, b :: InGrid(a, b) && board[a, b] != old(board[a, b]) ==>
                old(board[a, b]) == Hidden && board[a, b].Uncovered()
    {
      assert BlankSet() * HiddenSet() == {};
      for j := Max(0, col - 1) to Min(cols, col + 2)
        invariant Valid()
        invariant attempts == old(attempts) && won == old(won) && uncovered == old(uncovered) && gameEnd == old(gameEnd)
        invariant unchanged(grid)
        invariant HiddenSet() <= old(HiddenSet()) && old(BlankSet()) <= BlankSet()
        invariant BlankSet() - old(BlankSet()) <= old(HiddenSet()) + {Pos(row, col)}
        invariant Halo(BlankSet() * old(HiddenSet())) !! HiddenSet()
        invariant old(HiddenSet()) - HiddenSet() <= Halo(BlankSet() * (old(HiddenSet()) + {Pos(row, col)})) + {Pos(row, col)}
        invariant board[row, col] == Blank
        invariant forall a, b :: InGrid(a, b) && board[a, b] != old(board[a, b]) ==>
                    old(board[a, b]) == Hidden && board[a, b].Uncovered()
        invariant forall a, b :: Near(row, col, a, b) && (a < i || (a == i && b < j)) ==> board[a, b] != Hidden
      {
        label BeforeStep:
        SpreadTo(col, row, i, j, draws);
        assert BlankSet() - old(BlankSet()) <= old(HiddenSet()) + {Pos(row, col)} &&
               old(HiddenSet()) - HiddenSet() <= Halo(BlankSet() * (old(HiddenSet()) + {Pos(row, col)})) + {Pos(row, col)} by {
          SpreadJoin(old(HiddenSet()), old@BeforeStep(HiddenSet()), HiddenSet(),
                     old(BlankSet()), old@BeforeStep(BlankSet()), BlankSet(), Pos(row, col), Pos(row, col));
        }
        assert Halo(BlankSet() * old(HiddenSet())) !! HiddenSet() by {
          ClosedJoin(old(HiddenSet()), old@BeforeStep(HiddenSet()), HiddenSet(),
                     old@BeforeStep(BlankSet()), BlankSet(), Pos(row, col));
        }
        forall a, b | Near(row, col, a, b) && (a < i || (a == i && b <= j))
          ensures board[a, b] != Hidden
        {
          if a != i || b != j {
            assert old@BeforeStep(board[a, b]) != Hidden;
          }
        }
      }
    }

    /** One step of the spread from the blank square (row, col): its neighbour (i, j) is revealed if covered. */
    method SpreadTo(col: int, row: int, i: int, j: int, draws: seq<Pos>)
      requires Valid() && InGrid(row, col) && attempts > 0
      requires board[row, col] == Blank && grid[row, col] == 0
      requires Near(row, col, i, j)
      modifies this, grid, board
      decreases HiddenSet() + {Pos(row, col)}, 0
      ensures Valid()
      ensures attempts == old(attempts) && won == old(won) && uncovered == old(uncovered) && gameEnd == old(gameEnd)
      ensures unchanged(grid)
      ensures SpreadClosed(Pos(row, col)) && SpreadReach(Pos(row, col))
      ensures board[row, col] == Blank && board[i, j] != Hidden
      ensures forall a, b :: InGrid(a, b) && board[a, b] != old(board[a, b]) ==>
                old(board[a, b]) == Hidden && board[a, b].Uncovered()
      // a neighbour that is not covered is left alone
      ensures old(board[i, j]) != Hidden ==> unchanged(board)
    {
      if board[i, j] == Hidden {
        // (row, col) has no mine around it, so this neighbour is safe
        ZeroAroundNoMine(MineSet(), rows, cols, row, col, i, j);
        assert Pos(row, col) !in HiddenSet();
        UncoverDots(j, i, false, draws);
        SpreadJoin(old(HiddenSet()), old(HiddenSet()), HiddenSet(),
                   old(BlankSet()), old(BlankSet()), BlankSet(), Pos(row, col), Pos(i, j));
      } else {
        assert BlankSet() * HiddenSet() == {};
      }
    }

    /**
      The scan of the win check: counts the uncovered squares in row-major order,
      stopping at the first shown mine. `stopped` tells whether it met one.
    */
    method CountUncovered() returns (n: nat, stopped: bool)
      requires Shape()
      ensures stopped <==> !NoMineBefore(rows, 0)
      ensures !stopped ==> n == |UncoveredSet()|
      ensures stopped ==> exists i, u :: InGrid(i, u) && board[i, u] == Mine && NoMineBefore(i, u) &&
                                         n == |UncoveredBefore(i, u)|
    {
      n := 0;
      for i := 0 to rows
        invariant n == |UncoveredBefore(i, 0)|
        invariant NoMineBefore(i, 0)
      {
        for u := 0 to cols
          invariant n == |UncoveredBefore(i, u)|
          invariant NoMineBefore(i, u)
        {
          UncoveredStep(i, u);
          if board[i, u] != Hidden && board[i, u] != Flagged && board[i, u] != Mine {
            n := n + 1;
          }
          if board[i, u] == Mine {
            return n, true;
          }
        }
        UncoveredNextRow(i);
      }
      stopped := false;
    }

    /**
      The win check. It counts the uncovered squares and stops at the first
      shown mine; when every square without a mine is uncovered it shows the
      mines and ends the game as won. Returns whether the game is won.
    */
    method WinLose() returns (result: bool)
      requires Valid()
      modifies this`uncovered, this`won, this`gameEnd, board
      ensures Valid() && result == won
      // a mine is shown: the count stops there and nothing else changes
      ensures !old(NoMineBefore(rows, 0)) ==>
                won == old(won) && gameEnd == old(gameEnd) && unchanged(board) &&
                exists i, u :: InGrid(i, u) && board[i, u] == Mine && NoMineBefore(i, u) &&
                               uncovered == |UncoveredBefore(i, u)|
      ensures old(NoMineBefore(rows, 0)) ==> uncovered == old(|UncoveredSet()|)
      // every safe square is uncovered: won
      ensures old(NoMineBefore(rows, 0)) && uncovered == rows * cols - mines ==>
                won && gameEnd &&
                forall i, j :: InGrid(i, j) ==> board[i, j] == if grid[i, j] == -1 then Mine else old(board[i, j])
      // otherwise nothing changes
      ensures old(NoMineBefore(rows, 0)) && uncovered != rows * cols - mines ==>
                won == old(won) && gameEnd == old(gameEnd) && unchanged(board)
      // with the mines placed, the count decides exactly whether every safe square is uncovered
      ensures old(NoMineBefore(rows, 0)) && attempts > 0 ==> (won <==> old(won) || old(AllSafeUncovered()))
    {
      if attempts > 0 {
        WinCountMeansAllSafeUncovered();
      }
      var stopped;
      uncovered, stopped := CountUncovered();
      if stopped {
        return won;
      }
      if rows * cols - mines == uncovered {
        ShowMines();
        won := true;
        gameEnd := true;
      }
      result := won;
    }

    /** A window around more squares covers more. */
    lemma HaloGrows(a: set<Pos>, b: set<Pos>)
      requires a <= b
      ensures Halo(a) <= Halo(b)
    {
    }

    /** The window around a union of squares is the union of their windows. */
    lemma HaloUnion(a: set<Pos>, b: set<Pos>)
      ensures Halo(a + b) == Halo(a) + Halo(b)
    {
    }

    /**
      Two stretches of a spread from the blank square t make one: the first
      uncovers o - m, the second, started at u next to t, uncovers m - n.
    */
    lemma SpreadJoin(o: set<Pos>, m: set<Pos>, n: set<Pos>, bo: set<Pos>, bm: set<Pos>, bn: set<Pos>, t: Pos, u: Pos)
      requires n <= m <= o && bo <= bm <= bn
      requires bm - bo <= o + {t} && bn - bm <= m + {u}
      requires o - m <= Halo(bm * (o + {t})) + {t}
      requires m - n <= Halo(bn * (m + {u})) + {u}
      requires t in bn && u in o + {t} && Near(t.row, t.col, u.row, u.col)
      ensures bn - bo <= o + {t}
      ensures o - n <= Halo(bn * (o + {t})) + {t}
    {
      forall p | p in bn - bo
        ensures p in o + {t}
      {
        if p !in bm {
          assert p in m + {u};
        }
      }
      var w := bn * (o + {t});
      HaloGrows(bm * (o + {t}), w);
      HaloGrows(bn * (m + {u}), w);
      assert Pos(u.row, u.col) in Halo(w) by {
        assert t in w;
      }
      forall p | p in o - n
        ensures p in Halo(w) + {t}
      {
        if p !in o - m && p != u {
          assert p in m - n;
          assert p in Halo(bn * (m + {u})) + {u};
        }
      }
    }

    /**
      Two stretches of a spread around the blank square u leave no covered
      square next to a blank either uncovered: the first blanks bm * o and
      covers nothing next to them, the second blanks bn * m and does the same.
    */
    lemma ClosedJoin(o: set<Pos>, m: set<Pos>, n: set<Pos>, bm: set<Pos>, bn: set<Pos>, u: Pos)
      requires n <= m && bm <= bn && bn - bm <= m + {u} && u in bm
      requires Halo(bm * o) !! m && Halo(bn * m) !! n
      ensures Halo(bn * o) !! n
    {
      forall p | p in bn * o
        ensures p in bm * o + bn * m
      {
        if p !in bm {
          assert p in m + {u};
        }
      }
      HaloGrows(bn * o, bm * o + bn * m);
      HaloUnion(bm * o, bn * m);
    }

    /**
      Blanking t and then spreading around it: the blanks the spread made, and
      t itself, have no covered square left in their windows.
    */
    lemma ClosedAfterBlank(o: set<Pos>, m: set<Pos>, n: set<Pos>, b: set<Pos>, t: Pos)
      requires o <= m + {t}
      requires Halo(b * m) !! n && Halo({t}) !! n
      ensures Halo(b * o) !! n
    {
      HaloGrows(b * o, b * m + {t});
      HaloUnion(b * m, {t});
    }

    /**
      The closure clause of the spread, read square by square: no covered square
      lies in the window of a square of `s` exactly when no square of `s` has a
      covered neighbour.
    */
    lemma ClosedMeansNoCoveredNeighbour(s: set<Pos>)
      requires Shape()
      ensures Halo(s) !! HiddenSet() <==>
                forall p, i, j :: p in s && Near(p.row, p.col, i, j) ==> board[i, j] != Hidden
    {
      if Halo(s) !! HiddenSet() {
        forall p, i, j | p in s && Near(p.row, p.col, i, j)
          ensures board[i, j] != Hidden
        {
          assert Pos(i, j) in Halo(s);
        }
      } else {
        var x :| x in Halo(s) && x in HiddenSet();
        var p :| p in s && p.row - 1 <= x.row <= p.row + 1 && p.col - 1 <= x.col <= p.col + 1;
        assert Near(p.row, p.col, x.row, x.col) && board[x.row, x.col] == Hidden;
      }
    }

    /** A square whose whole window is uncovered or flagged has no covered square in its window. */
    lemma WindowClear(row: int, col: int)
      requires Shape() && InGrid(row, col)
      requires forall i, j :: Near(row, col, i, j) ==> board[i, j] != Hidden
      ensures Halo({Pos(row, col)}) !! HiddenSet()
    {
      forall p | p in Halo({Pos(row, col)})
        ensures p !in HiddenSet()
      {
        assert Near(row, col, p.row, p.col);
      }
    }

    lemma UncoveredStep(i: int, u: int)
      requires Shape() && InGrid(i, u)
      ensures |UncoveredBefore(i, u + 1)| == |UncoveredBefore(i, u)| + if board[i, u].Uncovered() then 1 else 0
    {
      if board[i, u].Uncovered() {
        assert UncoveredBefore(i, u + 1) == UncoveredBefore(i, u) + {Pos(i, u)};
      } else {
        assert UncoveredBefore(i, u + 1) == UncoveredBefore(i, u);
      }
    }

    lemma UncoveredNextRow(i: int)
      requires Shape()
      ensures UncoveredBefore(i, cols) == UncoveredBefore(i + 1, 0)
    {
    }

    /** With the mines placed, the uncovered squares number rows * cols - mines
        exactly when every square without a mine is uncovered. */
    lemma WinCountMeansAllSafeUncovered()
      requires Valid() && attempts > 0
      ensures |UncoveredSet()| == rows * cols - mines <==> AllSafeUncovered()
    {
      UncoveredAreSafe();
      SafeCount();
      SubsetSameSize(UncoveredSet(), SafeSet());
      AllSafeUncoveredIsCover();
    }

    lemma UncoveredAreSafe()
      requires Shape() && Agrees()
      ensures UncoveredSet() <= SafeSet()
    {
      forall p | p in UncoveredSet()
        ensures p in SafeSet()
      {
        var a, b :| 0 <= a < rows && 0 <= b < cols && board[a, b].Uncovered() && p == Pos(a, b);
        assert grid[a, b] != -1;
      }
    }

    lemma SafeCount()
      requires Shape()
      ensures |SafeSet()| == rows * cols - |MineSet()|
    {
      assert BoardCells(rows, cols) == SafeSet() + MineSet();
      assert SafeSet() !! MineSet();
      CellsCard(rows, cols);
    }

    lemma AllSafeUncoveredIsCover()
      requires Shape()
      ensures AllSafeUncovered() <==> SafeSet() <= UncoveredSet()
    {
      if AllSafeUncovered() {
        forall p | p in SafeSet()
          ensures p in UncoveredSet()
        {
          var a, b :| 0 <= a < rows && 0 <= b < cols && grid[a, b] != -1 && p == Pos(a, b);
          assert board[a, b].Uncovered();
        }
      }
      if SafeSet() <= UncoveredSet() {
        forall i, j | InGrid(i, j) && grid[i, j] != -1
          ensures board[i, j].Uncovered()
        {
          assert Pos(i, j) in SafeSet();
        }
      }
    }

    /** The "flag" command on (row, col). Returns false, leaving the board alone,
        when the square is already uncovered. */
    method ToggleFlag(row: int, col: int) returns (changed: bool)
      requires Valid() && InGrid(row, col)
      modifies board
      ensures Valid()
      ensures board[row, col] == Flag(old(board[row, col]))
      ensures changed <==> old(board[row, col]).Hidden? || old(board[row, col]).Flagged?
      ensures forall i, j :: InGrid(i, j) && (i != row || j != col) ==> board[i, j] == old(board[i, j])
    {
      if board[row, col] != Hidden {
        if board[row, col] == Flagged {
          board[row, col] := Hidden;
          changed := true;
        } else {
          changed := false;
        }
      } else {
        board[row, col] := Flagged;
        changed := true;
      }
    }

    /** The "unflag" command on (row, col). Returns false, leaving the board alone,
        when the square holds no flag. */
    method RemoveFlag(row: int, col: int) returns (changed: bool)
      requires Valid() && InGrid(row, col)
      modifies board
      ensures Valid()
      ensures board[row, col] == Unflag(old(board[row, col]))
      ensures changed <==> old(board[row, col]).Flagged?
      ensures forall i, j :: InGrid(i, j) && (i != row || j != col) ==> board[i, j] == old(board[i, j])
    {
      if board[row, col] == Flagged {
        board[row, col] := Hidden;
        changed := true;
      } else {
        changed := false;
      }
    }
  }
}
