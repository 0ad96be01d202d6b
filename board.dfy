/**
 * The game board: the grid of squares and the set of squares dug so far.
 *
 * Construction places the mines from a sequence of draws (the values the
 * random source returns) and then labels every safe square with its
 * neighbour count. Digging adds squares to the dug set, cascading through
 * zero squares. The visible grid shows what the player may see.
 */
module Minesweeper {
  import opened Grid
  import opened Neighbours
  import opened Placement
  import opened Flood
  import opened Render

  class Board {
    const dimSize: nat
    const numBombs: nat
    var board: seq<seq<Cell>>
    var dug: set<Coord>

    /** The board's invariant once constructed: a labelled dimSize x dimSize
        grid with numBombs mines, and only squares of the grid dug. */
    ghost predicate Valid()
      reads this
    {
      && IsGrid(board, dimSize)
      && Consistent(board, dimSize)
      && |MineSet(board, dimSize)| == numBombs
      && dug <= AllCells(dimSize)
    }

    /** A valid board between digs: every dug zero square has its whole
        window dug, so no cascade is left unfinished. */
    ghost predicate Settled()
      reads this
    {
      Valid() && Closed(board, dimSize, dug)
    }

    /** Builds the board: mines from the draws, then labels, nothing dug. */
    constructor (dimSize: nat, numBombs: nat, draws: seq<int>)
      requires DrawsInRange(draws, dimSize) && numBombs <= |Drawn(draws)|
      ensures Valid() && Settled()
      ensures this.dimSize == dimSize && this.numBombs == numBombs
      ensures dug == {}
      ensures exists used :: FirstEnough(draws, used, numBombs) && MineSet(board, dimSize) == DrawnCells(draws[..used], dimSize)
    {
      this.dimSize := dimSize;
      this.numBombs := numBombs;
      new;
      board := MakeNewBoard(draws);
      ghost var placed := board;
      AssignValuesToBoard();
      LabelledIsConsistent(placed, dimSize);
      dug := {};
    }

    /** Places the mines: each draw picks a square, a draw on a square that
        already holds a mine is discarded, until numBombs mines are down.
        The resulting mines are exactly the squares of the shortest prefix
        of the draws that holds numBombs distinct values. */
    method MakeNewBoard(draws: seq<int>) returns (b: seq<seq<Cell>>)
      requires DrawsInRange(draws, dimSize) && numBombs <= |Drawn(draws)|
      ensures IsGrid(b, dimSize)
      ensures MinesOnly(b, dimSize)
      ensures |MineSet(b, dimSize)| == numBombs
      ensures exists used :: FirstEnough(draws, used, numBombs) && MineSet(b, dimSize) == DrawnCells(draws[..used], dimSize)
    {
      var n := dimSize;
      b := seq(n, _ => seq(n, _ => Unset));
      assert MineSet(b, n) == {};
      assert Drawn(draws[..0]) == {} && DrawnCells(draws[..0], n) == {};
      var planted := 0;
      var i := 0;  // draws taken so far
      while planted < numBombs
        invariant PlacementSoFar(b, n, draws, i, planted, numBombs)
        decreases |draws| - i
      {
        PlacementDrawLeft(b, n, draws, i, planted, numBombs);
        DrawStep(draws, i, n);
        var loc := draws[i];
        var row := loc / n;
        var col := loc % n;
        if b[row][col] == Mine {
          PlacementSkip(b, n, draws, i, planted, numBombs);
          i := i + 1;
          continue;
        }
        PlacementPlant(b, n, draws, i, planted, numBombs);
        i := i + 1;
        b := b[row := b[row][col := Mine]];
        planted := planted + 1;
      }
      assert FirstEnough(draws, i, numBombs);
    }

    /** Writes into every safe square the number of mines around it. The
        count only looks for mines and only safe squares are written, so
        the squares already written do not change the later counts. */
    method AssignValuesToBoard()
      requires IsGrid(board, dimSize)
      modifies this`board
      ensures board == Labelled(old(board), dimSize)
    {
      var n := dimSize;
      ghost var g := board;
      for r := 0 to n
        invariant LabelledUpTo(board, g, n, r, 0)
      {
        for c := 0 to n
          invariant LabelledUpTo(board, g, n, r, c)
        {
          if board[r][c] == Mine {
            LabelSkip(board, g, n, r, c);
            continue;
          }
          var count := GetNeighboringBombCount(r, c);
          LabelWrite(board, g, n, r, c);
          board := board[r := board[r][c := Count(count)]];
        }
        LabelNextRow(board, g, n, r);
      }
      LabelDone(board, g, n);
    }

    /** The number of mines around (row, col), clipped at the edges. */
    method GetNeighboringBombCount(row: int, col: int) returns (count: nat)
      requires IsGrid(board, dimSize)
      ensures count == NeighborCount(board, dimSize, row, col)
      ensures count == |NeighborMines(board, dimSize, row, col)|
      ensures count <= 8
    {
      var n := dimSize;
      count := 0;
      var r := Lo(row);
      while r <= Hi(n, row)
        invariant Lo(row) <= r && (r <= Hi(n, row) + 1 || r == Lo(row))
        invariant count == WindowMines(board, n, Lo(row), r - 1, Lo(col), Hi(n, col), row, col)
      {
        var c := Lo(col);
        while c <= Hi(n, col)
          invariant Lo(col) <= c && (c <= Hi(n, col) + 1 || c == Lo(col))
          invariant count == WindowMines(board, n, Lo(row), r - 1, Lo(col), Hi(n, col), row, col)
                           + RowMines(board, n, r, Lo(col), c - 1, row, col)
        {
          if r == row && c == col {
            // a square is not its own neighbour
          } else if board[r][c] == Mine {
            count := count + 1;
          }
          c := c + 1;
        }
        r := r + 1;
      }
      NeighborCountIsSize(board, n, row, col);
      NeighborCountAtMostEight(board, n, row, col);
    }

    /** Digs (row, col). Returns false exactly when it is a mine. A zero
        square also digs every square of its window not dug yet, so the
        squares added are exactly the cascade region of (row, col). */
    method Dig(row: int, col: int) returns (safe: bool)
      requires Valid() && InGrid(dimSize, row, col)
      modifies this`dug
      ensures Valid() && board == old(board)
      ensures dug == old(dug) + Region(board, dimSize, old(dug), (row, col))
      ensures safe <==> board[row][col] != Mine
      ensures !ZeroAt(board, (row, col)) ==> dug == old(dug) + {(row, col)}
      ensures forall p :: p in dug - old(dug) && p != (row, col) ==> !MineAt(board, p)
      ensures ZeroAt(board, (row, col)) ==> WindowDug(dimSize, dug, row, col)
      ensures forall p :: p in dug - old(dug) && ZeroAt(board, p) ==> WindowDug(dimSize, dug, p.0, p.1)
      ensures Closed(board, dimSize, old(dug)) ==> Closed(board, dimSize, dug)
      ensures old(Settled()) ==> Settled()
      ensures old(Settled()) && (row, col) in old(dug) ==> dug == old(dug)
      decreases dimSize * dimSize - |dug + {(row, col)}|, 1
    {
      var n, g := dimSize, board;
      ghost var avoid := dug;
      assert Closed(g, n, avoid) && (row, col) in avoid ==> Region(g, n, avoid, (row, col)) == {(row, col)} by {
        if Closed(g, n, avoid) && (row, col) in avoid {
          RegionOfDugSquare(g, n, avoid, (row, col));
        }
      }
      AllCellsSize(n);
      SubsetSize(dug + {(row, col)}, AllCells(n));
      dug := dug + {(row, col)};
      TargetInRegion(g, n, avoid, (row, col));
      assert g[row][col] == LabelAt(g, n, row, col);
      if g[row][col] == Mine || g[row][col].n > 0 {
        RegionOfNonZero(g, n, avoid, (row, col));
        if Closed(g, n, avoid) {
          ClosedGrows(g, n, avoid, dug);
        }
        return g[row][col] != Mine;
      }
      DigAround(row, col, avoid);
      CascadeDone(g, n, avoid, (row, col), dug);
      return true;
    }

    /** The two loops of a dig of the zero square (row, col): every square
        of its clipped window not dug yet is dug in turn, row by row. The
        cascade started with `avoid` dug keeps its mid-state, and at the end
        the whole window is dug. */
    method DigAround(row: int, col: int, ghost avoid: set<Coord>)
      requires Valid() && InGrid(dimSize, row, col) && ZeroAt(board, (row, col))
      requires CascadeSoFar(board, dimSize, avoid, (row, col), dug)
      modifies this`dug
      ensures Valid() && board == old(board) && old(dug) <= dug
      ensures CascadeSoFar(board, dimSize, avoid, (row, col), dug)
      ensures WindowDug(dimSize, dug, row, col)
      decreases dimSize * dimSize - |dug|, 0
    {
      var n, g := dimSize, board;
      AllCellsSize(n);
      assert IsGrid(g, n) && Consistent(g, n) && |MineSet(g, n)| == numBombs;
      var r := Lo(row);
      while r <= Hi(n, row)
        invariant Lo(row) <= r <= Hi(n, row) + 1
        invariant board == g && old(dug) <= dug <= AllCells(n)
        invariant CascadeSoFar(g, n, avoid, (row, col), dug)
        invariant WindowDugBefore(n, dug, row, col, r, Lo(col))
      {
        var c := Lo(col);
        while c <= Hi(n, col)
          invariant Lo(col) <= c <= Hi(n, col) + 1
          invariant board == g && old(dug) <= dug <= AllCells(n)
          invariant CascadeSoFar(g, n, avoid, (row, col), dug)
          invariant WindowDugBefore(n, dug, row, col, r, c)
        {
          if (r, c) !in dug {
            ghost var before := dug;
            LoopSquareInWindow(n, row, col, r, c);
            GrowWithin(old(dug), before, (r, c), AllCells(n));
            var _ := Dig(r, c);
            CascadeStep(g, n, avoid, (row, col), before, dug, (r, c));
            WindowDugBeforeGrows(n, before, dug, row, col, r, c);
          }
          WindowDugBeforeNextColumn(n, dug, row, col, r, c);
          c := c + 1;
        }
        WindowDugBeforeNextRow(n, dug, row, col, r);
        r := r + 1;
      }
      WindowDugBeforeDone(n, dug, row, col, Lo(col));
    }

    /** The text grid the player sees: a dug square shows its content, an
        undug one a blank. Nothing on the board changes. */
    method VisibleBoard() returns (visible: seq<seq<string>>)
      requires IsGrid(board, dimSize)
      ensures |visible| == dimSize
      ensures forall r :: 0 <= r < dimSize ==> |visible[r]| == dimSize
      ensures forall r, c :: InGrid(dimSize, r, c) ==> visible[r][c] == VisibleText(board[r][c], (r, c) in dug)
    {
      var n, g, d := dimSize, board, dug;
      visible := [];
      for row := 0 to n
        invariant |visible| == row
        invariant forall r :: 0 <= r < row ==> |visible[r]| == n
        invariant forall r, c :: 0 <= r < row && 0 <= c < n ==> visible[r][c] == VisibleText(g[r][c], (r, c) in d)
      {
        var line: seq<string> := [];
        for col := 0 to n
          invariant |line| == col
          invariant forall c :: 0 <= c < col ==> line[c] == VisibleText(g[row][c], (row, c) in d)
        {
          if (row, col) in d {
            line := line + [CellText(g[row][col])];
          } else {
            line := line + [" "];
          }
        }
        visible := visible + [line];
      }
    }

    /** The visible grid and its column widths, the two things the text
        rendering is built from: on a constructed board every square shows
        one character, so every column is one character wide. */
    method VisibleWidths() returns (visible: seq<seq<string>>, widths: seq<nat>)
      requires Valid()
      ensures |visible| == dimSize && forall r :: 0 <= r < dimSize ==> |visible[r]| == dimSize
      ensures forall r, c :: InGrid(dimSize, r, c) ==> visible[r][c] == VisibleText(board[r][c], (r, c) in dug)
      ensures |widths| == dimSize
      ensures forall idx :: 0 <= idx < dimSize ==> widths[idx] == 1
    {
      visible := VisibleBoard();
      forall r, c | InGrid(dimSize, r, c)
        ensures |visible[r][c]| == 1
      {
        VisibleSquaresOneWide(this, r, c);
      }
      widths := ColumnWidths(visible, dimSize);
    }

    /** The game is won once all squares but the mines are dug. */
    predicate AllSafeDug()
      reads this
    {
      |dug| >= dimSize * dimSize - numBombs
    }
  }

  /** With no mine dug, the win test holds exactly when every safe square
      has been dug. */
  lemma WinMeansEverySafeSquareDug(b: Board)
    requires b.Valid() && b.dug * MineSet(b.board, b.dimSize) == {}
    ensures b.AllSafeDug() <==> b.dug == SafeSet(b.board, b.dimSize)
  {
    SafeSetSize(b.board, b.dimSize);
    assert b.dug <= SafeSet(b.board, b.dimSize);
    SubsetSize(b.dug, SafeSet(b.board, b.dimSize));
    if b.AllSafeDug() {
      SubsetSameSize(b.dug, SafeSet(b.board, b.dimSize));
    }
  }

  /** On a valid board every visible square is one character wide, so
      every column of the text grid is one character wide. */
  lemma VisibleSquaresOneWide(b: Board, r: int, c: int)
    requires b.Valid() && InGrid(b.dimSize, r, c)
    ensures |VisibleText(b.board[r][c], (r, c) in b.dug)| == 1
  {
    assert b.board[r][c] == LabelAt(b.board, b.dimSize, r, c);
    NeighborCountAtMostEight(b.board, b.dimSize, r, c);
    VisibleTextOneWide(b.board[r][c], (r, c) in b.dug);
  }

  /** The state of the placement loop after i draws and planted mines. */
  ghost predicate PlacementSoFar(b: seq<seq<Cell>>, n: nat, draws: seq<int>, i: int, planted: nat, numBombs: nat)
  {
    && 0 <= i <= |draws|
    && IsGrid(b, n)
    && MinesOnly(b, n)
    && MineSet(b, n) == DrawnCells(draws[..i], n)
    && planted == |Drawn(draws[..i])| == |MineSet(b, n)|
    && planted <= numBombs
    && (i > 0 ==> |Drawn(draws[..i - 1])| < numBombs)
  }

  /** While mines are missing, a draw is left. */
  lemma PlacementDrawLeft(b: seq<seq<Cell>>, n: nat, draws: seq<int>, i: int, planted: nat, numBombs: nat)
    requires PlacementSoFar(b, n, draws, i, planted, numBombs) && planted < numBombs
    requires numBombs <= |Drawn(draws)|
    ensures i < |draws|
  {
    assert draws[..|draws|] == draws;
  }

  /** A draw landing on a mine is discarded: the loop state holds with one
      more draw taken and no mine added. */
  lemma PlacementSkip(b: seq<seq<Cell>>, n: nat, draws: seq<int>, i: int, planted: nat, numBombs: nat)
    requires PlacementSoFar(b, n, draws, i, planted, numBombs) && planted < numBombs
    requires DrawsInRange(draws, n) && i < |draws|
    requires n > 0 && InGrid(n, draws[i] / n, draws[i] % n) && b[draws[i] / n][draws[i] % n] == Mine
    ensures PlacementSoFar(b, n, draws, i + 1, planted, numBombs)
  {
    DrawStep(draws, i, n);
    var loc := draws[i];
    assert CellOf(loc, n) in MineSet(b, n);
    assert draws[..i + 1][..i] == draws[..i];
  }

  /** A draw landing on a free square plants a mine there. */
  lemma PlacementPlant(b: seq<seq<Cell>>, n: nat, draws: seq<int>, i: int, planted: nat, numBombs: nat)
    requires PlacementSoFar(b, n, draws, i, planted, numBombs) && planted < numBombs
    requires DrawsInRange(draws, n) && i < |draws|
    requires n > 0 && InGrid(n, draws[i] / n, draws[i] % n) && b[draws[i] / n][draws[i] % n] != Mine
    ensures PlacementSoFar(b[draws[i] / n := b[draws[i] / n][draws[i] % n := Mine]], n, draws, i + 1, planted + 1, numBombs)
  {
    DrawStep(draws, i, n);
    var loc := draws[i];
    var row, col := loc / n, loc % n;
    var b' := b[row := b[row][col := Mine]];
    MineSetAdd(b, n, row, col);
    assert (row, col) == CellOf(loc, n) && (row, col) !in DrawnCells(draws[..i], n);
    assert MineSet(b', n) == DrawnCells(draws[..i + 1], n);
    assert |Drawn(draws[..i + 1])| == planted + 1;
    assert draws[..i + 1][..i] == draws[..i];
    PlantKeepsMinesOnly(b, n, row, col);
  }
}
