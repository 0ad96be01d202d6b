/**
 * Neighbour counts: the number of mines in the edge-clipped 3x3 window
 * around a square, and the labelling that writes that number into every
 * safe square.
 *
 * NeighborCount follows the two loops of get_neighboring_bomb_count (rows then columns of
 * the clipped window, left to right); NeighborMines is the same notion
 * as a set, and NeighborCountIsSize ties the two together.
 */
module Neighbours {
  import opened Grid

  /** max(0, x - 1): the first row (or column) of the clipped window. */
  function Lo(x: int): int
  {
    if x - 1 > 0 then x - 1 else 0
  }

  /** min(n - 1, x + 1): the last row (or column) of the clipped window. */
  function Hi(n: int, x: int): int
  {
    if n - 1 < x + 1 then n - 1 else x + 1
  }

  /** (r, c) is on the grid and at most one step from (row, col) in each
      direction; this includes (row, col) itself. */
  predicate InWindow(n: int, row: int, col: int, r: int, c: int)
  {
    InGrid(n, r, c) && row - 1 <= r <= row + 1 && col - 1 <= c <= col + 1
  }

  /** The squares the clipped loops visit are exactly the window's. */
  lemma LoopSquareInWindow(n: nat, row: int, col: int, r: int, c: int)
    requires Lo(row) <= r <= Hi(n, row) && Lo(col) <= c <= Hi(n, col)
    ensures InWindow(n, row, col, r, c) && (r, c) in AllCells(n)
  {
  }

  /** Mines on row r at columns lo..hi, not counting (row, col). */
  function RowMines(g: seq<seq<Cell>>, n: nat, r: int, lo: int, hi: int, row: int, col: int): nat
    requires IsGrid(g, n) && 0 <= r < n && 0 <= lo && (lo <= hi ==> hi < n)
    decreases hi - lo
  {
    if hi < lo then 0
    else RowMines(g, n, r, lo, hi - 1, row, col) + (if (r, hi) != (row, col) && g[r][hi] == Mine then 1 else 0)
  }

  /** Mines on rows lo..hi and columns clo..chi, not counting (row, col). */
  function WindowMines(g: seq<seq<Cell>>, n: nat, lo: int, hi: int, clo: int, chi: int, row: int, col: int): nat
    requires IsGrid(g, n) && 0 <= lo && (lo <= hi ==> hi < n) && 0 <= clo && (clo <= chi ==> chi < n)
    decreases hi - lo
  {
    if hi < lo then 0
    else WindowMines(g, n, lo, hi - 1, clo, chi, row, col) + RowMines(g, n, hi, clo, chi, row, col)
  }

  /** The number of mines around (row, col), counted over the clipped
      window exactly as the loops of get_neighboring_bomb_count visit it. */
  function NeighborCount(g: seq<seq<Cell>>, n: nat, row: int, col: int): nat
    requires IsGrid(g, n)
  {
    WindowMines(g, n, Lo(row), Hi(n, row), Lo(col), Hi(n, col), row, col)
  }

  /** The mines that neighbour (row, col): on the grid, at most one step
      away in each direction, and not (row, col) itself. */
  function NeighborMines(g: seq<seq<Cell>>, n: nat, row: int, col: int): (s: set<Coord>)
    requires IsGrid(g, n)
    ensures forall p :: p in s <==> InWindow(n, row, col, p.0, p.1) && p != (row, col) && g[p.0][p.1] == Mine
  {
    set p | p in AllCells(n) && InWindow(n, row, col, p.0, p.1) && p != (row, col) && g[p.0][p.1] == Mine
  }

  function RowMineSet(g: seq<seq<Cell>>, n: nat, r: int, lo: int, hi: int, row: int, col: int): (s: set<Coord>)
    requires IsGrid(g, n) && 0 <= r < n && 0 <= lo && (lo <= hi ==> hi < n)
    ensures forall p :: p in s <==> p.0 == r && lo <= p.1 <= hi && p != (row, col) && g[r][p.1] == Mine
  {
    set p | p in AllCells(n) && p.0 == r && lo <= p.1 <= hi && p != (row, col) && g[r][p.1] == Mine
  }

  function WindowMineSet(g: seq<seq<Cell>>, n: nat, lo: int, hi: int, clo: int, chi: int, row: int, col: int): (s: set<Coord>)
    requires IsGrid(g, n) && 0 <= lo && (lo <= hi ==> hi < n) && 0 <= clo && (clo <= chi ==> chi < n)
    ensures forall p :: p in s <==> lo <= p.0 <= hi && clo <= p.1 <= chi && p != (row, col) && g[p.0][p.1] == Mine
  {
    set p | p in AllCells(n) && lo <= p.0 <= hi && clo <= p.1 <= chi && p != (row, col) && g[p.0][p.1] == Mine
  }

  lemma {:induction false} RowMinesIsSize(g: seq<seq<Cell>>, n: nat, r: int, lo: int, hi: int, row: int, col: int)
    requires IsGrid(g, n) && 0 <= r < n && 0 <= lo && (lo <= hi ==> hi < n)
    ensures RowMines(g, n, r, lo, hi, row, col) == |RowMineSet(g, n, r, lo, hi, row, col)|
    decreases hi - lo
  {
    if hi < lo {
      RowMineSetEmpty(g, n, r, lo, hi, row, col);
    } else {
      RowMinesIsSize(g, n, r, lo, hi - 1, row, col);
      RowMineSetStep(g, n, r, lo, hi, row, col);
    }
  }

  lemma RowMineSetEmpty(g: seq<seq<Cell>>, n: nat, r: int, lo: int, hi: int, row: int, col: int)
    requires IsGrid(g, n) && 0 <= r < n && 0 <= lo && hi < lo
    ensures |RowMineSet(g, n, r, lo, hi, row, col)| == 0
  {
    assert RowMineSet(g, n, r, lo, hi, row, col) == {};
  }

  /** Column hi adds its square to the row's mines exactly when it is a
      mine other than (row, col). */
  lemma RowMineSetStep(g: seq<seq<Cell>>, n: nat, r: int, lo: int, hi: int, row: int, col: int)
    requires IsGrid(g, n) && 0 <= r < n && 0 <= lo <= hi < n
    ensures |RowMineSet(g, n, r, lo, hi, row, col)|
            == |RowMineSet(g, n, r, lo, hi - 1, row, col)| + (if (r, hi) != (row, col) && g[r][hi] == Mine then 1 else 0)
  {
    var before, now, q := RowMineSet(g, n, r, lo, hi - 1, row, col), RowMineSet(g, n, r, lo, hi, row, col), (r, hi);
    if q != (row, col) && g[r][hi] == Mine {
      forall p ensures p in now <==> p in before || p == q {
        assert p == q <==> p.0 == r && p.1 == hi;
      }
      assert now == before + {q} && q !in before;
    } else {
      forall p ensures p in now <==> p in before {
        assert p == q <==> p.0 == r && p.1 == hi;
      }
      assert now == before;
    }
  }

  lemma {:induction false} WindowMinesIsSize(g: seq<seq<Cell>>, n: nat, lo: int, hi: int, clo: int, chi: int, row: int, col: int)
    requires IsGrid(g, n) && 0 <= lo && (lo <= hi ==> hi < n) && 0 <= clo && (clo <= chi ==> chi < n)
    ensures WindowMines(g, n, lo, hi, clo, chi, row, col) == |WindowMineSet(g, n, lo, hi, clo, chi, row, col)|
    decreases hi - lo
  {
    if hi < lo {
      WindowMineSetEmpty(g, n, lo, hi, clo, chi, row, col);
    } else {
      WindowMinesIsSize(g, n, lo, hi - 1, clo, chi, row, col);
      RowMinesIsSize(g, n, hi, clo, chi, row, col);
      WindowMineSetStep(g, n, lo, hi, clo, chi, row, col);
    }
  }

  lemma WindowMineSetEmpty(g: seq<seq<Cell>>, n: nat, lo: int, hi: int, clo: int, chi: int, row: int, col: int)
    requires IsGrid(g, n) && 0 <= lo && hi < lo && 0 <= clo && (clo <= chi ==> chi < n)
    ensures |WindowMineSet(g, n, lo, hi, clo, chi, row, col)| == 0
  {
    assert WindowMineSet(g, n, lo, hi, clo, chi, row, col) == {};
  }

  /** Row hi adds its mines to those of rows lo .. hi - 1. */
  lemma WindowMineSetStep(g: seq<seq<Cell>>, n: nat, lo: int, hi: int, clo: int, chi: int, row: int, col: int)
    requires IsGrid(g, n) && 0 <= lo <= hi < n && 0 <= clo && (clo <= chi ==> chi < n)
    ensures |WindowMineSet(g, n, lo, hi, clo, chi, row, col)|
            == |WindowMineSet(g, n, lo, hi - 1, clo, chi, row, col)| + |RowMineSet(g, n, hi, clo, chi, row, col)|
  {
    var above := WindowMineSet(g, n, lo, hi - 1, clo, chi, row, col);
    var last := RowMineSet(g, n, hi, clo, chi, row, col);
    assert WindowMineSet(g, n, lo, hi, clo, chi, row, col) == above + last;
    DisjointUnionSize(above, last);
  }

  /** The loop-order count is the number of neighbouring mines. */
  lemma NeighborCountIsSize(g: seq<seq<Cell>>, n: nat, row: int, col: int)
    requires IsGrid(g, n)
    ensures NeighborCount(g, n, row, col) == |NeighborMines(g, n, row, col)|
  {
    WindowMinesIsSize(g, n, Lo(row), Hi(n, row), Lo(col), Hi(n, col), row, col);
    assert WindowMineSet(g, n, Lo(row), Hi(n, row), Lo(col), Hi(n, col), row, col) == NeighborMines(g, n, row, col);
  }

  /** The eight squares around (row, col), ignoring the grid's edges. */
  function Ring(row: int, col: int): set<Coord>
  {
    {(row - 1, col - 1), (row - 1, col), (row - 1, col + 1),
     (row, col - 1), (row, col + 1),
     (row + 1, col - 1), (row + 1, col), (row + 1, col + 1)}
  }

  lemma RingSize(row: int, col: int)
    ensures |Ring(row, col)| == 8
  {
  }

  lemma NeighborMinesInRing(g: seq<seq<Cell>>, n: nat, row: int, col: int)
    requires IsGrid(g, n)
    ensures NeighborMines(g, n, row, col) <= Ring(row, col)
  {
  }

  /** A square has at most eight neighbouring mines. */
  lemma NeighborCountAtMostEight(g: seq<seq<Cell>>, n: nat, row: int, col: int)
    requires IsGrid(g, n)
    ensures NeighborCount(g, n, row, col) <= 8
  {
    NeighborCountIsSize(g, n, row, col);
    NeighborMinesInRing(g, n, row, col);
    RingSize(row, col);
    SubsetSize(NeighborMines(g, n, row, col), Ring(row, col));
  }

  /** A square's count is zero exactly when none of its neighbours is a mine. */
  lemma NoMineNeighbourIffZero(g: seq<seq<Cell>>, n: nat, row: int, col: int)
    requires IsGrid(g, n)
    ensures NeighborCount(g, n, row, col) == 0 <==>
            forall r, c :: InWindow(n, row, col, r, c) && (r, c) != (row, col) ==> g[r][c] != Mine
  {
    NeighborCountIsSize(g, n, row, col);
    if NeighborCount(g, n, row, col) != 0 {
      var p :| p in NeighborMines(g, n, row, col);
      assert InWindow(n, row, col, p.0, p.1) && g[p.0][p.1] == Mine;
    } else {
      assert NeighborMines(g, n, row, col) == {};
    }
  }

  /** The count looks only at where the mines are: two grids with the same
      mines give every square the same count. */
  lemma NeighborCountOnlyMines(g1: seq<seq<Cell>>, g2: seq<seq<Cell>>, n: nat, row: int, col: int)
    requires IsGrid(g1, n) && IsGrid(g2, n) && SameMines(g1, g2, n)
    ensures NeighborCount(g1, n, row, col) == NeighborCount(g2, n, row, col)
  {
    NeighborCountIsSize(g1, n, row, col);
    NeighborCountIsSize(g2, n, row, col);
    assert NeighborMines(g1, n, row, col) == NeighborMines(g2, n, row, col);
  }

  /** What labelling writes at (r, c): a mine stays a mine, any other
      square gets its neighbour count. */
  function LabelAt(g: seq<seq<Cell>>, n: nat, r: int, c: int): Cell
    requires IsGrid(g, n) && InGrid(n, r, c)
  {
    if g[r][c] == Mine then Mine else Count(NeighborCount(g, n, r, c))
  }

  /** Every square labelled. */
  function Labelled(g: seq<seq<Cell>>, n: nat): (h: seq<seq<Cell>>)
    requires IsGrid(g, n)
    ensures IsGrid(h, n)
    ensures forall r, c :: InGrid(n, r, c) ==> h[r][c] == LabelAt(g, n, r, c)
  {
    seq(n, r requires 0 <= r < n => seq(n, c requires 0 <= c < n => LabelAt(g, n, r, c)))
  }

  /** Every square is a mine or holds its own neighbour count. */
  ghost predicate Consistent(g: seq<seq<Cell>>, n: nat)
    requires IsGrid(g, n)
  {
    forall r, c {:trigger LabelAt(g, n, r, c)} :: InGrid(n, r, c) ==> g[r][c] == LabelAt(g, n, r, c)
  }

  /** Progress of the labelling loops over a grid g: the squares before
      (r, c) in row-major order are labelled, the others are as in g. */
  ghost predicate LabelledUpTo(b: seq<seq<Cell>>, g: seq<seq<Cell>>, n: nat, r: int, c: int)
    requires IsGrid(g, n)
  {
    && IsGrid(b, n) && SameMines(b, g, n)
    && (forall i, j :: InGrid(n, i, j) && (i < r || (i == r && j < c)) ==> b[i][j] == LabelAt(g, n, i, j))
    && (forall i, j :: InGrid(n, i, j) && !(i < r || (i == r && j < c)) ==> b[i][j] == g[i][j])
  }

  /** A mine is left as it is. */
  lemma LabelSkip(b: seq<seq<Cell>>, g: seq<seq<Cell>>, n: nat, r: int, c: int)
    requires IsGrid(g, n) && LabelledUpTo(b, g, n, r, c) && InGrid(n, r, c) && b[r][c] == Mine
    ensures LabelledUpTo(b, g, n, r, c + 1)
  {
  }

  /** A safe square gets the count read off the partly labelled grid, which
      is its count in g, since labelling moves no mine. */
  lemma LabelWrite(b: seq<seq<Cell>>, g: seq<seq<Cell>>, n: nat, r: int, c: int)
    requires IsGrid(g, n) && LabelledUpTo(b, g, n, r, c) && InGrid(n, r, c) && b[r][c] != Mine
    ensures LabelledUpTo(b[r := b[r][c := Count(NeighborCount(b, n, r, c))]], g, n, r, c + 1)
  {
    NeighborCountOnlyMines(b, g, n, r, c);
    var b' := b[r := b[r][c := Count(NeighborCount(b, n, r, c))]];
    assert b'[r][c] == LabelAt(g, n, r, c);
    forall i, j | InGrid(n, i, j) && (i != r || j != c) ensures b'[i][j] == b[i][j] {
    }
  }

  lemma LabelNextRow(b: seq<seq<Cell>>, g: seq<seq<Cell>>, n: nat, r: int)
    requires IsGrid(g, n) && LabelledUpTo(b, g, n, r, n)
    ensures LabelledUpTo(b, g, n, r + 1, 0)
  {
  }

  lemma LabelDone(b: seq<seq<Cell>>, g: seq<seq<Cell>>, n: nat)
    requires IsGrid(g, n) && LabelledUpTo(b, g, n, n, 0)
    ensures b == Labelled(g, n)
  {
    var h := Labelled(g, n);
    forall i | 0 <= i < n ensures b[i] == h[i] {
      assert forall j :: 0 <= j < n ==> b[i][j] == h[i][j];
    }
  }

  /** Labelling keeps the mines where they were and leaves a grid in which
      every safe square holds the number of mines around it. */
  lemma LabelledIsConsistent(g: seq<seq<Cell>>, n: nat)
    requires IsGrid(g, n)
    ensures SameMines(g, Labelled(g, n), n)
    ensures MineSet(Labelled(g, n), n) == MineSet(g, n)
    ensures Consistent(Labelled(g, n), n)
  {
    var h := Labelled(g, n);
    assert SameMines(g, h, n);
    forall r, c | InGrid(n, r, c)
      ensures h[r][c] == LabelAt(h, n, r, c)
    {
      NeighborCountOnlyMines(g, h, n, r, c);
    }
  }

  /** Labelling an already consistent grid changes nothing; in particular
      labelling twice is labelling once. */
  lemma LabelledIdempotent(g: seq<seq<Cell>>, n: nat)
    requires IsGrid(g, n)
    ensures Labelled(Labelled(g, n), n) == Labelled(g, n)
  {
    LabelledIsConsistent(g, n);
    var h := Labelled(g, n);
    forall r | 0 <= r < n ensures Labelled(h, n)[r] == h[r] {
      forall c | 0 <= c < n ensures Labelled(h, n)[r][c] == h[r][c] {
        NeighborCountOnlyMines(g, h, n, r, c);
      }
    }
  }

  /** A consistent grid is its own labelling. */
  lemma ConsistentIsFixedPoint(g: seq<seq<Cell>>, n: nat)
    requires IsGrid(g, n)
    ensures Consistent(g, n) <==> Labelled(g, n) == g
  {
    if Consistent(g, n) {
      forall r | 0 <= r < n ensures Labelled(g, n)[r] == g[r] {
        assert forall c :: 0 <= c < n ==> Labelled(g, n)[r][c] == g[r][c];
      }
    }
    if Labelled(g, n) == g {
      LabelledIsConsistent(g, n);
    }
  }
}
