/**
 * The board's grid as a value: a square of cells indexed by (row, col),
 * and the cardinality facts about sets of coordinates the rest of the
 * model relies on.
 */
module Grid {

  /** One square of the board. The Python board stores "*" for a mine, None
      for a square not yet labelled and an int for a labelled safe square. */
  datatype Cell = Mine | Unset | Count(n: nat)

  /** A (row, col) coordinate, as the tuples kept in the set of dug squares. */
  type Coord = (int, int)

  /** g is a dimSize x dimSize list of rows. */
  predicate IsGrid(g: seq<seq<Cell>>, n: nat)
  {
    |g| == n && forall r :: 0 <= r < n ==> |g[r]| == n
  }

  predicate InGrid(n: int, r: int, c: int)
  {
    0 <= r < n && 0 <= c < n
  }

  /** The square at p exists and holds a mine. */
  predicate MineAt(g: seq<seq<Cell>>, p: Coord)
  {
    0 <= p.0 < |g| && 0 <= p.1 < |g[p.0]| && g[p.0][p.1] == Mine
  }

  /** The square at p exists and is a safe square with no neighbouring mine. */
  predicate ZeroAt(g: seq<seq<Cell>>, p: Coord)
  {
    0 <= p.0 < |g| && 0 <= p.1 < |g[p.0]| && g[p.0][p.1] == Count(0)
  }

  /** Every coordinate of an n x n grid. */
  function AllCells(n: nat): (cells: set<Coord>)
    ensures forall p :: p in cells <==> InGrid(n, p.0, p.1)
  {
    RectangleMembers(n, n);
    Rectangle(n, n)
  }

  /** The coordinates of every mine on the grid. */
  function MineSet(g: seq<seq<Cell>>, n: nat): (s: set<Coord>)
    requires IsGrid(g, n)
    ensures forall p :: p in s <==> InGrid(n, p.0, p.1) && g[p.0][p.1] == Mine
  {
    set p | p in AllCells(n) && g[p.0][p.1] == Mine
  }

  /** The coordinates of every square that is not a mine. */
  function SafeSet(g: seq<seq<Cell>>, n: nat): set<Coord>
    requires IsGrid(g, n)
  {
    set p | p in AllCells(n) && g[p.0][p.1] != Mine
  }

  /** Two grids of the same size have their mines on the same squares. */
  ghost predicate SameMines(g1: seq<seq<Cell>>, g2: seq<seq<Cell>>, n: nat)
    requires IsGrid(g1, n) && IsGrid(g2, n)
  {
    forall r, c :: InGrid(n, r, c) ==> (g1[r][c] == Mine <==> g2[r][c] == Mine)
  }

  /** Every square of the grid is a mine or not yet labelled: the grid
      between placing the mines and labelling them. */
  ghost predicate MinesOnly(g: seq<seq<Cell>>, n: nat)
    requires IsGrid(g, n)
  {
    forall r, c :: InGrid(n, r, c) ==> g[r][c] == Mine || g[r][c] == Unset
  }

  /** Writing a mine keeps a grid of mines and unlabelled squares so. */
  lemma PlantKeepsMinesOnly(g: seq<seq<Cell>>, n: nat, r: int, c: int)
    requires IsGrid(g, n) && InGrid(n, r, c) && MinesOnly(g, n)
    ensures IsGrid(g[r := g[r][c := Mine]], n) && MinesOnly(g[r := g[r][c := Mine]], n)
  {
    var h := g[r := g[r][c := Mine]];
    forall i, j | InGrid(n, i, j) ensures h[i][j] == Mine || h[i][j] == Unset {
      if i != r || j != c {
        assert h[i][j] == g[i][j];
      }
    }
  }

  /** Writing a mine onto a square that held none adds exactly that square to the mine set. */
  lemma MineSetAdd(g: seq<seq<Cell>>, n: nat, r: int, c: int)
    requires IsGrid(g, n) && InGrid(n, r, c) && g[r][c] != Mine
    ensures IsGrid(g[r := g[r][c := Mine]], n)
    ensures MineSet(g[r := g[r][c := Mine]], n) == MineSet(g, n) + {(r, c)}
    ensures |MineSet(g[r := g[r][c := Mine]], n)| == |MineSet(g, n)| + 1
  {
    var h := g[r := g[r][c := Mine]];
    assert MineSet(h, n) == MineSet(g, n) + {(r, c)};
  }

  /** A subset is no larger than its superset. */
  lemma SubsetSize<T>(a: set<T>, b: set<T>)
    requires a <= b
    ensures |a| <= |b|
    ensures |b - a| == |b| - |a|
  {
    assert a + (b - a) == b;
    assert a * (b - a) == {};
  }

  /** Disjoint sets: the union's size is the sum of the sizes. */
  lemma DisjointUnionSize<T>(a: set<T>, b: set<T>)
    requires forall x :: x in b ==> x !in a
    ensures |a + b| == |a| + |b|
  {
    assert (a + b) - a == b;
    SubsetSize(a, a + b);
  }

  /** Adding a new element q of `all` to a set between `inner` and `all`
      gives a set strictly larger than `inner` and no larger than `all`. */
  lemma GrowWithin<T>(inner: set<T>, before: set<T>, q: T, all: set<T>)
    requires inner <= before <= all && q in all && q !in before
    ensures |inner| < |before + {q}| <= |all|
  {
    SubsetSize(inner, before);
    SubsetSize(before + {q}, all);
  }

  /** A subset as large as its superset is the superset. */
  lemma SubsetSameSize<T>(a: set<T>, b: set<T>)
    requires a <= b && |a| == |b|
    ensures a == b
  {
    SubsetSize(a, b);
    assert |b - a| == 0;
    assert b - a == {};
  }

  /** Columns 0 .. m - 1 of row r. */
  function RowCells(r: int, m: nat): set<Coord>
  {
    if m == 0 then {} else RowCells(r, m - 1) + {(r, m - 1)}
  }

  /** Rows 0 .. k - 1, columns 0 .. n - 1. */
  function Rectangle(k: nat, n: nat): set<Coord>
  {
    if k == 0 then {} else Rectangle(k - 1, n) + RowCells(k - 1, n)
  }

  lemma {:induction false} RowCellsMembers(r: int, m: nat)
    ensures forall p :: p in RowCells(r, m) <==> p.0 == r && 0 <= p.1 < m
    ensures |RowCells(r, m)| == m
  {
    if m > 0 {
      var rest, q := RowCells(r, m - 1), (r, m - 1);
      RowCellsMembers(r, m - 1);
      assert RowCells(r, m) == rest + {q};
      forall p ensures p in RowCells(r, m) <==> p.0 == r && 0 <= p.1 < m {
        assert p == q <==> p.0 == r && p.1 == m - 1;
      }
      assert q !in rest;
    }
  }

  lemma {:induction false} RectangleMembers(k: nat, n: nat)
    ensures forall p :: p in Rectangle(k, n) <==> 0 <= p.0 < k && 0 <= p.1 < n
  {
    if k > 0 {
      var above, last := Rectangle(k - 1, n), RowCells(k - 1, n);
      RectangleMembers(k - 1, n);
      RowCellsMembers(k - 1, n);
      assert Rectangle(k, n) == above + last;
      forall p ensures p in Rectangle(k, n) <==> 0 <= p.0 < k && 0 <= p.1 < n {
        assert p in last <==> p.0 == k - 1 && 0 <= p.1 < n;
        assert p in above <==> 0 <= p.0 < k - 1 && 0 <= p.1 < n;
      }
    }
  }

  /** k rows of n squares, counted row by row. */
  function Area(k: nat, n: nat): nat
  {
    if k == 0 then 0 else Area(k - 1, n) + n
  }

  lemma {:induction false} AreaIsProduct(k: nat, n: nat)
    ensures Area(k, n) == k * n
  {
    if k > 0 {
      AreaIsProduct(k - 1, n);
      assert (k - 1) * n + n == k * n;
    }
  }

  lemma {:induction false} RectangleSize(k: nat, n: nat)
    ensures |Rectangle(k, n)| == Area(k, n)
  {
    if k > 0 {
      RectangleSize(k - 1, n);
      RectangleStep(k, n);
    }
  }

  /** Row k - 1 adds n squares to the first k - 1 rows. */
  lemma RectangleStep(k: nat, n: nat)
    requires k > 0
    ensures |Rectangle(k, n)| == |Rectangle(k - 1, n)| + n
  {
    var above, last := Rectangle(k - 1, n), RowCells(k - 1, n);
    LastRowIsNew(k - 1, n);
    RowCellsMembers(k - 1, n);
    DisjointUnionSize(above, last);
    assert Rectangle(k, n) == above + last;
  }

  /** Row m lies outside rows 0 .. m - 1. */
  lemma LastRowIsNew(m: nat, n: nat)
    ensures forall p :: p in RowCells(m, n) ==> p !in Rectangle(m, n)
  {
    RectangleMembers(m, n);
    RowCellsMembers(m, n);
  }

  /** The grid has dimSize * dimSize squares. */
  lemma AllCellsSize(n: nat)
    ensures |AllCells(n)| == n * n
  {
    RectangleSize(n, n);
    AreaIsProduct(n, n);
  }

  /** Every square is either a mine or safe, never both: the safe squares
      number n * n minus the mines. */
  lemma SafeSetSize(g: seq<seq<Cell>>, n: nat)
    requires IsGrid(g, n)
    ensures SafeSet(g, n) == AllCells(n) - MineSet(g, n)
    ensures |SafeSet(g, n)| == n * n - |MineSet(g, n)|
  {
    AllCellsSize(n);
    assert SafeSet(g, n) == AllCells(n) - MineSet(g, n);
    SubsetSize(MineSet(g, n), AllCells(n));
  }
}
