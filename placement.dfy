/**
 * Mine placement draws a location in 0 .. n*n - 1 and turns it into a
 * square with row = loc / n and col = loc % n. The random source is
 * modelled by the sequence of values it returns.
 */
module Placement {
  import opened Grid

  /** The square a draw lands on. Draws are never negative, so Dafny's
      division and remainder agree with Python's // and % in make_new_board. */
  function CellOf(loc: int, n: int): Coord
    requires n > 0
  {
    (loc / n, loc % n)
  }

  /** The draw that lands on square (r, c). */
  function LocOf(r: int, c: int, n: int): int
  {
    r * n + c
  }

  /** Every value the random source returns lies in 0 .. n*n - 1. */
  predicate DrawsInRange(draws: seq<int>, n: nat)
  {
    forall k :: 0 <= k < |draws| ==> 0 <= draws[k] < n * n
  }

  /** The distinct values among the draws. */
  function Drawn(draws: seq<int>): set<int>
  {
    set x | x in draws
  }

  /** The distinct squares the draws land on. */
  function DrawnCells(draws: seq<int>, n: nat): set<Coord>
  {
    set x | x in draws && n > 0 :: CellOf(x, n)
  }

  /** A draw in range lands on a square of the grid. */
  lemma CellOfInGrid(loc: int, n: int)
    requires n > 0 && 0 <= loc < n * n
    ensures InGrid(n, CellOf(loc, n).0, CellOf(loc, n).1)
  {
    var q := loc / n;
    assert loc == q * n + loc % n;
    MulMonotone(n, q, n);
  }

  /** n * a <= n * b when a <= b, for a positive n. */
  lemma MulMonotone(n: int, a: int, b: int)
    requires n > 0
    ensures a <= b <==> a * n <= b * n
  {
    if a <= b {
      assert b * n - a * n == (b - a) * n;
    } else {
      assert a * n - b * n == (a - b) * n;
    }
  }

  /** The quotient and remainder of loc by n are the only q, m with
      loc == q * n + m and 0 <= m < n. */
  lemma DivModUnique(loc: int, n: int, q: int, m: int)
    requires n > 0 && loc == q * n + m && 0 <= m < n
    ensures loc / n == q && loc % n == m
  {
    var q', m' := loc / n, loc % n;
    assert q' * n + m' == q * n + m;
    if q' < q {
      MulMonotone(n, q' + 1, q);
    } else if q' > q {
      MulMonotone(n, q + 1, q');
    }
  }

  /** Turning a draw into a square and back gives the draw. */
  lemma CellOfRoundTrip(loc: int, n: int)
    requires n > 0 && 0 <= loc
    ensures LocOf(CellOf(loc, n).0, CellOf(loc, n).1, n) == loc
  {
    assert loc == (loc / n) * n + loc % n;
  }

  /** Turning a square into a draw and back gives the square. */
  lemma LocOfRoundTrip(r: int, c: int, n: int)
    requires InGrid(n, r, c)
    ensures 0 <= LocOf(r, c, n) < n * n
    ensures CellOf(LocOf(r, c, n), n) == (r, c)
  {
    MulMonotone(n, r, n - 1);
    assert (n - 1) * n + n == n * n;
    assert 0 <= r * n;
    DivModUnique(r * n + c, n, r, c);
  }

  /** Distinct draws land on distinct squares. */
  lemma CellOfInjective(a: int, b: int, n: int)
    requires n > 0 && 0 <= a && 0 <= b
    ensures CellOf(a, n) == CellOf(b, n) <==> a == b
  {
    CellOfRoundTrip(a, n);
    CellOfRoundTrip(b, n);
  }

  lemma DrawnAppend(s: seq<int>, x: int, n: nat)
    ensures Drawn(s + [x]) == Drawn(s) + {x}
    ensures DrawnCells(s + [x], n) == DrawnCells(s, n) + (if n > 0 then {CellOf(x, n)} else {})
  {
    assert forall y :: y in s + [x] <==> y in s || y == x;
  }

  /** A draw's square is among the squares already drawn exactly when the
      draw itself was already drawn. */
  lemma DrawnCellsMember(s: seq<int>, x: int, n: nat)
    requires n > 0 && 0 <= x && forall k :: 0 <= k < |s| ==> 0 <= s[k]
    ensures CellOf(x, n) in DrawnCells(s, n) <==> x in Drawn(s)
  {
    if CellOf(x, n) in DrawnCells(s, n) {
      var y :| y in s && CellOf(y, n) == CellOf(x, n);
      CellOfInjective(x, y, n);
    }
  }

  /** The locations 0 .. m - 1. */
  function Below(m: nat): (s: set<int>)
    ensures forall x :: x in s <==> 0 <= x < m
    ensures |s| == m
  {
    if m == 0 then {} else Below(m - 1) + {m - 1}
  }

  /** Draws in range cannot hold more than n * n distinct values, so the
      bombs they can place number at most n * n. */
  lemma DrawnAtMostArea(draws: seq<int>, n: nat)
    requires DrawsInRange(draws, n)
    ensures |Drawn(draws)| <= n * n
  {
    assert Drawn(draws) <= Below(n * n);
    SubsetSize(Drawn(draws), Below(n * n));
  }

  /** For any bomb count up to n * n there are draws that place it: one
      draw for each location in turn. */
  lemma DrawsExist(n: nat, numBombs: nat)
    requires numBombs <= n * n
    ensures exists draws :: DrawsInRange(draws, n) && numBombs <= |Drawn(draws)|
  {
    var draws := seq(n * n, i => i);
    forall x | 0 <= x < n * n ensures x in draws {
      assert draws[x] == x;
    }
    assert Drawn(draws) == Below(n * n);
    assert DrawsInRange(draws, n);
  }

  /** The placement loop consumes exactly `used` draws: the shortest prefix
      of the draws holding numBombs distinct values. */
  ghost predicate FirstEnough(draws: seq<int>, used: int, numBombs: nat)
  {
    && 0 <= used <= |draws|
    && |Drawn(draws[..used])| == numBombs
    && (used > 0 ==> |Drawn(draws[..used - 1])| < numBombs)
  }

  lemma DrawnPrefixGrows(draws: seq<int>, a: nat, b: nat)
    requires a <= b <= |draws|
    ensures Drawn(draws[..a]) <= Drawn(draws[..b])
    ensures |Drawn(draws[..a])| <= |Drawn(draws[..b])|
  {
    assert forall k :: 0 <= k < a ==> draws[..a][k] == draws[..b][k];
    SubsetSize(Drawn(draws[..a]), Drawn(draws[..b]));
  }

  /** The number of draws consumed, and so the mine layout, is determined
      by the draws and the bomb count. */
  lemma FirstEnoughUnique(draws: seq<int>, u1: int, u2: int, numBombs: nat)
    requires FirstEnough(draws, u1, numBombs) && FirstEnough(draws, u2, numBombs)
    ensures u1 == u2
  {
    if u1 < u2 {
      DrawnPrefixGrows(draws, u1, u2 - 1);
    } else if u2 < u1 {
      DrawnPrefixGrows(draws, u2, u1 - 1);
    }
  }

  /** One turn of the placement loop: draw number i either lands on a
      square already drawn (and adds no new value) or on a new square (and
      adds one new value). */
  lemma DrawStep(draws: seq<int>, i: nat, n: nat)
    requires DrawsInRange(draws, n) && i < |draws|
    ensures n > 0
    ensures InGrid(n, CellOf(draws[i], n).0, CellOf(draws[i], n).1)
    ensures DrawnCells(draws[..i + 1], n) == DrawnCells(draws[..i], n) + {CellOf(draws[i], n)}
    ensures CellOf(draws[i], n) in DrawnCells(draws[..i], n) ==> Drawn(draws[..i + 1]) == Drawn(draws[..i])
    ensures CellOf(draws[i], n) !in DrawnCells(draws[..i], n) ==> |Drawn(draws[..i + 1])| == |Drawn(draws[..i])| + 1
  {
    var loc := draws[i];
    assert draws[..i + 1] == draws[..i] + [loc];
    DrawnAppend(draws[..i], loc, n);
    DrawnCellsMember(draws[..i], loc, n);
    CellOfInGrid(loc, n);
  }
}
