# Minesweeper board model

A Dafny model of the `Board` class of a console Minesweeper game
(`app/mineweeper-py.py`). The board is a `dim_size x dim_size` grid of
squares. Each square holds a mine, a neighbour count, or (only while the
board is being built) nothing yet. The board also keeps the set of squares
dug so far. The model covers the board's four parts:

- **Mine placement** (`make_new_board`). Rejection sampling: a draw picks a
  square, and a draw that lands on a square already holding a mine is thrown
  away. This repeats until `num_bombs` mines are down.
- **Neighbour counts** (`assign_values_to_board`,
  `get_neighboring_bomb_count`). Every safe square receives the number of
  mines in its 3 x 3 window, clipped at the grid's edges.
- **Digging** (`dig`). The target is added to the dug set. On a mine the
  result is `false`; on a positive count it is `true`. On a zero it digs
  every square of its window not dug yet, recursively.
- **Visible grid** (the first part of `__str__`). A dug square shows its
  content and an undug one shows a blank. Each column's width is the length
  of its longest text.

Files, one module each:

- `grid.dfy` (`Grid`): squares, coordinates, the set of all squares, the
  mine set and the safe set, and their sizes.
- `placement.dfy` (`Placement`): how a draw maps to a square, and which
  squares a sequence of draws mines.
- `neighbours.dfy` (`Neighbours`): the clipped window, the neighbour count,
  and the labelled grid.
- `flood.dfy` (`Flood`): the cascade region of a dig, defined by paths
  through zero squares, and the facts about it.
- `render.dfy` (`Render`): the text of a square, decimal digits, and the
  column widths.
- `board.dfy` (`Minesweeper`): the class `Board`, with fields `board`
  (grid) and `dug` (set of coordinates) that its methods update.

The methods are written the way the source works, with loops and
recursion. Each one is proved against the pure definitions in the other
modules, and the game's properties are proved about those definitions as
lemmas.

The cascade of `dig` is specified by a region. `Region(g, n, avoid, t)` is
the set of squares reachable from `t` along a path in which every square
except the last is a zero square, and no square after the first was
already dug (`avoid`) when the dig began. `Dig` adds exactly this region to
the dug set.

Definitions that mirror expressions of the source, whose behaviour the
lemmas below state:

- `Placement.CellOf`: the square `(loc // dim_size, loc % dim_size)` a draw picks (lines 83-84).
- `Neighbours.NeighborCount`: the count of `get_neighboring_bomb_count`, accumulated over the clipped window in the loops' own order (lines 107-112).
- `Render.CellText` and `Render.Decimal`: `str()` of a square's content, `"*"` or the decimal count (line 128).
- `Minesweeper.Board.AllSafeDug`: the win test of the game loop, `len(dug) >= dim_size ** 2 - num_bombs` (line 19).

The model adds one invariant of its own, `Minesweeper.Board.Settled`: the
board is valid and every dug zero square has its whole window dug. The
source keeps it without naming it: construction establishes it and every
dig preserves it.

## Model

| member | source | states |
|---|---|---|
| Minesweeper.Board.constructor | app/mineweeper-py.py:42-52 | the new board is a dim_size x dim_size grid with exactly num_bombs mines and every safe square labelled with its neighbour count; nothing is dug, so it is settled (no dug zero square has an undug neighbour); the mines are the squares of the shortest prefix of the draws that holds num_bombs distinct values |
| Minesweeper.Board.MakeNewBoard | app/mineweeper-py.py:72-91 | the result is an n x n grid with only mines on it (every other square unset) and exactly num_bombs mines; those are the squares picked by the draws up to the first point where num_bombs distinct draws were seen, so repeated draws are discarded |
| Placement.CellOfInGrid | app/mineweeper-py.py:82-84 | a draw in [0, n*n) maps to a row loc / n and a column loc % n that both lie in [0, n) |
| Placement.CellOfInjective | app/mineweeper-py.py:82-84 | two non-negative draws pick the same square exactly when they are equal |
| Placement.LocOfRoundTrip | app/mineweeper-py.py:82-84 | every square (r, c) is picked by the draw r * n + c, which lies in [0, n*n), so every square can be mined |
| Placement.CellOfRoundTrip | app/mineweeper-py.py:82-84 | the square a draw picks gives back the draw itself as row * n + col |
| Placement.DrawnCellsMember | app/mineweeper-py.py:82-88 | a square is among the squares picked by a run of draws exactly when its index was one of the draws |
| Placement.DrawnAtMostArea | app/mineweeper-py.py:81-82 | in-range draws hold at most n*n distinct values, so the placement loop can finish only when num_bombs <= n*n |
| Placement.DrawsExist | app/mineweeper-py.py:81-89 | when num_bombs <= n*n, some sequence of in-range draws satisfies the construction's precondition |
| Placement.FirstEnoughUnique | app/mineweeper-py.py:81-89 | the point where the placement loop stops is unique, so the draws determine the mines |
| Placement.DrawnPrefixGrows | app/mineweeper-py.py:81-89 | taking more draws never removes a drawn value, so the number of distinct draws only grows |
| Minesweeper.Board.AssignValuesToBoard | app/mineweeper-py.py:93-101 | the new grid is the labelling of the old one: mines stay mines, and every other square holds the number of mines around it in the old grid, whatever order the squares are visited in |
| Neighbours.LabelledIsConsistent | app/mineweeper-py.py:93-101 | labelling keeps exactly the same mines, and every safe square of the labelled grid holds its neighbour count in that same grid |
| Neighbours.LabelledIdempotent | app/mineweeper-py.py:93-101 | labelling an already-labelled grid changes nothing |
| Neighbours.ConsistentIsFixedPoint | app/mineweeper-py.py:93-101 | a grid is consistently labelled exactly when labelling leaves it unchanged |
| Neighbours.NeighborCountOnlyMines | app/mineweeper-py.py:109-112 | the count looks only at where the mines are: two grids with the same mines give the same count, so writing counts into safe squares does not change later counts |
| Minesweeper.Board.GetNeighboringBombCount | app/mineweeper-py.py:103-114 | the result is the number of mines in the window clipped to the grid, the square itself excluded, and is at most 8 |
| Neighbours.NeighborCountIsSize | app/mineweeper-py.py:103-114 | the count built row by row equals the size of the set of mine squares in the clipped window other than the square itself |
| Neighbours.RowMinesIsSize | app/mineweeper-py.py:108-112 | the inner loop's count over one row of the window equals the number of mine squares in that stretch of the row, the centre excluded |
| Neighbours.WindowMinesIsSize | app/mineweeper-py.py:107-112 | the outer loop's count over a band of rows equals the number of mine squares in that band, the centre excluded |
| Neighbours.NeighborCountAtMostEight | app/mineweeper-py.py:107-112 | a count is never more than 8, because the clipped window has no wrap-around and the centre is skipped |
| Neighbours.NoMineNeighbourIffZero | app/mineweeper-py.py:103-114 | a count is zero exactly when no square of the clipped window other than the centre is a mine |
| Minesweeper.Board.Dig | app/mineweeper-py.py:54-70 | the grid is untouched and the board stays valid; the squares added to dug are exactly the cascade region of the target; the result is false exactly when the target is a mine; a mine or positive target adds only itself; no added square other than the target is a mine; every added zero square, the target included, has its whole window dug; a dug set closed under zero windows stays closed, so a settled board stays settled; on a settled board, digging a square already dug changes nothing |
| Minesweeper.Board.DigAround | app/mineweeper-py.py:65-69 | after both loops of a zero square's dig, its whole clipped window is dug; dug only grows; the cascade invariant still holds (everything added lies in the region, no mine other than the target, added zero squares have their windows dug) |
| Flood.TargetInRegion | app/mineweeper-py.py:58 | the target of a dig is always in its own region |
| Flood.RegionOfNonZero | app/mineweeper-py.py:60-63 | a dig of a mine or of a positive count reaches only the target |
| Flood.RegionOfDugSquare | app/mineweeper-py.py:65-69 | digging again a square that is already dug, when every dug zero square has its window dug, reaches only that square: the repeat dig adds nothing |
| Flood.RegionHasNoOtherMine | app/mineweeper-py.py:62-69 | on a labelled grid, no square of a dig's region other than the target is a mine, because the cascade only passes through zero squares |
| Flood.RegionMineIffTarget | app/mineweeper-py.py:60-69 | a dig's region contains no mine exactly when the target is not a mine |
| Flood.ClosedReachesAlongPaths | app/mineweeper-py.py:65-69 | when every dug zero square has its window dug, every cascade path from a dug square ends on a dug square |
| Flood.ClosedGrows | app/mineweeper-py.py:65-69 | a dug set closed under zero windows stays closed when squares are added whose zero windows are dug too |
| Flood.CascadeStep | app/mineweeper-py.py:67-69 | a recursive dig of an undug window square keeps the cascade invariant of the outer dig |
| Flood.CascadeDone | app/mineweeper-py.py:65-70 | once the target's window is dug, the squares added are exactly the target's region, none of them but the target is a mine, every added zero square has its window dug, and closure is kept |
| Minesweeper.Board.VisibleBoard | app/mineweeper-py.py:122-130 | the visible grid is n x n; square (r, c) shows the text of its content when dug and a blank otherwise; the board is not changed |
| Render.VisibleTextFaithful | app/mineweeper-py.py:127-130 | a visible square is a blank exactly when it is not dug; a dug count shows digits that read back as the count (0 included); a dug mine shows "*" |
| Render.DecimalRoundTrip | app/mineweeper-py.py:128 | the decimal text of a count reads back as that count |
| Render.DecimalShape | app/mineweeper-py.py:128 | the decimal text of a count is non-empty and all digits, is one character long exactly when the count is below 10, and starts with '0' only for the count 0 (no leading zeros) |
| Render.VisibleTextOneWide | app/mineweeper-py.py:127-130 | a mine, a count of at most 8, or a blank is shown as exactly one character |
| Minesweeper.VisibleSquaresOneWide | app/mineweeper-py.py:122-130 | on a valid board every visible square is one character wide |
| Minesweeper.Board.VisibleWidths | app/mineweeper-py.py:122-138 | builds the visible grid (each square the text of its content when dug, a blank otherwise) and then its column widths; on a valid board every width is exactly 1 |
| Render.ColumnWidths | app/mineweeper-py.py:135-138 | there is one width per column; each is at least the length of every text in its column and equal to the length of some text in it; it is at least 1 when no text is empty |
| Minesweeper.WinMeansEverySafeSquareDug | app/mineweeper-py.py:19 | with no mine dug, the loop's test `len(dug) >= dim_size ** 2 - num_bombs` holds exactly when every safe square has been dug |
| Grid.AllCellsSize | app/mineweeper-py.py:82 | the grid has exactly n*n squares, the range of a draw and the bound on the dug set |
| Grid.SafeSetSize | app/mineweeper-py.py:19 | the safe squares are the squares that are not mines, and there are n*n minus the number of mines of them |

## Left out

- `play()` (lines 8-36) is left out: console input, parsing and printing. It has two bugs that the model does not copy. Line 15 passes `dim_size` as the number of bombs. Line 24 accepts `row == dim_size` and `col == dim_size`.
- Minesweeper.Board.Dig: requires the target to lie on the grid. This stands in for the input check that `play()` should make.
- Minesweeper.Board.AllSafeDug: the win test at line 19 is a predicate over the board's own `numBombs`, not over `play()`'s argument. The game loop itself is not modelled.
- `random.randint` (line 82) becomes a sequence of draws given by the caller. The distribution is not modelled.
- Minesweeper.Board.MakeNewBoard: requires that every draw is in `[0, dim_size**2)`, as `randint` guarantees. It also requires at least `num_bombs` distinct draws; this stands in for the random source eventually hitting enough free squares. Without it the loop cannot finish; `Placement.DrawnAtMostArea` and `Placement.DrawsExist` show that such draws exist exactly when `num_bombs <= dim_size**2`.
- The source has no guard against `num_bombs > dim_size**2`. For `dim_size >= 1` its placement loop runs forever; for `dim_size == 0` and `num_bombs >= 1` the draw at line 82 (`randint(0, -1)`) raises `ValueError` on the first pass. The model follows the code. It does not raise an error; the precondition above rules out the case. `num_bombs == dim_size**2` is allowed, as in the code: every square becomes a mine.
- Minesweeper.Board.DigAround: the two loops of `dig` (lines 65-69) are written as a separate method, which the recursive `Dig` and `DigAround` call mutually. The squares are visited in the same order, and the same recursive calls are made.
- Minesweeper.Board.Dig: stack depth is not modelled. The source's `dig` makes one nested call per newly dug square, and on a large empty board the chain of calls from one corner can be about dim_size² deep. Python's default recursion limit of 1000 frames then raises `RecursionError` partway through the cascade, with only part of the region added to `dug` (for example `Board(40, 0)` followed by `dig(0, 0)`). The model's `Dig` always completes the cascade and adds the whole region.
- Minesweeper.Board.Dig: requires `Valid()`, so no square is unset when it is dug. Comparing the source's `None` with `> 0` would raise; that case cannot arise on a constructed board.
- The text layout of `__str__` (lines 141-163) is left out: the header row, `%-Ns` padding, separators and the dash line. Line 160 also uses float division, which only sizes the dash line.
- Render.ColumnWidths: line 138 takes the length of the longest text in each column, which would vary if a text could be longer than one character. Counts never exceed 8, so on a constructed board every width is 1 (`Minesweeper.Board.VisibleWidths`). `ColumnWidths` is still stated for any grid of texts.
- `main`, the `__main__` guard and the unused `pprint` import are left out.
- Minesweeper.Board.constructor: `dimSize` and `numBombs` are `nat`, so negative sizes and bomb counts are excluded. The source accepts them: `Board(3, -1)` places no mine (the test `0 < -1` at line 81 fails at once) yet keeps `num_bombs == -1`, and `Board(-2, 0)` builds an empty grid (lines 75-77).
- Integers are unbounded, as Python's are, so no wrap-around is modelled.
