/**
 * The flood-fill reveal as a property of sets of dug squares.
 *
 * Digging a square reveals its cascade region: the squares reachable from
 * it by a path that steps only from zero squares to squares of their
 * window and, after the start, enters no square dug earlier. The board's
 * Dig method is proved to add exactly this region; the lemmas here say
 * what the region contains and what it never contains.
 */
module Flood {
  import opened Grid
  import opened Neighbours

  /** Every square of the clipped window around (row, col) has been dug. */
  ghost predicate WindowDug(n: int, dug: set<Coord>, row: int, col: int)
  {
    forall r, c :: InWindow(n, row, col, r, c) ==> (r, c) in dug
  }

  /** Every dug zero square has its whole window dug: no cascade is left
      unfinished. */
  ghost predicate Closed(g: seq<seq<Cell>>, n: nat, dug: set<Coord>)
  {
    forall p :: p in dug && ZeroAt(g, p) ==> WindowDug(n, dug, p.0, p.1)
  }

  /** A path the cascade can follow: squares on the grid, each step from a
      zero square to a square of its window, and no square after the first
      in `avoid` (the squares dug before the cascade started). */
  ghost predicate CascadePath(g: seq<seq<Cell>>, n: nat, avoid: set<Coord>, path: seq<Coord>)
  {
    && |path| > 0
    && (forall i :: 0 <= i < |path| ==> InGrid(n, path[i].0, path[i].1))
    && (forall i :: 1 <= i < |path| ==> path[i] !in avoid)
    && (forall i :: 0 <= i < |path| - 1 ==> ZeroAt(g, path[i]) && InWindow(n, path[i].0, path[i].1, path[i + 1].0, path[i + 1].1))
  }

  ghost predicate Reaches(g: seq<seq<Cell>>, n: nat, avoid: set<Coord>, from: Coord, to: Coord)
  {
    exists path :: CascadePath(g, n, avoid, path) && path[0] == from && path[|path| - 1] == to
  }

  /** The squares a dig of `target` reveals when `avoid` was dug before. */
  ghost function Region(g: seq<seq<Cell>>, n: nat, avoid: set<Coord>, target: Coord): (s: set<Coord>)
    ensures forall p :: p in s <==> InGrid(n, p.0, p.1) && Reaches(g, n, avoid, target, p)
  {
    set p | p in AllCells(n) && Reaches(g, n, avoid, target, p)
  }

  /** The target itself is always revealed. */
  lemma TargetInRegion(g: seq<seq<Cell>>, n: nat, avoid: set<Coord>, target: Coord)
    requires InGrid(n, target.0, target.1)
    ensures target in Region(g, n, avoid, target)
  {
    assert CascadePath(g, n, avoid, [target]);
  }

  /** A square that is not zero reveals only itself. */
  lemma RegionOfNonZero(g: seq<seq<Cell>>, n: nat, avoid: set<Coord>, target: Coord)
    requires InGrid(n, target.0, target.1) && !ZeroAt(g, target)
    ensures Region(g, n, avoid, target) == {target}
  {
    TargetInRegion(g, n, avoid, target);
    forall p | p in Region(g, n, avoid, target) ensures p == target {
      var path :| CascadePath(g, n, avoid, path) && path[0] == target && path[|path| - 1] == p;
      assert |path| == 1;
    }
  }

  /** Digging a square already dug, when no cascade is unfinished, reveals
      nothing new. */
  lemma RegionOfDugSquare(g: seq<seq<Cell>>, n: nat, avoid: set<Coord>, target: Coord)
    requires Closed(g, n, avoid) && target in avoid && InGrid(n, target.0, target.1)
    ensures Region(g, n, avoid, target) == {target}
  {
    TargetInRegion(g, n, avoid, target);
    forall p | p in Region(g, n, avoid, target) ensures p == target {
      var path: seq<Coord> :| CascadePath(g, n, avoid, path) && path[0] == target && path[|path| - 1] == p;
      PathLeavesClosed(g, n, avoid, path);
    }
  }

  /** A path of more than one square cannot start inside a closed set it
      must then leave: its second square lies in the window of the zero
      first square and so would already be in the set. */
  lemma PathLeavesClosed(g: seq<seq<Cell>>, n: nat, avoid: set<Coord>, path: seq<Coord>)
    requires Closed(g, n, avoid) && CascadePath(g, n, avoid, path)
    ensures |path| > 1 ==> path[0] !in avoid
  {
    if |path| > 1 {
      assert ZeroAt(g, path[0]) && InWindow(n, path[0].0, path[0].1, path[1].0, path[1].1);
      assert path[1] !in avoid;
    }
  }

  /** One step of the cascade: whatever a zero square's neighbour q reveals
      (with at least as much dug beforehand, q not among it) the zero
      square reveals too. */
  lemma RegionStep(g: seq<seq<Cell>>, n: nat, avoid: set<Coord>, later: set<Coord>, target: Coord, q: Coord, p: Coord)
    requires avoid <= later && q !in later
    requires InGrid(n, target.0, target.1) && ZeroAt(g, target) && InWindow(n, target.0, target.1, q.0, q.1)
    requires p in Region(g, n, later, q)
    ensures p in Region(g, n, avoid, target)
  {
    var path :| CascadePath(g, n, later, path) && path[0] == q && path[|path| - 1] == p;
    var longer := [target] + path;
    assert forall i :: 1 <= i < |longer| ==> longer[i] == path[i - 1];
    assert forall i :: 0 <= i < |longer| ==> InGrid(n, longer[i].0, longer[i].1);
    assert forall i :: 1 <= i < |longer| ==> longer[i] !in avoid;
    assert forall i :: 0 <= i < |longer| - 1 ==> ZeroAt(g, longer[i]) && InWindow(n, longer[i].0, longer[i].1, longer[i + 1].0, longer[i + 1].1);
    assert CascadePath(g, n, avoid, longer);
  }

  /** The region is all dug once the target is dug and every zero square
      on it (the target, or one not dug before) has its window dug. */
  lemma RegionDug(g: seq<seq<Cell>>, n: nat, avoid: set<Coord>, dug: set<Coord>, target: Coord)
    requires target in dug
    requires ZeroAt(g, target) ==> WindowDug(n, dug, target.0, target.1)
    requires forall p :: p in dug - avoid && ZeroAt(g, p) ==> WindowDug(n, dug, p.0, p.1)
    ensures Region(g, n, avoid, target) <= dug
  {
    forall p | p in Region(g, n, avoid, target) ensures p in dug {
      var path :| CascadePath(g, n, avoid, path) && path[0] == target && path[|path| - 1] == p;
      PathDug(g, n, avoid, dug, path, |path| - 1);
    }
  }

  lemma {:induction false} PathDug(g: seq<seq<Cell>>, n: nat, avoid: set<Coord>, dug: set<Coord>, path: seq<Coord>, k: nat)
    requires CascadePath(g, n, avoid, path) && k < |path|
    requires path[0] in dug
    requires ZeroAt(g, path[0]) ==> WindowDug(n, dug, path[0].0, path[0].1)
    requires forall p :: p in dug - avoid && ZeroAt(g, p) ==> WindowDug(n, dug, p.0, p.1)
    ensures path[k] in dug
  {
    if k > 0 {
      PathDug(g, n, avoid, dug, path, k - 1);
      var q := path[k - 1];
      assert ZeroAt(g, q) && InWindow(n, q.0, q.1, path[k].0, path[k].1);
      assert WindowDug(n, dug, q.0, q.1);
    }
  }

  /** The cascade never reveals a mine other than the target: every other
      square of the region is in the window of a zero square. */
  lemma RegionHasNoOtherMine(g: seq<seq<Cell>>, n: nat, avoid: set<Coord>, target: Coord, p: Coord)
    requires IsGrid(g, n) && Consistent(g, n)
    requires p in Region(g, n, avoid, target) && p != target
    ensures !MineAt(g, p)
  {
    var path :| CascadePath(g, n, avoid, path) && path[0] == target && path[|path| - 1] == p;
    var q := path[|path| - 2];
    assert ZeroAt(g, q) && InWindow(n, q.0, q.1, p.0, p.1);
    assert g[q.0][q.1] == LabelAt(g, n, q.0, q.1);
    NoMineNeighbourIffZero(g, n, q.0, q.1);
  }

  /** The region holds a mine exactly when the target is one: a dig loses
      the game exactly when the dug square itself is a mine. */
  lemma RegionMineIffTarget(g: seq<seq<Cell>>, n: nat, avoid: set<Coord>, target: Coord)
    requires IsGrid(g, n) && Consistent(g, n) && InGrid(n, target.0, target.1)
    ensures Region(g, n, avoid, target) * MineSet(g, n) == {} <==> !MineAt(g, target)
  {
    TargetInRegion(g, n, avoid, target);
    forall p | p in Region(g, n, avoid, target) && p != target
      ensures p !in MineSet(g, n)
    {
      RegionHasNoOtherMine(g, n, avoid, target, p);
    }
    if MineAt(g, target) {
      assert target in Region(g, n, avoid, target) * MineSet(g, n);
    }
  }

  /** From a closed set of dug squares, every square reachable from a dug
      square through zero squares is dug: revealing any square of a zero
      region reveals the whole region and the squares bordering it. */
  lemma {:induction false} ClosedReachesAlongPaths(g: seq<seq<Cell>>, n: nat, dug: set<Coord>, path: seq<Coord>)
    requires Closed(g, n, dug) && CascadePath(g, n, {}, path) && path[0] in dug
    ensures path[|path| - 1] in dug
    decreases |path|
  {
    if |path| > 1 {
      var q := path[0];
      assert ZeroAt(g, q) && InWindow(n, q.0, q.1, path[1].0, path[1].1);
      assert WindowDug(n, dug, q.0, q.1);
      var rest := path[1..];
      assert forall i :: 0 <= i < |rest| ==> rest[i] == path[i + 1];
      assert CascadePath(g, n, {}, rest);
      ClosedReachesAlongPaths(g, n, dug, rest);
    }
  }

  /** Adding squares whose zero squares all have their windows dug keeps a
      closed set closed. */
  lemma ClosedGrows(g: seq<seq<Cell>>, n: nat, avoid: set<Coord>, dug: set<Coord>)
    requires avoid <= dug && Closed(g, n, avoid)
    requires forall p :: p in dug - avoid && ZeroAt(g, p) ==> WindowDug(n, dug, p.0, p.1)
    ensures Closed(g, n, dug)
  {
    forall p | p in dug && ZeroAt(g, p) ensures WindowDug(n, dug, p.0, p.1) {
      if p in avoid {
        assert WindowDug(n, avoid, p.0, p.1);
      }
    }
  }

  /** Mid-cascade state of a dig of `target` started with `avoid` dug:
      everything added so far is in the region, and every zero square added
      so far, other than the target, has its window dug. */
  ghost predicate CascadeSoFar(g: seq<seq<Cell>>, n: nat, avoid: set<Coord>, target: Coord, dug: set<Coord>)
  {
    && avoid + {target} <= dug
    && (forall p :: p in dug - avoid ==> p in Region(g, n, avoid, target))
    && (forall p :: p in dug - avoid && p != target && ZeroAt(g, p) ==> WindowDug(n, dug, p.0, p.1))
  }

  /** A finished recursive dig of a neighbour q of the zero target keeps
      the cascade's mid-state. */
  lemma CascadeStep(g: seq<seq<Cell>>, n: nat, avoid: set<Coord>, target: Coord, before: set<Coord>, after: set<Coord>, q: Coord)
    requires CascadeSoFar(g, n, avoid, target, before)
    requires InGrid(n, target.0, target.1) && ZeroAt(g, target) && InWindow(n, target.0, target.1, q.0, q.1) && q !in before
    requires after == before + Region(g, n, before, q)
    requires forall p :: p in after - before && ZeroAt(g, p) ==> WindowDug(n, after, p.0, p.1)
    ensures CascadeSoFar(g, n, avoid, target, after)
    ensures before + {q} <= after
  {
    TargetInRegion(g, n, before, q);
    forall p | p in after - before
      ensures p in Region(g, n, avoid, target)
    {
      RegionStep(g, n, avoid, before, target, q, p);
    }
    forall p | p in before - avoid && p != target && ZeroAt(g, p)
      ensures WindowDug(n, after, p.0, p.1)
    {
      assert WindowDug(n, before, p.0, p.1);
    }
  }

  /** A finished cascade: once the target's window is dug, the dug squares
      are exactly those dug before plus the target's region, none of the
      new squares but the target is a mine, every new zero square has its
      window dug, and a closed set stays closed. */
  lemma CascadeDone(g: seq<seq<Cell>>, n: nat, avoid: set<Coord>, target: Coord, dug: set<Coord>)
    requires IsGrid(g, n) && Consistent(g, n) && InGrid(n, target.0, target.1)
    requires CascadeSoFar(g, n, avoid, target, dug) && WindowDug(n, dug, target.0, target.1)
    ensures dug == avoid + Region(g, n, avoid, target)
    ensures forall p :: p in dug - avoid && p != target ==> !MineAt(g, p)
    ensures forall p :: p in dug - avoid && ZeroAt(g, p) ==> WindowDug(n, dug, p.0, p.1)
    ensures Closed(g, n, avoid) ==> Closed(g, n, dug)
  {
    RegionDug(g, n, avoid, dug, target);
    forall p | p in dug - avoid && p != target
      ensures !MineAt(g, p)
    {
      RegionHasNoOtherMine(g, n, avoid, target, p);
    }
    if Closed(g, n, avoid) {
      ClosedGrows(g, n, avoid, dug);
    }
  }

  /** The window around (row, col) is dug in row-major order up to, not
      including, (r, c): the progress of the cascade's two loops. */
  ghost predicate WindowDugBefore(n: int, dug: set<Coord>, row: int, col: int, r: int, c: int)
  {
    forall i, j :: InWindow(n, row, col, i, j) && (i < r || (i == r && j < c)) ==> (i, j) in dug
  }

  lemma WindowDugBeforeGrows(n: int, dug: set<Coord>, more: set<Coord>, row: int, col: int, r: int, c: int)
    requires WindowDugBefore(n, dug, row, col, r, c) && dug <= more
    ensures WindowDugBefore(n, more, row, col, r, c)
  {
  }

  lemma WindowDugBeforeNextColumn(n: int, dug: set<Coord>, row: int, col: int, r: int, c: int)
    requires WindowDugBefore(n, dug, row, col, r, c) && (r, c) in dug
    ensures WindowDugBefore(n, dug, row, col, r, c + 1)
  {
  }

  lemma WindowDugBeforeNextRow(n: int, dug: set<Coord>, row: int, col: int, r: int)
    requires WindowDugBefore(n, dug, row, col, r, Hi(n, col) + 1)
    ensures WindowDugBefore(n, dug, row, col, r + 1, Lo(col))
  {
  }

  lemma WindowDugBeforeDone(n: int, dug: set<Coord>, row: int, col: int, c: int)
    requires WindowDugBefore(n, dug, row, col, Hi(n, row) + 1, c)
    ensures WindowDug(n, dug, row, col)
  {
  }
}
