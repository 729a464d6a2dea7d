/**
 * The occupancy belief grid as a value: a field of cell masses indexed
 * [x][y], with the sums, the collapse-to-point field, the visibility
 * prune-and-renormalise field and the best-guess (arg-max) cell that the
 * in-place operations of the target component are specified by.
 */
module Belief {
  import opened Common
  import opened Grids

  /** A belief field: m[x][y] is the mass of cell (x, y). */
  type Field = seq<seq<real>>

  predicate Shaped(m: Field, xCount: int, yCount: int) {
    |m| == xCount && forall x :: 0 <= x < |m| ==> |m[x]| == yCount
  }

  predicate SameShape(a: Field, b: Field) {
    |a| == |b| && forall x :: 0 <= x < |a| ==> |a[x]| == |b[x]|
  }

  predicate Has(m: Field, c: Cell) {
    0 <= c.x < |m| && 0 <= c.y < |m[c.x]|
  }

  function At(m: Field, c: Cell): real
    requires Has(m, c)
  {
    m[c.x][c.y]
  }

  /** The field with the mass of `c` replaced by `v` (a SetValue). */
  function Put(m: Field, c: Cell, v: real): (r: Field)
    requires Has(m, c)
    ensures SameShape(r, m)
    ensures forall x, y :: 0 <= x < |r| && 0 <= y < |r[x]| ==>
              r[x][y] == if x == c.x && y == c.y then v else m[x][y]
  {
    m[c.x := m[c.x][c.y := v]]
  }

  ghost predicate NonNegative(m: Field) {
    forall x, y :: 0 <= x < |m| && 0 <= y < |m[x]| ==> m[x][y] >= 0.0
  }

  ghost predicate AllZero(m: Field) {
    forall x, y :: 0 <= x < |m| && 0 <= y < |m[x]| ==> m[x][y] == 0.0
  }

  /** Two fields of the same shape that agree on every cell are equal. */
  lemma FieldsEqual(a: Field, b: Field)
    requires SameShape(a, b)
    requires forall x, y :: 0 <= x < |a| && 0 <= y < |a[x]| ==> a[x][y] == b[x][y]
    ensures a == b
  {
    forall x | 0 <= x < |a|
      ensures a[x] == b[x]
    {
      assert |a[x]| == |b[x]|;
    }
  }

  // ---------------------------------------------------------------------------
  // Total mass

  function ColumnSum(s: seq<real>): real {
    if s == [] then 0.0 else ColumnSum(s[..|s| - 1]) + s[|s| - 1]
  }

  /** The total mass of a field. */
  function Total(m: Field): real {
    if m == [] then 0.0 else Total(m[..|m| - 1]) + ColumnSum(m[|m| - 1])
  }

  /** A column that is zero except perhaps at `k` sums to its value at `k`. */
  lemma {:induction false} ColumnSumOneHot(s: seq<real>, k: int)
    requires forall i :: 0 <= i < |s| && i != k ==> s[i] == 0.0
    ensures ColumnSum(s) == if 0 <= k < |s| then s[k] else 0.0
  {
    if s != [] {
      var p := s[..|s| - 1];
      ColumnSumOneHot(p, k);
      assert ColumnSum(p) == if 0 <= k < |p| then p[k] else 0.0;
    }
  }

  /** A field that is zero except perhaps at `c` has total mass equal to its mass at `c`. */
  lemma {:induction false} TotalOneHot(m: Field, c: Cell)
    requires forall x, y :: 0 <= x < |m| && 0 <= y < |m[x]| && Cell(x, y) != c ==> m[x][y] == 0.0
    ensures Total(m) == if Has(m, c) then At(m, c) else 0.0
  {
    if m != [] {
      var p := m[..|m| - 1];
      var last := m[|m| - 1];
      TotalOneHot(p, c);
      ColumnSumOneHot(last, if c.x == |m| - 1 then c.y else -1);
    }
  }

  /** Replacing one cell's mass changes the total by the difference. */
  lemma {:induction false} ColumnSumPut(s: seq<real>, k: int, v: real)
    requires 0 <= k < |s|
    ensures ColumnSum(s[k := v]) == ColumnSum(s) - s[k] + v
  {
    var n := |s| - 1;
    assert s[k := v][..n] == if k < n then s[..n][k := v] else s[..n];
    if k < n {
      ColumnSumPut(s[..n], k, v);
    }
  }

  lemma {:induction false} TotalPut(m: Field, c: Cell, v: real)
    requires Has(m, c)
    ensures Total(Put(m, c, v)) == Total(m) - At(m, c) + v
  {
    var n := |m| - 1;
    var r := Put(m, c, v);
    assert r[..n] == if c.x < n then Put(m[..n], c, v) else m[..n];
    if c.x < n {
      TotalPut(m[..n], c, v);
    } else {
      ColumnSumPut(m[n], c.y, v);
    }
  }

  // ---------------------------------------------------------------------------
  // Collapse to a point (OccupancyMapSetPosition)

  /** The field OccupancyMapSetPosition leaves: every cell zero except the cell
      of `p`, which holds 1.0; no mass at all when that cell is off the grid. */
  function Collapsed(g: Grid, p: Vec3): (r: Field)
    ensures Shaped(r, g.xCount, g.yCount)
    ensures NonNegative(r)
    ensures forall c :: Has(r, c) ==> (At(r, c) > 0.0 <==> c == g.cellOf(p))
  {
    seq(g.xCount, x => seq(g.yCount, y => if Cell(x, y) == g.cellOf(p) then 1.0 else 0.0))
  }

  /** A collapsed field holds mass 1 in total when the position is on the grid
      and mass 0 otherwise. */
  lemma CollapsedTotal(g: Grid, p: Vec3)
    ensures Total(Collapsed(g, p)) == if g.InBounds(g.cellOf(p)) then 1.0 else 0.0
  {
    TotalOneHot(Collapsed(g, p), g.cellOf(p));
  }

  /** After a collapse the best guess is the cell of the position, or there is
      none when that cell is off the grid. */
  lemma CollapsedBestGuess(g: Grid, p: Vec3)
    ensures g.InBounds(g.cellOf(p)) ==> IsFirstMax(Collapsed(g, p), g.cellOf(p))
    ensures !g.InBounds(g.cellOf(p)) ==> AllNonPositive(Collapsed(g, p))
  {
  }

  // ---------------------------------------------------------------------------
  // Visibility prune and renormalise (OccupancyMapUpdate)

  /** The visibility map OccupancyMapUpdate builds, as written: 1.0 on the
      traversable cells some observer sees, but only on rows y < xCount, because
      the inner loop runs to XCount; 0.0 everywhere else. */
  function VisibilityAsWritten(g: Grid, seen: Cell -> bool): (r: Field)
    ensures Shaped(r, g.xCount, g.yCount)
    ensures forall x, y :: 0 <= x < g.xCount && 0 <= y < g.yCount && r[x][y] > 0.0 ==>
              y < g.xCount && g.IsTraversable(Cell(x, y))
  {
    seq(g.xCount, x => seq(g.yCount, y =>
      if y < g.xCount && g.IsTraversable(Cell(x, y)) && seen(Cell(x, y)) then 1.0 else 0.0))
  }

  /** The visibility map with the inner loop bounded by YCount: every traversable
      cell some observer sees is marked. */
  function Visibility(g: Grid, seen: Cell -> bool): (r: Field)
    ensures Shaped(r, g.xCount, g.yCount)
    ensures forall x, y :: 0 <= x < g.xCount && 0 <= y < g.yCount ==>
              (r[x][y] > 0.0 <==> g.IsTraversable(Cell(x, y)) && seen(Cell(x, y)))
  {
    seq(g.xCount, x => seq(g.yCount, y =>
      if g.IsTraversable(Cell(x, y)) && seen(Cell(x, y)) then 1.0 else 0.0))
  }

  /** The mass of a column's cells that the visibility column leaves unmarked (<= 0). */
  function ColumnNonVisible(s: seq<real>, v: seq<real>): real
    requires |s| == |v|
  {
    if s == [] then 0.0
    else ColumnNonVisible(s[..|s| - 1], v[..|v| - 1]) + (if v[|v| - 1] > 0.0 then 0.0 else s[|s| - 1])
  }

  /** totalProbability: the mass of every cell the visibility map leaves unmarked. */
  function NonVisibleTotal(m: Field, vis: Field): real
    requires SameShape(m, vis)
  {
    if m == [] then 0.0
    else NonVisibleTotal(m[..|m| - 1], vis[..|vis| - 1]) + ColumnNonVisible(m[|m| - 1], vis[|vis| - 1])
  }

  /** Adding column `x` to the prefix of columns before it. */
  lemma NonVisibleTotalStep(m: Field, vis: Field, x: int)
    requires SameShape(m, vis) && 0 <= x < |m|
    ensures SameShape(m[..x], vis[..x]) && SameShape(m[..x + 1], vis[..x + 1])
    ensures NonVisibleTotal(m[..x + 1], vis[..x + 1]) ==
            NonVisibleTotal(m[..x], vis[..x]) + ColumnNonVisible(m[x], vis[x])
  {
    assert m[..x + 1][..x] == m[..x] && vis[..x + 1][..x] == vis[..x];
  }

  /** One column after the prune pass and the renormalise pass, given the total `t`. */
  function PrunedColumn(s: seq<real>, v: seq<real>, t: real): (r: seq<real>)
    requires |s| == |v|
    ensures |r| == |s|
  {
    seq(|s|, y requires 0 <= y < |s| => if v[y] > 0.0 then 0.0 else if t > 0.0 then s[y] / t else s[y])
  }

  /** The field OccupancyMapUpdate leaves: marked cells zeroed; unmarked cells
      divided by the unmarked total when that total is positive, else kept. */
  function Pruned(m: Field, vis: Field): (r: Field)
    requires SameShape(m, vis)
    ensures SameShape(r, m)
  {
    var t := NonVisibleTotal(m, vis);
    seq(|m|, x requires 0 <= x < |m| => PrunedColumn(m[x], vis[x], t))
  }

  lemma DivideSelf(t: real)
    requires t > 0.0
    ensures t / t == 1.0
  {
  }

  lemma DivideSum(a: real, b: real, t: real)
    requires t > 0.0
    ensures a / t + b / t == (a + b) / t
  {
    assert (a / t) * t == a && (b / t) * t == b;
    assert (a / t + b / t) * t == a + b;
  }

  lemma {:induction false} PrunedColumnSum(s: seq<real>, v: seq<real>, t: real)
    requires |s| == |v| && t > 0.0
    ensures ColumnSum(PrunedColumn(s, v, t)) == ColumnNonVisible(s, v) / t
  {
    if s != [] {
      var n := |s| - 1;
      assert PrunedColumn(s, v, t)[..n] == PrunedColumn(s[..n], v[..n], t);
      PrunedColumnSum(s[..n], v[..n], t);
      DivideSum(ColumnNonVisible(s[..n], v[..n]), if v[n] > 0.0 then 0.0 else s[n], t);
    }
  }

  lemma {:induction false} ScaledTotal(m: Field, vis: Field, t: real)
    requires SameShape(m, vis) && t > 0.0
    ensures Total(seq(|m|, x requires 0 <= x < |m| => PrunedColumn(m[x], vis[x], t)))
            == NonVisibleTotal(m, vis) / t
  {
    if m != [] {
      var n := |m| - 1;
      var r := seq(|m|, x requires 0 <= x < |m| => PrunedColumn(m[x], vis[x], t));
      assert r[..n] == seq(n, x requires 0 <= x < n => PrunedColumn(m[..n][x], vis[..n][x], t));
      ScaledTotal(m[..n], vis[..n], t);
      PrunedColumnSum(m[n], vis[n], t);
      DivideSum(NonVisibleTotal(m[..n], vis[..n]), ColumnNonVisible(m[n], vis[n]), t);
    }
  }

  /** When some mass survives the prune, the renormalised field holds mass 1 in total. */
  lemma PrunedIsNormalized(m: Field, vis: Field)
    requires SameShape(m, vis)
    requires NonVisibleTotal(m, vis) > 0.0
    ensures Total(Pruned(m, vis)) == 1.0
  {
    var t := NonVisibleTotal(m, vis);
    assert Pruned(m, vis) == seq(|m|, x requires 0 <= x < |m| => PrunedColumn(m[x], vis[x], t));
    ScaledTotal(m, vis, t);
    DivideSelf(t);
  }

  lemma {:induction false} ColumnNonVisibleNonNegative(s: seq<real>, v: seq<real>)
    requires |s| == |v|
    requires forall y :: 0 <= y < |s| ==> s[y] >= 0.0
    ensures ColumnNonVisible(s, v) >= 0.0
    ensures ColumnNonVisible(s, v) == 0.0 ==> forall y :: 0 <= y < |s| && v[y] <= 0.0 ==> s[y] == 0.0
  {
    if s != [] {
      var n := |s| - 1;
      ColumnNonVisibleNonNegative(s[..n], v[..n]);
      assert forall y :: 0 <= y < n ==> s[..n][y] == s[y] && v[..n][y] == v[y];
    }
  }

  lemma {:induction false} NonVisibleTotalNonNegative(m: Field, vis: Field)
    requires SameShape(m, vis) && NonNegative(m)
    ensures NonVisibleTotal(m, vis) >= 0.0
    ensures NonVisibleTotal(m, vis) == 0.0 ==>
              forall x, y :: 0 <= x < |m| && 0 <= y < |m[x]| && vis[x][y] <= 0.0 ==> m[x][y] == 0.0
  {
    if m != [] {
      var n := |m| - 1;
      NonVisibleTotalNonNegative(m[..n], vis[..n]);
      ColumnNonVisibleNonNegative(m[n], vis[n]);
      assert forall x :: 0 <= x < n ==> m[..n][x] == m[x] && vis[..n][x] == vis[x];
    }
  }

  /** With non-negative masses, when no mass survives the prune the whole field is cleared. */
  lemma PrunedClearedWhenNothingSurvives(m: Field, vis: Field)
    requires SameShape(m, vis) && NonNegative(m)
    requires NonVisibleTotal(m, vis) <= 0.0
    ensures AllZero(Pruned(m, vis))
  {
    NonVisibleTotalNonNegative(m, vis);
  }

  /** Pruning keeps masses non-negative and leaves every marked cell empty. */
  lemma PrunedNonNegative(m: Field, vis: Field)
    requires SameShape(m, vis) && NonNegative(m)
    ensures NonNegative(Pruned(m, vis))
    ensures forall x, y :: 0 <= x < |m| && 0 <= y < |m[x]| && vis[x][y] > 0.0 ==> Pruned(m, vis)[x][y] == 0.0
  {
    NonVisibleTotalNonNegative(m, vis);
  }

  /** With the corrected visibility map, the prune clears every traversable
      cell an observer sees. */
  lemma PrunedClearsEverySeenCell(g: Grid, m: Field, seen: Cell -> bool, c: Cell)
    requires Shaped(m, g.xCount, g.yCount)
    requires g.IsTraversable(c) && seen(c)
    ensures Has(Pruned(m, Visibility(g, seen)), c) && At(Pruned(m, Visibility(g, seen)), c) == 0.0
  {
  }

  /** A grid one cell wide and two cells tall, both cells traversable, without
      neighbours. */
  function TallGrid(): (g: Grid)
    ensures g.xCount == 1 && g.yCount == 2
  {
    Grid(1, 2, c => true, p => Cell(0, 0), c => Vec3(0.0, 0.0, 0.0), c => [])
  }

  /** As written, only the first row of the tall grid is marked. */
  lemma TallGridAsWritten()
    ensures VisibilityAsWritten(TallGrid(), c => true) == [[1.0, 0.0]]
  {
    var r := VisibilityAsWritten(TallGrid(), c => true);
    assert r[0][0] == 1.0 by {
      assert 0 < TallGrid().xCount && TallGrid().IsTraversable(Cell(0, 0));
    }
    assert r[0][1] == 0.0 by {
      assert !(1 < TallGrid().xCount);
    }
    assert r[0] == [1.0, 0.0];
  }

  /** With the bound corrected, both cells of the tall grid are marked. */
  lemma TallGridCorrected()
    ensures Visibility(TallGrid(), c => true) == [[1.0, 1.0]]
  {
    var r := Visibility(TallGrid(), c => true);
    assert r[0][0] == 1.0 && r[0][1] == 1.0 by {
      assert TallGrid().IsTraversable(Cell(0, 0)) && TallGrid().IsTraversable(Cell(0, 1));
    }
    assert r[0] == [1.0, 1.0];
  }

  /** As written, on a grid taller than it is wide the cell (0, 1) is never
      marked even when the observers see every cell, so the mass on it survives
      the prune in full; the corrected map clears it. */
  lemma SeenCellBeyondXCountKeepsMass()
    ensures TallGrid().Valid()
    ensures TallGrid().IsTraversable(Cell(0, 1))
    ensures Pruned([[0.0, 1.0]], VisibilityAsWritten(TallGrid(), c => true)) == [[0.0, 1.0]]
    ensures Pruned([[0.0, 1.0]], Visibility(TallGrid(), c => true)) == [[0.0, 0.0]]
  {
    var g := TallGrid();
    var m: Field := [[0.0, 1.0]];
    var asWritten := VisibilityAsWritten(g, c => true);
    TallGridAsWritten();
    assert NonVisibleTotal(m, asWritten) == 1.0 by {
      assert [0.0, 1.0][..1] == [0.0] && [1.0, 0.0][..1] == [1.0];
      assert [0.0][..0] == [] && [1.0][..0] == [];
      assert ColumnNonVisible([0.0], [1.0]) == 0.0;
      assert ColumnNonVisible([0.0, 1.0], [1.0, 0.0]) == 1.0;
      assert m[..0] == [] && asWritten[..0] == [];
    }
    assert Pruned(m, asWritten) == [[0.0, 1.0]] by {
      DivideSelf(1.0);
      assert Pruned(m, asWritten)[0] == [0.0, 1.0];
    }
    var corrected := Visibility(g, c => true);
    TallGridCorrected();
    assert NonVisibleTotal(m, corrected) == 0.0 by {
      assert [0.0, 1.0][..1] == [0.0] && [1.0, 1.0][..1] == [1.0];
      assert [0.0][..0] == [] && [1.0][..0] == [];
      assert ColumnNonVisible([0.0], [1.0]) == 0.0;
      assert ColumnNonVisible([0.0, 1.0], [1.0, 1.0]) == 0.0;
      assert m[..0] == [] && corrected[..0] == [];
    }
    assert Pruned(m, corrected) == [[0.0, 0.0]] by {
      assert Pruned(m, corrected)[0] == [0.0, 0.0];
    }
  }

  // ---------------------------------------------------------------------------
  // Best guess (the arg-max scan of OccupancyMapUpdate)

  ghost predicate AllNonPositive(m: Field) {
    forall x, y :: 0 <= x < |m| && 0 <= y < |m[x]| ==> m[x][y] <= 0.0
  }

  /** Cell (x, y) comes before `c` in the scan order of the arg-max loop
      (x outer, y inner). */
  predicate ScannedBefore(x: int, y: int, c: Cell) {
    x < c.x || (x == c.x && y < c.y)
  }

  /** `c` is where the arg-max scan settles: its mass is positive and maximal,
      and strictly greater than that of every cell scanned before it. */
  ghost predicate IsFirstMax(m: Field, c: Cell) {
    && Has(m, c)
    && At(m, c) > 0.0
    && (forall x, y :: 0 <= x < |m| && 0 <= y < |m[x]| ==> m[x][y] <= At(m, c))
    && (forall x, y :: 0 <= x < |m| && 0 <= y < |m[x]| && ScannedBefore(x, y, c) ==> m[x][y] < At(m, c))
  }

  /** At most one cell is where the scan settles. */
  lemma FirstMaxUnique(m: Field, c: Cell, d: Cell)
    requires IsFirstMax(m, c) && IsFirstMax(m, d)
    ensures c == d
  {
  }
}
